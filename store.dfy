/**
 * The persisted tweet table. `TweetStore` holds the rows by id, the registered
 * user ids, the id counter and the logical clock that stamps `created_at` and
 * `updated_at`; its methods are the model-level writes that the views use:
 * inserting a new tweet (`save` on a fresh instance), updating one (`save` on
 * an existing instance), and the two cascading deletes.
 */
module Store {
  import opened Wrappers
  import opened Models

  /** Why a write is refused: `clean` first, then the table's own constraints. */
  datatype SaveError = CleanFailed(message: string) | TextTooLong | UnknownUser | UnknownParent

  /**
   * The first error an insert runs into. `save` calls `clean` before anything
   * reaches the table, so a clean failure wins over every constraint.
   */
  function InsertError(rows: map<TweetId, Tweet>, users: set<UserId>, text: string,
                       image: Option<Image>, user: UserId, parent: Option<TweetId>): (r: Option<SaveError>)
    ensures ImageTooLarge(image) ==> r == Some(CleanFailed(ImageTooLargeMessage))
    ensures r.None? <==>
      !ImageTooLarge(image) && |text| <= TextMaxLength && user in users &&
      (parent.Some? ==> parent.value in rows)
  {
    var probe := Tweet(text, image, 0, 0, user, parent);
    if Clean(probe).Some? then Some(CleanFailed(Clean(probe).value))
    else if |text| > TextMaxLength then Some(TextTooLong)
    else if user !in users then Some(UnknownUser)
    else if parent.Some? && parent.value !in rows then Some(UnknownParent)
    else None
  }

  /** The first error an update of `text` and `image` runs into. */
  function UpdateError(text: string, image: Option<Image>): (r: Option<SaveError>)
    ensures ImageTooLarge(image) ==> r == Some(CleanFailed(ImageTooLargeMessage))
    ensures r.None? <==> !ImageTooLarge(image) && |text| <= TextMaxLength
  {
    if ImageTooLarge(image) then Some(CleanFailed(ImageTooLargeMessage))
    else if |text| > TextMaxLength then Some(TextTooLong)
    else None
  }

  /** What one row must satisfy for the table to be consistent. */
  ghost predicate RowValid(rows: map<TweetId, Tweet>, users: set<UserId>, clock: nat, id: TweetId)
    requires id in rows
  {
    var t := rows[id];
    && t.user in users
    && |t.text| <= TextMaxLength
    && !ImageTooLarge(t.image)
    && t.createdAt <= t.updatedAt <= clock
    && (t.parent.Some? ==> t.parent.value in rows && t.parent.value < id)
  }

  /**
   * The rows a cascading delete from `roots` removes, computed by growing the
   * set with the replies of its members until nothing new is added.
   */
  method CascadeClosure(rows: map<TweetId, Tweet>, roots: set<TweetId>) returns (doomed: set<TweetId>)
    ensures doomed == CascadeSet(rows, roots)
  {
    doomed := roots * rows.Keys;
    forall r | r in doomed ensures Doomed(rows, roots, r) {
      RootsDoomed(rows, roots, r);
    }
    while true
      invariant doomed <= rows.Keys
      invariant roots * rows.Keys <= doomed
      invariant forall x :: x in doomed ==> Doomed(rows, roots, x)
      decreases rows.Keys - doomed
    {
      var replies := set c | c in rows && rows[c].parent.Some? && rows[c].parent.value in doomed;
      if replies <= doomed {
        break;
      }
      forall c | c in replies ensures Doomed(rows, roots, c) {
        ChildOfDoomed(rows, roots, c);
      }
      doomed := doomed + replies;
    }
    forall id | id in CascadeSet(rows, roots) ensures id in doomed {
      var k: nat :| ReachesWithin(rows, id, roots, k);
      ClosedHoldsCascade(rows, roots, doomed, id, k);
    }
  }

  class TweetStore {
    var rows: map<TweetId, Tweet>
    var users: set<UserId>
    var nextId: TweetId
    var clock: nat

    ghost predicate Valid()
      reads this
    {
      && (forall id :: id in rows ==> id < nextId)
      && (forall id :: id in rows ==> RowValid(rows, users, clock, id))
      && CreationOrdered(rows)
    }

    /** An empty table over the given user accounts; database ids start at 1. */
    constructor (accounts: set<UserId>)
      ensures Valid()
      ensures rows == map[] && users == accounts && nextId == 1 && clock == 0
    {
      rows := map[];
      users := accounts;
      nextId := 1;
      clock := 0;
    }

    /**
     * `Tweet.save()` on a new instance: `clean`, then an INSERT that takes the
     * next id and stamps both timestamps with a fresh tick. Exactly one row is
     * added on success; nothing changes on failure.
     */
    method Create(text: string, image: Option<Image>, user: UserId, parent: Option<TweetId>)
      returns (r: Result<TweetId, SaveError>)
      requires Valid()
      modifies this
      ensures Valid()
      ensures users == old(users)
      ensures r.Err? <==> InsertError(old(rows), old(users), text, image, user, parent).Some?
      ensures r.Err? ==> r.error == InsertError(old(rows), old(users), text, image, user, parent).value
      ensures r.Err? ==> rows == old(rows) && nextId == old(nextId) && clock == old(clock)
      ensures r.Ok? ==> r.value == old(nextId) && r.value !in old(rows)
      ensures r.Ok? ==> rows == old(rows)[r.value := Tweet(text, image, old(clock) + 1, old(clock) + 1, user, parent)]
      ensures r.Ok? ==> nextId == old(nextId) + 1 && clock == old(clock) + 1
    {
      var err := InsertError(rows, users, text, image, user, parent);
      if err.Some? {
        return Err(err.value);
      }
      var id := nextId;
      clock := clock + 1;
      rows := rows[id := Tweet(text, image, clock, clock, user, parent)];
      nextId := nextId + 1;
      r := Ok(id);
    }

    /**
     * `form.save()` on an existing instance: the new text and image are
     * assigned, `clean` runs, and the UPDATE refreshes `updated_at`. Only that
     * row's text, image and `updated_at` change.
     */
    method Update(id: TweetId, text: string, image: Option<Image>) returns (r: Option<SaveError>)
      requires Valid() && id in rows
      modifies this
      ensures Valid()
      ensures users == old(users) && nextId == old(nextId)
      ensures r == UpdateError(text, image)
      ensures r.Some? ==> rows == old(rows) && clock == old(clock)
      ensures r.None? ==> clock == old(clock) + 1
      ensures r.None? ==> rows == old(rows)[id := old(rows)[id].(text := text, image := image, updatedAt := clock)]
      ensures r.None? ==> rows[id].updatedAt > old(rows)[id].updatedAt
      ensures r.None? ==> rows[id].createdAt == old(rows)[id].createdAt
    {
      r := UpdateError(text, image);
      if r.Some? {
        return;
      }
      clock := clock + 1;
      rows := rows[id := rows[id].(text := text, image := image, updatedAt := clock)];
    }

    /** `tweet.delete()`: the tweet and every transitive reply go, nothing else. */
    method Delete(id: TweetId)
      requires Valid()
      modifies this
      ensures Valid()
      ensures users == old(users) && nextId == old(nextId) && clock == old(clock)
      ensures rows == old(rows) - CascadeSet(old(rows), {id})
      ensures id !in rows
    {
      var doomed := CascadeClosure(rows, {id});
      if id in rows {
        RootsDoomed(rows, {id}, id);
      }
      KeepValid(doomed, users);
      rows := rows - doomed;
    }

    /**
     * `user.delete()`: the `user` foreign key cascades to all of that user's
     * tweets, which cascade in turn to their replies, whoever wrote them.
     */
    method DeleteUser(u: UserId)
      requires Valid()
      modifies this
      ensures Valid()
      ensures users == old(users) - {u}
      ensures nextId == old(nextId) && clock == old(clock)
      ensures rows == old(rows) - CascadeSet(old(rows), set id | id in old(rows) && old(rows)[id].user == u)
      ensures forall id :: id in rows ==> rows[id].user != u
    {
      var roots := set id | id in rows && rows[id].user == u;
      var doomed := CascadeClosure(rows, roots);
      forall id | id in roots ensures id in doomed {
        RootsDoomed(rows, roots, id);
      }
      KeepValid(doomed, users - {u});
      rows := rows - doomed;
      users := users - {u};
    }

    /** Removing a cascade-closed set keeps the table consistent. */
    lemma KeepValid(doomed: set<TweetId>, remaining: set<UserId>)
      requires Valid()
      requires exists roots :: doomed == CascadeSet(rows, roots)
      requires forall id :: id in rows && id !in doomed ==> rows[id].user in remaining
      ensures var left := rows - doomed;
        && (forall id :: id in left ==> id < nextId)
        && (forall id :: id in left ==> RowValid(left, remaining, clock, id))
        && CreationOrdered(left)
    {
      var roots :| doomed == CascadeSet(rows, roots);
      var left := rows - doomed;
      forall id | id in left ensures RowValid(left, remaining, clock, id) {
        assert RowValid(rows, users, clock, id);
        if rows[id].parent.Some? {
          SurvivorsKeepParents(rows, roots, id);
        }
      }
    }
  }
}
