/**
 * The `Tweet` model: the record, its field-level rules (`clean`, `__str__`),
 * the two cascading foreign keys and the default ordering, stated over a table
 * `map<TweetId, Tweet>`.
 */
module Models {
  import opened Wrappers
  import Strings

  type TweetId = nat
  type UserId = nat

  /** `text = CharField(max_length=280)` */
  const TextMaxLength: nat := 280
  /** The 5MB image limit, `5 * 1024 * 1024` bytes. */
  const MaxImageBytes: nat := 5 * 1024 * 1024
  /** `user = ForeignKey(User, ..., default=1)` */
  const DefaultUserId: UserId := 1
  /** `__str__` shows at most this many characters of the text. */
  const StrTextPrefix: nat := 50

  const ImageTooLargeMessage: string := "Image file size must be under 5MB"

  /** An uploaded image, reduced to what the checks read: its size and the `content_type` `clean_image` reads. */
  datatype Image = Image(size: nat, contentType: string)

  /** One row of the tweet table. Timestamps are ticks of a logical clock. */
  datatype Tweet = Tweet(
    text: string,
    image: Option<Image>,
    createdAt: nat,
    updatedAt: nat,
    user: UserId,
    parent: Option<TweetId>)

  predicate ImageTooLarge(image: Option<Image>) {
    image.Some? && image.value.size > MaxImageBytes
  }

  /** `Tweet.clean`: the one model-level check, on the image size only. */
  function Clean(t: Tweet): (r: Option<string>)
    ensures r.Some? <==> t.image.Some? && t.image.value.size > MaxImageBytes
    ensures r.Some? ==> r.value == ImageTooLargeMessage
  {
    if ImageTooLarge(t.image) then Some(ImageTooLargeMessage) else None
  }

  /** The content type plays no part in `clean`, and the 5MB boundary is inclusive. */
  lemma CleanBoundaries(t: Tweet, size: nat, ct1: string, ct2: string)
    ensures Clean(t.(image := Some(Image(size, ct1)))) == Clean(t.(image := Some(Image(size, ct2))))
    ensures Clean(t.(image := None)) == None
    ensures Clean(t.(image := Some(Image(MaxImageBytes, ct1)))) == None
    ensures Clean(t.(image := Some(Image(MaxImageBytes + 1, ct1)))).Some?
  {
  }

  /** `Tweet.__str__`: the author's username, ": ", then `text[:50]`. */
  function Str(username: string, t: Tweet): (r: string)
    ensures |r| == |username| + 2 + (if |t.text| < StrTextPrefix then |t.text| else StrTextPrefix)
    ensures r[..|username| + 2] == username + ": "
    ensures forall i :: |username| + 2 <= i < |r| ==> r[i] == t.text[i - |username| - 2]
    ensures |t.text| <= StrTextPrefix ==> r == username + ": " + t.text
  {
    username + ": " + (if |t.text| <= StrTextPrefix then t.text else t.text[..StrTextPrefix])
  }

  // ---------------------------------------------------------------------
  // Cascading deletes. Both foreign keys are `on_delete=CASCADE`: removing a
  // tweet removes its replies, whose removal removes theirs, and so on.
  // ---------------------------------------------------------------------

  /**
   * Following at most `k` parent links from `id` (inside the table) reaches
   * one of `roots`.
   */
  predicate ReachesWithin(rows: map<TweetId, Tweet>, id: TweetId, roots: set<TweetId>, k: nat)
    decreases k
  {
    id in rows &&
    (id in roots ||
     (k > 0 && rows[id].parent.Some? && ReachesWithin(rows, rows[id].parent.value, roots, k - 1)))
  }

  /** `id` is a row that is one of `roots` or a transitive reply to one of them. */
  ghost predicate Doomed(rows: map<TweetId, Tweet>, roots: set<TweetId>, id: TweetId) {
    exists k: nat :: ReachesWithin(rows, id, roots, k)
  }

  /** Everything a cascading delete starting from `roots` removes. */
  ghost function CascadeSet(rows: map<TweetId, Tweet>, roots: set<TweetId>): (r: set<TweetId>)
    ensures r <= rows.Keys
    ensures roots * rows.Keys <= r
    ensures forall c :: c in rows && rows[c].parent.Some? && rows[c].parent.value in r ==> c in r
  {
    AllRootsDoomed(rows, roots);
    AllRepliesDoomed(rows, roots);
    set id | id in rows && Doomed(rows, roots, id)
  }

  /** A reply to a doomed tweet is doomed. */
  lemma ChildOfDoomed(rows: map<TweetId, Tweet>, roots: set<TweetId>, c: TweetId)
    requires c in rows && rows[c].parent.Some? && Doomed(rows, roots, rows[c].parent.value)
    ensures Doomed(rows, roots, c)
  {
    var k: nat :| ReachesWithin(rows, rows[c].parent.value, roots, k);
    assert ReachesWithin(rows, c, roots, k + 1);
  }

  /** The roots present in the table are doomed. */
  lemma RootsDoomed(rows: map<TweetId, Tweet>, roots: set<TweetId>, r: TweetId)
    requires r in rows && r in roots
    ensures Doomed(rows, roots, r)
  {
    assert ReachesWithin(rows, r, roots, 0);
  }

  /** Every root present in the table is doomed. */
  lemma AllRootsDoomed(rows: map<TweetId, Tweet>, roots: set<TweetId>)
    ensures forall r :: r in rows && r in roots ==> Doomed(rows, roots, r)
  {
    forall r | r in rows && r in roots ensures Doomed(rows, roots, r) {
      RootsDoomed(rows, roots, r);
    }
  }

  /** Every reply to a doomed tweet is doomed. */
  lemma AllRepliesDoomed(rows: map<TweetId, Tweet>, roots: set<TweetId>)
    ensures forall c :: c in rows && rows[c].parent.Some? && Doomed(rows, roots, rows[c].parent.value) ==>
      Doomed(rows, roots, c)
  {
    forall c | c in rows && rows[c].parent.Some? && Doomed(rows, roots, rows[c].parent.value)
      ensures Doomed(rows, roots, c)
    {
      ChildOfDoomed(rows, roots, c);
    }
  }

  /**
   * Any set of rows that holds the roots and every reply to its members
   * holds the whole cascade.
   */
  lemma {:induction false} ClosedHoldsCascade(
    rows: map<TweetId, Tweet>, roots: set<TweetId>, s: set<TweetId>, id: TweetId, k: nat)
    requires roots * rows.Keys <= s
    requires forall c :: c in rows && rows[c].parent.Some? && rows[c].parent.value in s ==> c in s
    requires ReachesWithin(rows, id, roots, k)
    ensures id in s
    decreases k
  {
    if id !in roots {
      ClosedHoldsCascade(rows, roots, s, rows[id].parent.value, k - 1);
    }
  }

  /** What a cascade leaves behind has no dangling parent link. */
  lemma SurvivorsKeepParents(rows: map<TweetId, Tweet>, roots: set<TweetId>, id: TweetId)
    requires id in rows && id !in CascadeSet(rows, roots)
    requires rows[id].parent.Some? && rows[id].parent.value in rows
    ensures rows[id].parent.value !in CascadeSet(rows, roots)
  {
    if rows[id].parent.value in CascadeSet(rows, roots) {
      ChildOfDoomed(rows, roots, id);
    }
  }

  /** A top-level tweet outside the roots is never removed by a cascade. */
  lemma TopLevelOutsideRootsSurvives(rows: map<TweetId, Tweet>, roots: set<TweetId>, id: TweetId)
    requires id in rows && id !in roots && rows[id].parent.None?
    ensures id !in CascadeSet(rows, roots)
  {
    forall k: nat ensures !ReachesWithin(rows, id, roots, k) {
    }
  }

  /** The chain root <- reply1 <- reply2 <- reply3: deleting reply1 leaves only root. */
  lemma ReplyChainCascade(u: UserId, v: UserId)
    ensures var rows := map[
        1 := Tweet("Root tweet", None, 1, 1, u, None),
        2 := Tweet("First level reply", None, 2, 2, u, Some(1)),
        3 := Tweet("Second level reply", None, 3, 3, v, Some(2)),
        4 := Tweet("Third level reply", None, 4, 4, u, Some(3))];
      CascadeSet(rows, {2}) == {2, 3, 4} && (rows - CascadeSet(rows, {2})).Keys == {1}
  {
    var rows := map[
        1 := Tweet("Root tweet", None, 1, 1, u, None),
        2 := Tweet("First level reply", None, 2, 2, u, Some(1)),
        3 := Tweet("Second level reply", None, 3, 3, v, Some(2)),
        4 := Tweet("Third level reply", None, 4, 4, u, Some(3))];
    assert ReachesWithin(rows, 2, {2}, 0);
    assert ReachesWithin(rows, 3, {2}, 1);
    assert ReachesWithin(rows, 4, {2}, 2);
    TopLevelOutsideRootsSurvives(rows, {2}, 1);
    assert CascadeSet(rows, {2}) == {2, 3, 4};
  }

  // ---------------------------------------------------------------------
  // Ordering. `created_at` grows with the id (ids and clock ticks are both
  // handed out in creation order), so walking the ids downwards lists
  // newest first and walking them upwards lists oldest first.
  // ---------------------------------------------------------------------

  /** Which rows a query keeps: `parent_tweet__isnull=True`, or `tweet.replies`. */
  datatype Filter = TopLevel | RepliesTo(parent: TweetId)

  predicate Selected(rows: map<TweetId, Tweet>, f: Filter, id: TweetId) {
    id in rows &&
    match f
    case TopLevel => rows[id].parent.None?
    case RepliesTo(p) => rows[id].parent == Some(p)
  }

  /** Rows created strictly later have strictly larger ids. */
  ghost predicate CreationOrdered(rows: map<TweetId, Tweet>) {
    forall a, b :: a in rows && b in rows && a < b ==> rows[a].createdAt < rows[b].createdAt
  }

  /** The selected ids below `n`, largest first. */
  function NewestFirst(rows: map<TweetId, Tweet>, f: Filter, n: nat): (r: seq<TweetId>)
    ensures |r| <= n
    ensures forall i :: 0 <= i < |r| ==> r[i] < n && Selected(rows, f, r[i])
  {
    if n == 0 then []
    else (if Selected(rows, f, n - 1) then [n - 1] else []) + NewestFirst(rows, f, n - 1)
  }

  /** The selected ids below `n`, smallest first. */
  function OldestFirst(rows: map<TweetId, Tweet>, f: Filter, n: nat): (r: seq<TweetId>)
    ensures |r| <= n
    ensures forall i :: 0 <= i < |r| ==> r[i] < n && Selected(rows, f, r[i])
  {
    if n == 0 then []
    else OldestFirst(rows, f, n - 1) + (if Selected(rows, f, n - 1) then [n - 1] else [])
  }

  /** `NewestFirst` lists every selected row below `n`. */
  lemma {:induction false} NewestFirstHolds(rows: map<TweetId, Tweet>, f: Filter, n: nat, id: TweetId)
    requires id < n && Selected(rows, f, id)
    ensures id in NewestFirst(rows, f, n)
    decreases n
  {
    if id < n - 1 {
      NewestFirstHolds(rows, f, n - 1, id);
    }
  }

  /** `NewestFirst` lists ids in strictly descending order. */
  lemma {:induction false} NewestFirstDescending(rows: map<TweetId, Tweet>, f: Filter, n: nat)
    ensures forall i, j :: 0 <= i < j < |NewestFirst(rows, f, n)| ==>
      NewestFirst(rows, f, n)[i] > NewestFirst(rows, f, n)[j]
  {
    if n > 0 {
      NewestFirstDescending(rows, f, n - 1);
      var tail := NewestFirst(rows, f, n - 1);
      var s := NewestFirst(rows, f, n);
      var head := if Selected(rows, f, n - 1) then [n - 1] else [];
      assert s == head + tail;
      forall i, j | 0 <= i < j < |s| ensures s[i] > s[j] {
        assert s[j] == tail[j - |head|];
        if i >= |head| {
          assert s[i] == tail[i - |head|];
        }
      }
    }
  }

  /** `NewestFirst` lists exactly the selected rows, each once, ids descending. */
  lemma NewestFirstContents(rows: map<TweetId, Tweet>, f: Filter, n: nat)
    ensures forall id: TweetId :: id in NewestFirst(rows, f, n) <==> id < n && Selected(rows, f, id)
    ensures forall i, j :: 0 <= i < j < |NewestFirst(rows, f, n)| ==>
      NewestFirst(rows, f, n)[i] > NewestFirst(rows, f, n)[j]
  {
    forall id: TweetId | id < n && Selected(rows, f, id) ensures id in NewestFirst(rows, f, n) {
      NewestFirstHolds(rows, f, n, id);
    }
    NewestFirstDescending(rows, f, n);
  }

  /** `OldestFirst` lists every selected row below `n`. */
  lemma {:induction false} OldestFirstHolds(rows: map<TweetId, Tweet>, f: Filter, n: nat, id: TweetId)
    requires id < n && Selected(rows, f, id)
    ensures id in OldestFirst(rows, f, n)
    decreases n
  {
    if id < n - 1 {
      OldestFirstHolds(rows, f, n - 1, id);
    }
  }

  /** `OldestFirst` lists ids in strictly ascending order. */
  lemma {:induction false} OldestFirstAscending(rows: map<TweetId, Tweet>, f: Filter, n: nat)
    ensures forall i, j :: 0 <= i < j < |OldestFirst(rows, f, n)| ==>
      OldestFirst(rows, f, n)[i] < OldestFirst(rows, f, n)[j]
  {
    if n > 0 {
      OldestFirstAscending(rows, f, n - 1);
      var init := OldestFirst(rows, f, n - 1);
      var s := OldestFirst(rows, f, n);
      var last := if Selected(rows, f, n - 1) then [n - 1] else [];
      assert s == init + last;
      forall i, j | 0 <= i < j < |s| ensures s[i] < s[j] {
        assert s[i] == init[i];
        if j < |init| {
          assert s[j] == init[j];
        }
      }
    }
  }

  /** `OldestFirst` lists exactly the selected rows, each once, ids ascending. */
  lemma OldestFirstContents(rows: map<TweetId, Tweet>, f: Filter, n: nat)
    ensures forall id: TweetId :: id in OldestFirst(rows, f, n) <==> id < n && Selected(rows, f, id)
    ensures forall i, j :: 0 <= i < j < |OldestFirst(rows, f, n)| ==>
      OldestFirst(rows, f, n)[i] < OldestFirst(rows, f, n)[j]
  {
    forall id: TweetId | id < n && Selected(rows, f, id) ensures id in OldestFirst(rows, f, n) {
      OldestFirstHolds(rows, f, n, id);
    }
    OldestFirstAscending(rows, f, n);
  }

  /** `Meta.ordering = ["-created_at"]`: the listing is newest first by `created_at`. */
  lemma NewestFirstByCreation(rows: map<TweetId, Tweet>, f: Filter, n: nat)
    requires CreationOrdered(rows)
    ensures forall i, j :: 0 <= i < j < |NewestFirst(rows, f, n)| ==>
      NewestFirst(rows, f, n)[i] in rows && NewestFirst(rows, f, n)[j] in rows &&
      rows[NewestFirst(rows, f, n)[i]].createdAt > rows[NewestFirst(rows, f, n)[j]].createdAt
  {
    NewestFirstContents(rows, f, n);
    var s := NewestFirst(rows, f, n);
    assert forall i :: 0 <= i < |s| ==> s[i] in s;
  }

  /** `order_by("created_at")`: replies are listed oldest first. */
  lemma OldestFirstByCreation(rows: map<TweetId, Tweet>, f: Filter, n: nat)
    requires CreationOrdered(rows)
    ensures forall i, j :: 0 <= i < j < |OldestFirst(rows, f, n)| ==>
      OldestFirst(rows, f, n)[i] in rows && OldestFirst(rows, f, n)[j] in rows &&
      rows[OldestFirst(rows, f, n)[i]].createdAt < rows[OldestFirst(rows, f, n)[j]].createdAt
  {
    OldestFirstContents(rows, f, n);
    var s := OldestFirst(rows, f, n);
    assert forall i :: 0 <= i < |s| ==> s[i] in s;
  }
}
