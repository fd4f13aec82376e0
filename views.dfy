/**
 * The six views. Each takes the tweet table and the request, may write to
 * the table, and returns the response together with the flash messages it
 * recorded. Listing and detail pages carry the ids they display.
 */
module Views {
  import opened Wrappers
  import opened Strings
  import opened Models
  import opened Forms
  import opened Http
  import opened Store
  import Urls
  import FileSizeGuard

  const PublishSuffix: string := "Tweet cannot be published."
  const ReplySuffix: string := "Reply cannot be published."
  const UpdateSuffix: string := "Tweet cannot be updated."
  const CorrectErrorsMessage: string := "Please correct the errors below."
  const TweetPostedMessage: string := "Tweet posted successfully!"
  const ReplyPostedMessage: string := "Reply posted successfully!"
  const TweetUpdatedMessage: string := "Tweet updated successfully!"
  const TweetDeletedMessage: string := "Tweet deleted successfully!"

  /** The view-level pre-check's message, naming what could not be done. */
  function TooLargeMessage(suffix: string): string {
    "File too large! Maximum file size is 5MB. " + suffix
  }

  // ---------------------------------------------------------------------
  // Error messages for an invalid form
  // ---------------------------------------------------------------------

  /** One image error as a message: errors about the file size also say what failed. */
  function ImageErrorText(error: string, suffix: string): (r: string)
    ensures |r| >= 13 + |error| && r[..13 + |error|] == "Image error: " + error
    ensures Contains(Lower(error), "file size") ==> r[13 + |error|..] == ". " + suffix
    ensures r == "Image error: " + error <==> !Contains(Lower(error), "file size")
  {
    if Contains(Lower(error), "file size") then "Image error: " + error + ". " + suffix
    else "Image error: " + error
  }

  /** `form.errors["image"]`: the text of each image error, in order. */
  function ErrorStrings(errors: seq<ImageError>): (r: seq<string>)
    ensures |r| == |errors|
    ensures forall i :: 0 <= i < |errors| ==> r[i] == ImageErrorMessage(errors[i])
  {
    seq(|errors|, i requires 0 <= i < |errors| => ImageErrorMessage(errors[i]))
  }

  /** One message per image error text, in order. */
  function ImageMessages(texts: seq<string>, suffix: string): (r: seq<Message>)
    ensures |r| == |texts|
  {
    if texts == [] then []
    else
      ImageMessages(texts[..|texts| - 1], suffix) +
      [Message(Error, ImageErrorText(texts[|texts| - 1], suffix))]
  }

  /** The messages for an invalid form: its image errors, or a generic hint when there are none. */
  function FormErrorMessages(imageErrors: seq<string>, suffix: string): seq<Message> {
    if imageErrors != [] then ImageMessages(imageErrors, suffix)
    else [Message(Error, CorrectErrorsMessage)]
  }

  function ErrorMessages(errors: FormErrors, suffix: string): seq<Message> {
    FormErrorMessages(ErrorStrings(errors.image), suffix)
  }

  /** The loop over `form.errors["image"]` shared by the four form-handling views. */
  method ReportFormErrors(imageErrors: seq<string>, suffix: string) returns (msgs: seq<Message>)
    ensures msgs == FormErrorMessages(imageErrors, suffix)
  {
    if imageErrors == [] {
      return [Message(Error, CorrectErrorsMessage)];
    }
    msgs := [];
    var i := 0;
    while i < |imageErrors|
      invariant 0 <= i <= |imageErrors|
      invariant msgs == ImageMessages(imageErrors[..i], suffix)
    {
      assert imageErrors[..i + 1][..i] == imageErrors[..i];
      msgs := msgs + [Message(Error, ImageErrorText(imageErrors[i], suffix))];
      i := i + 1;
    }
    assert imageErrors[..i] == imageErrors;
  }

  /** The size text in pieces short enough to reason about; used to show it contains "file size". */
  lemma SizeMessageHalves()
    ensures ImageTooLargeMessage == "Image file size " + "must be under 5MB"
  {
  }

  /** The size text with "file size" cut out as its own piece, so the suffix rule fires. */
  lemma SizeMessagePhrase()
    ensures ImageTooLargeMessage == "Image " + "file size" + " must be under 5MB"
  {
    SizeMessageHalves();
    assert "Image file size " == "Image " + "file size" + " ";
    assert " must be under 5MB" == " " + "must be under 5MB";
  }

  /** The size error mentions "file size", so its message is followed by the suffix. */
  lemma SizeErrorText(suffix: string)
    ensures ImageErrorText(ImageErrorMessage(ImageTooBig), suffix) ==
      "Image error: " + ImageTooLargeMessage + ". " + suffix
  {
    SizeMessagePhrase();
    LowerConcat("Image " + "file size", " must be under 5MB");
    LowerConcat("Image ", "file size");
    assert Lower("file size") == "file size";
    ContainsMiddle(Lower("Image "), "file size", Lower(" must be under 5MB"));
  }

  /** The type text in two pieces; groundwork for showing it does not contain "file size". */
  lemma TypeMessageHalves()
    ensures BadImageTypeMessage == "Only JPEG, PNG, GIF and " + "WebP images are allowed"
  {
  }

  /** The type text in pieces of at most eight characters, each small enough to scan. */
  lemma TypeMessagePieces()
    ensures BadImageTypeMessage ==
      "Only JPE" + "G, PNG, " + "GIF and " + "WebP ima" + "ges are " + "allowed"
  {
    TypeMessageHalves();
    assert "Only JPEG, PNG, GIF and " == "Only JPE" + "G, PNG, " + "GIF and ";
    assert "WebP images are allowed" == "WebP ima" + "ges are " + "allowed";
  }

  /** The type text has no 'z' in either case, so its lowered form lacks the 'z' of "file size" and gets no suffix. */
  lemma TypeMessageLacksZ()
    ensures 'z' !in BadImageTypeMessage && 'Z' !in BadImageTypeMessage
  {
    TypeMessagePieces();
    assert 'z' !in "Only JPE" && 'Z' !in "Only JPE";
    assert 'z' !in "G, PNG, " && 'Z' !in "G, PNG, ";
    assert 'z' !in "GIF and " && 'Z' !in "GIF and ";
    assert 'z' !in "WebP ima" && 'Z' !in "WebP ima";
    assert 'z' !in "ges are " && 'Z' !in "ges are ";
    assert 'z' !in "allowed" && 'Z' !in "allowed";
  }

  /** The type error has no 'z' in it, so its message carries no suffix. */
  lemma TypeErrorText(suffix: string)
    ensures ImageErrorText(ImageErrorMessage(ImageTypeNotAllowed), suffix) ==
      "Image error: " + BadImageTypeMessage
  {
    TypeMessageLacksZ();
    LowerLacks(BadImageTypeMessage, 'z');
    assert "file size"[7] == 'z';
    MissingCharNotContained(Lower(BadImageTypeMessage), "file size", 7);
  }

  /**
   * An invalid form yields exactly one error-level message per image error, or
   * the single generic hint when only the text is wrong; a form whose image is
   * over the limit yields the size message with its suffix.
   */
  lemma ErrorMessagesFor(kind: FormKind, text: string, image: Option<Image>, suffix: string)
    requires Validate(kind, text, image).Invalid?
    ensures var msgs := ErrorMessages(Validate(kind, text, image).errors, suffix);
      && |msgs| == 1
      && msgs[0].level == Error
      && (ImageAcceptable(image) ==> msgs == [Message(Error, CorrectErrorsMessage)])
      && (image.Some? && image.value.size > MaxImageBytes ==>
            msgs == [Message(Error, "Image error: " + ImageTooLargeMessage + ". " + suffix)])
      && (image.Some? && image.value.size <= MaxImageBytes && !ImageAcceptable(image) ==>
            msgs == [Message(Error, "Image error: " + BadImageTypeMessage)])
  {
    SizeErrorText(suffix);
    TypeErrorText(suffix);
    var errs := Validate(kind, text, image).errors.image;
    if errs != [] {
      assert errs[..0] == [];
      var e := errs[0];
      var texts := ErrorStrings(errs);
      assert texts[..0] == [];
      assert ImageMessages(texts, suffix) == [Message(Error, ImageErrorText(ImageErrorMessage(e), suffix))];
      if image.Some? && image.value.size <= MaxImageBytes {
        assert CleanImage(image) == Err(ImageTypeNotAllowed);
        assert e == ImageTypeNotAllowed;
      }
    }
  }

  // ---------------------------------------------------------------------
  // Submitting a new tweet or reply
  // ---------------------------------------------------------------------

  /** `request.user` when signed in, else the account with id 1 if it exists (`User.objects.get(id=1)`). */
  function Author(user: Option<UserId>, users: set<UserId>): (r: Option<UserId>)
    ensures user.Some? ==> r == user
    ensures user.None? ==> (r.Some? <==> DefaultUserId in users)
    ensures user.None? && r.Some? ==> r.value == DefaultUserId && r.value in users
  {
    if user.Some? then user
    else if DefaultUserId in users then Some(DefaultUserId)
    else None
  }

  /** How a submitted form fares: caught by the length pre-check, invalid, lacking an author, or accepted. */
  datatype Submission = TooLarge | Rejected(errors: FormErrors) | NoAuthor | Accepted(author: UserId)

  function Submit(req: Request, kind: FormKind, users: set<UserId>): (s: Submission)
    ensures s.TooLarge? <==> FileSizeGuard.DeclaredTooLarge(req.contentType, req.contentLength)
    ensures s.Rejected? ==> Validate(kind, req.text, req.image) == Invalid(s.errors)
    ensures s.Rejected? <==>
      !FileSizeGuard.DeclaredTooLarge(req.contentType, req.contentLength) &&
      Validate(kind, req.text, req.image).Invalid?
    ensures s.NoAuthor? <==>
      !FileSizeGuard.DeclaredTooLarge(req.contentType, req.contentLength) &&
      Validate(kind, req.text, req.image).Valid? && req.user.None? && DefaultUserId !in users
    ensures s.Accepted? <==>
      !FileSizeGuard.DeclaredTooLarge(req.contentType, req.contentLength) &&
      1 <= |req.text| <= TextMaxLength && ImageAcceptable(req.image) &&
      (req.user.Some? || DefaultUserId in users)
    ensures s.Accepted? ==> s.author == (if req.user.Some? then req.user.value else DefaultUserId)
  {
    if FileSizeGuard.DeclaredTooLarge(req.contentType, req.contentLength) then TooLarge
    else
      match Validate(kind, req.text, req.image)
      case Invalid(errors) => Rejected(errors)
      case Valid(_, _) =>
        if Author(req.user, users).Some? then Accepted(Author(req.user, users).value) else NoAuthor
  }

  /** The messages a submission records. */
  function SubmissionMessages(s: Submission, suffix: string, posted: string): seq<Message> {
    match s
    case TooLarge => [Message(Error, TooLargeMessage(suffix))]
    case Rejected(errors) => ErrorMessages(errors, suffix)
    case NoAuthor => []
    case Accepted(_) => [Message(Success, posted)]
  }

  /** The part of the table a view can change, as a value. */
  datatype Table = Table(rows: map<TweetId, Tweet>, nextId: TweetId, clock: nat)

  function TableOf(store: TweetStore): Table
    reads store
  {
    Table(store.rows, store.nextId, store.clock)
  }

  /** The table after a submission: one new row under the next id when accepted, otherwise unchanged. */
  function AfterSubmit(t: Table, s: Submission, req: Request, parent: Option<TweetId>): Table {
    if s.Accepted? then
      Table(t.rows[t.nextId := Tweet(req.text, req.image, t.clock + 1, t.clock + 1, s.author, parent)],
            t.nextId + 1, t.clock + 1)
    else t
  }

  /** Validate, pick the author, and save; an accepted form always saves. */
  method SubmitNew(store: TweetStore, req: Request, kind: FormKind, parent: Option<TweetId>)
    returns (s: Submission)
    requires store.Valid()
    requires req.user.Some? ==> req.user.value in store.users
    requires parent.Some? ==> parent.value in store.rows
    modifies store
    ensures store.Valid() && store.users == old(store.users)
    ensures s == Submit(req, kind, old(store.users))
    ensures TableOf(store) == AfterSubmit(old(TableOf(store)), s, req, parent)
  {
    s := Submit(req, kind, store.users);
    if s.Accepted? {
      assert !ImageTooLarge(req.image) && |req.text| <= TextMaxLength;
      assert s.author in store.users;
      var r := store.Create(req.text, req.image, s.author, parent);
      assert r.Ok?;
    }
  }

  // ---------------------------------------------------------------------
  // Listing
  // ---------------------------------------------------------------------

  /** The ids are exactly the top-level tweets, newest first. */
  ghost predicate NewestTopLevel(rows: map<TweetId, Tweet>, ids: seq<TweetId>) {
    && (forall id :: id in ids <==> id in rows && rows[id].parent.None?)
    && (forall i, j :: 0 <= i < j < |ids| ==>
          ids[i] in rows && ids[j] in rows && rows[ids[i]].createdAt > rows[ids[j]].createdAt)
  }

  /** The ids are exactly the direct replies to `pk`, oldest first. */
  ghost predicate RepliesOldestFirst(rows: map<TweetId, Tweet>, pk: TweetId, ids: seq<TweetId>) {
    && (forall id :: id in ids <==> id in rows && rows[id].parent == Some(pk))
    && (forall i, j :: 0 <= i < j < |ids| ==>
          ids[i] in rows && ids[j] in rows && rows[ids[i]].createdAt < rows[ids[j]].createdAt)
  }

  /** `Tweet.objects.filter(parent_tweet__isnull=True).order_by("-created_at")` on a consistent table. */
  lemma TopLevelListing(store: TweetStore)
    requires store.Valid()
    ensures NewestTopLevel(store.rows, NewestFirst(store.rows, TopLevel, store.nextId))
  {
    NewestFirstContents(store.rows, TopLevel, store.nextId);
    NewestFirstByCreation(store.rows, TopLevel, store.nextId);
  }

  /** `tweet.replies.all().order_by("created_at")` on a consistent table. */
  lemma ReplyListing(store: TweetStore, pk: TweetId)
    requires store.Valid()
    ensures RepliesOldestFirst(store.rows, pk, OldestFirst(store.rows, RepliesTo(pk), store.nextId))
  {
    OldestFirstContents(store.rows, RepliesTo(pk), store.nextId);
    OldestFirstByCreation(store.rows, RepliesTo(pk), store.nextId);
  }

  // ---------------------------------------------------------------------
  // The views
  // ---------------------------------------------------------------------

  /** `tweet_list`: the top-level timeline with a form that posts a new tweet. */
  method TweetList(store: TweetStore, req: Request) returns (resp: Response, msgs: seq<Message>)
    requires store.Valid()
    requires req.user.Some? ==> req.user.value in store.users
    modifies store
    ensures store.Valid() && store.users == old(store.users)
    ensures req.verb != "POST" ==>
      && TableOf(store) == old(TableOf(store)) && msgs == []
      && resp == Render(ListPage(NewestFirst(store.rows, TopLevel, store.nextId), Unbound))
    ensures req.verb == "POST" ==>
      var s := Submit(req, TweetForm, old(store.users));
      && TableOf(store) == AfterSubmit(old(TableOf(store)), s, req, None)
      && msgs == SubmissionMessages(s, PublishSuffix, TweetPostedMessage)
      && (s.Accepted? ==> resp == Redirect(Urls.TweetList, None, true))
      && (s.NoAuthor? ==> resp.ServerError?)
      && (s.TooLarge? ==> resp == Render(ListPage(NewestFirst(store.rows, TopLevel, store.nextId), Unbound)))
      && (s.Rejected? ==> resp == Render(ListPage(NewestFirst(store.rows, TopLevel, store.nextId),
                                                  Bound(req.text, req.image, s.errors))))
    ensures resp.Render? ==> NewestTopLevel(store.rows, resp.page.tweets)
  {
    var form := Unbound;
    msgs := [];
    if req.verb == "POST" {
      var s := SubmitNew(store, req, TweetForm, None);
      match s
      case TooLarge =>
        msgs := [Message(Error, TooLargeMessage(PublishSuffix))];
      case Rejected(errors) =>
        msgs := ReportFormErrors(ErrorStrings(errors.image), PublishSuffix);
        form := Bound(req.text, req.image, errors);
      case NoAuthor =>
        return ServerError(""), [];
      case Accepted(_) =>
        return Redirect(Urls.TweetList, None, true), [Message(Success, TweetPostedMessage)];
    }
    TopLevelListing(store);
    resp := Render(ListPage(NewestFirst(store.rows, TopLevel, store.nextId), form));
  }

  /** `tweet_create`: the same submission on a page of its own. */
  method TweetCreate(store: TweetStore, req: Request) returns (resp: Response, msgs: seq<Message>)
    requires store.Valid()
    requires req.user.Some? ==> req.user.value in store.users
    modifies store
    ensures store.Valid() && store.users == old(store.users)
    ensures req.verb != "POST" ==>
      TableOf(store) == old(TableOf(store)) && msgs == [] && resp == Render(CreatePage(Unbound))
    ensures req.verb == "POST" ==>
      var s := Submit(req, TweetForm, old(store.users));
      && TableOf(store) == AfterSubmit(old(TableOf(store)), s, req, None)
      && msgs == SubmissionMessages(s, PublishSuffix, TweetPostedMessage)
      && (s.Accepted? ==> resp == Redirect(Urls.TweetList, None, true))
      && (s.NoAuthor? ==> resp.ServerError?)
      && (s.TooLarge? ==> resp == Render(CreatePage(Unbound)))
      && (s.Rejected? ==> resp == Render(CreatePage(Bound(req.text, req.image, s.errors))))
  {
    var form := Unbound;
    msgs := [];
    if req.verb == "POST" {
      var s := SubmitNew(store, req, TweetForm, None);
      match s
      case TooLarge =>
        msgs := [Message(Error, TooLargeMessage(PublishSuffix))];
      case Rejected(errors) =>
        msgs := ReportFormErrors(ErrorStrings(errors.image), PublishSuffix);
        form := Bound(req.text, req.image, errors);
      case NoAuthor =>
        return ServerError(""), [];
      case Accepted(_) =>
        return Redirect(Urls.TweetList, None, true), [Message(Success, TweetPostedMessage)];
    }
    resp := Render(CreatePage(form));
  }

  /** `tweet_detail`: a tweet with its direct replies, oldest first, and an empty reply form. */
  method TweetDetail(store: TweetStore, pk: TweetId) returns (resp: Response)
    requires store.Valid()
    ensures pk !in store.rows <==> resp == NotFound
    ensures pk in store.rows ==>
      && resp.Render? && resp.page.DetailPage?
      && resp.page.tweet == pk && resp.page.replyForm == Unbound
      && RepliesOldestFirst(store.rows, pk, resp.page.replies)
  {
    if pk !in store.rows {
      return NotFound;
    }
    ReplyListing(store, pk);
    resp := Render(DetailPage(pk, OldestFirst(store.rows, RepliesTo(pk), store.nextId), Unbound));
  }

  /** `tweet_reply`: every outcome but a missing parent or author goes back to the parent's page. */
  method TweetReply(store: TweetStore, pk: TweetId, req: Request) returns (resp: Response, msgs: seq<Message>)
    requires store.Valid()
    requires req.user.Some? ==> req.user.value in store.users
    modifies store
    ensures store.Valid() && store.users == old(store.users)
    ensures pk !in old(store.rows) ==> resp == NotFound && msgs == [] && TableOf(store) == old(TableOf(store))
    ensures pk in old(store.rows) && req.verb != "POST" ==>
      resp == Redirect(Urls.TweetDetail, Some(NatToString(pk)), true) && msgs == [] &&
      TableOf(store) == old(TableOf(store))
    ensures pk in old(store.rows) && req.verb == "POST" ==>
      var s := Submit(req, ReplyForm, old(store.users));
      && TableOf(store) == AfterSubmit(old(TableOf(store)), s, req, Some(pk))
      && msgs == SubmissionMessages(s, ReplySuffix, ReplyPostedMessage)
      && (s.NoAuthor? ==> resp.ServerError?)
      && (!s.NoAuthor? ==> resp == Redirect(Urls.TweetDetail, Some(NatToString(pk)), true))
  {
    if pk !in store.rows {
      return NotFound, [];
    }
    msgs := [];
    if req.verb == "POST" {
      var s := SubmitNew(store, req, ReplyForm, Some(pk));
      match s
      case TooLarge =>
        msgs := [Message(Error, TooLargeMessage(ReplySuffix))];
      case Rejected(errors) =>
        msgs := ReportFormErrors(ErrorStrings(errors.image), ReplySuffix);
      case NoAuthor =>
        return ServerError(""), [];
      case Accepted(_) =>
        msgs := [Message(Success, ReplyPostedMessage)];
    }
    resp := Redirect(Urls.TweetDetail, Some(NatToString(pk)), true);
  }

  /** `get_object_or_404(Tweet, pk=pk, user=request.user)` finds a row. */
  predicate Owns(rows: map<TweetId, Tweet>, pk: TweetId, user: UserId) {
    pk in rows && rows[pk].user == user
  }

  /** A form saved without a new upload keeps the image already stored. */
  function KeptImage(upload: Option<Image>, stored: Option<Image>): (r: Option<Image>)
    ensures upload.Some? ==> r == upload
    ensures upload.None? ==> r == stored
  {
    if upload.Some? then upload else stored
  }

  /** `tweet_update`: only the author may edit; a valid edit changes text, image and `updated_at`. */
  method TweetUpdate(store: TweetStore, pk: TweetId, req: Request) returns (resp: Response, msgs: seq<Message>)
    requires store.Valid()
    requires req.user.Some? ==> req.user.value in store.users
    modifies store
    ensures store.Valid() && store.users == old(store.users) && store.nextId == old(store.nextId)
    ensures req.user.None? ==> resp == LoginRedirect && msgs == [] && TableOf(store) == old(TableOf(store))
    ensures req.user.Some? && !Owns(old(store.rows), pk, req.user.value) ==>
      resp == NotFound && msgs == [] && TableOf(store) == old(TableOf(store))
    ensures req.user.Some? && Owns(old(store.rows), pk, req.user.value) ==>
      var oversized := FileSizeGuard.DeclaredTooLarge(req.contentType, req.contentLength);
      var form := Validate(TweetForm, req.text, req.image);
      && (req.verb != "POST" ==>
            resp == Render(UpdatePage(Editing(pk), pk)) && msgs == [] && TableOf(store) == old(TableOf(store)))
      && (req.verb == "POST" && oversized ==>
            resp == Render(UpdatePage(Editing(pk), pk)) &&
            msgs == [Message(Error, TooLargeMessage(UpdateSuffix))] && TableOf(store) == old(TableOf(store)))
      && (req.verb == "POST" && !oversized && form.Invalid? ==>
            resp == Render(UpdatePage(Bound(req.text, req.image, form.errors), pk)) &&
            msgs == ErrorMessages(form.errors, UpdateSuffix) && TableOf(store) == old(TableOf(store)))
      && (req.verb == "POST" && !oversized && form.Valid? ==>
            resp == Redirect(Urls.TweetDetail, Some(NatToString(pk)), false) &&
            msgs == [Message(Success, TweetUpdatedMessage)] &&
            store.clock == old(store.clock) + 1 &&
            store.rows == old(store.rows)[pk := old(store.rows)[pk].(
              text := req.text,
              image := KeptImage(req.image, old(store.rows)[pk].image),
              updatedAt := store.clock)])
  {
    if req.user.None? {
      return LoginRedirect, [];
    }
    if !Owns(store.rows, pk, req.user.value) {
      return NotFound, [];
    }
    msgs := [];
    if req.verb == "POST" {
      if FileSizeGuard.DeclaredTooLarge(req.contentType, req.contentLength) {
        return Render(UpdatePage(Editing(pk), pk)), [Message(Error, TooLargeMessage(UpdateSuffix))];
      }
      var form := Validate(TweetForm, req.text, req.image);
      if form.Valid? {
        var err := store.Update(pk, req.text, KeptImage(req.image, store.rows[pk].image));
        assert err.None?;
        return Redirect(Urls.TweetDetail, Some(NatToString(pk)), false), [Message(Success, TweetUpdatedMessage)];
      }
      msgs := ReportFormErrors(ErrorStrings(form.errors.image), UpdateSuffix);
      return Render(UpdatePage(Bound(req.text, req.image, form.errors), pk)), msgs;
    }
    resp := Render(UpdatePage(Editing(pk), pk));
  }

  /** `tweet_delete`: only the author may delete; a POST removes the tweet and all its replies. */
  method TweetDelete(store: TweetStore, pk: TweetId, req: Request) returns (resp: Response, msgs: seq<Message>)
    requires store.Valid()
    modifies store
    ensures store.Valid() && store.users == old(store.users)
    ensures store.nextId == old(store.nextId) && store.clock == old(store.clock)
    ensures req.user.None? ==> resp == LoginRedirect && msgs == [] && store.rows == old(store.rows)
    ensures req.user.Some? && !Owns(old(store.rows), pk, req.user.value) ==>
      resp == NotFound && msgs == [] && store.rows == old(store.rows)
    ensures req.user.Some? && Owns(old(store.rows), pk, req.user.value) && req.verb != "POST" ==>
      resp == Render(DeletePage(pk)) && msgs == [] && store.rows == old(store.rows)
    ensures req.user.Some? && Owns(old(store.rows), pk, req.user.value) && req.verb == "POST" ==>
      resp == Redirect(Urls.TweetList, None, false) &&
      msgs == [Message(Success, TweetDeletedMessage)] &&
      store.rows == old(store.rows) - CascadeSet(old(store.rows), {pk})
  {
    if req.user.None? {
      return LoginRedirect, [];
    }
    if !Owns(store.rows, pk, req.user.value) {
      return NotFound, [];
    }
    if req.verb == "POST" {
      store.Delete(pk);
      return Redirect(Urls.TweetList, None, false), [Message(Success, TweetDeletedMessage)];
    }
    resp := Render(DeletePage(pk));
    msgs := [];
  }

  /** The reply view's redirect target reverses to the parent's own page, which resolves back to it. */
  lemma ReplyRedirectResolves(pk: TweetId)
    ensures Urls.Reverse(Urls.TweetDetail, Some(NatToString(pk))) == Some("/" + NatToString(pk) + "/")
    ensures Urls.Resolve("/" + NatToString(pk) + "/") ==
      Some(Urls.ResolverMatch(Urls.AppName, Urls.TweetDetail, Some(pk)))
  {
    Urls.RouteTable(pk);
    Urls.ResolveReverse(Urls.TweetDetail, pk);
  }
}
