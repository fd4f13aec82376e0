# MiniTweet core in Dafny

This project models the core of MiniTweet, a small Django microblog, and proves
properties of that model. In MiniTweet, users post tweets of at most 280
characters, with an optional image of at most 5MB in one of four types. They
reply to tweets, and they edit or delete their own tweets. The model covers:

- **Forms** (`forms.dfy`): the text rule and `clean_image` of `TweetForm` and
  `ReplyForm`, and the combined validation outcome with its error lists.
- **The `Tweet` model** (`models.dfy`):
  - the record and `clean`;
  - `__str__`;
  - the two cascading foreign keys, stated as the set of rows a cascade removes;
  - the default `-created_at` ordering.
- **The tweet table** (`store.dfy`): a class holding the rows, the user ids,
  the id counter and a logical clock. It has the model-level writes: insert,
  update, cascading delete of a tweet, and cascading delete of a user. The
  cascade is computed by a fixpoint loop.
- **The URL table** (`urls.dfy`): the six `urlpatterns` in their given order,
  with `reverse` and `resolve`.
- **`FileSizeMiddleware`** (`filesize.dfy`): the pure decision to forward a
  request, to redirect it, or to answer it with a 400.
- **`DatabaseCheckMiddleware`** (`dbcheck.dfy`):
  - a class with the `_db_checked` and `_db_healthy` flags;
  - a pure step function;
  - a lemma about any run of requests.
- **The six views** (`views.dfy`): methods over the table that return a
  response and the flash messages the request recorded. This file also holds
  the loop that turns form errors into messages.

`http.dfy` holds the request, the message, the page and the response records.
`strings.dfy` holds the string operations the source relies on: Python's
`in`, ASCII `lower`, `split("/")`, and decimal rendering and parsing.
`wrappers.dfy` holds `Option` and `Result`.

Modeling choices:

- **Ids and time.** Ids come from a counter that starts at 1. Every save ticks
  a natural-number clock, which sets `created_at` and `updated_at`. The table
  invariant has three parts:
  - a reply's parent is an earlier row;
  - `created_at` grows with the id;
  - every row satisfies the field rules.

  Because of this invariant, "newest first" is a walk down the ids.
- **The request.** It carries:
  - the HTTP method;
  - the path;
  - the content type;
  - `CONTENT_LENGTH`, as an optional natural number;
  - the signed-in user, if any;
  - the posted text;
  - the posted image, as its size and the `content_type` `clean_image` reads (Django's image field overwrites the browser's value with the one Pillow detects, so this is that type).
- **Mounting.** The app is mounted at the site root, so its own paths are
  "/", "/create/" and "/{pk}/...". These never contain the word "tweets", and
  the guard answers an oversized upload to any of them with the 400.
- **The middleware's id.** It takes the pk from `path.split("/")[-2]`, and the
  model keeps that literally. On "/tweets/5/reply/" the piece taken is "reply",
  which the `<int:pk>` converter cannot reverse.

## Model

| member | source | states |
|---|---|---|
| Forms.CleanText | tweets/forms.py:8-10 | Text passes iff it is non-empty (the field is required) and at most 280 characters; passing text comes back unchanged, "" fails as required |
| Forms.CleanImage | tweets/forms.py:44-60 | No image passes as none. An image over 5,242,880 bytes fails on size, whatever its type. Otherwise a type outside the four allowed ones fails on type. An accepted image comes back unchanged |
| Forms.Validate | tweets/forms.py:5-60 | The form is valid iff 1 <= length <= 280 and the image is acceptable. Valid data is returned unchanged. There is a text error iff the length is out of range, at most one image error, none iff the image is acceptable, and an oversized image gives only the size error |
| Forms.TextBoundaries | tweets/forms.py:8-10 | "" and any 281-character text are rejected; every text of 1 to 280 characters is accepted |
| Forms.ImageBoundaries | tweets/forms.py:47-58 | Exactly 5,242,880 bytes of JPEG passes; one byte more fails with only the size error even with a bad type; a small `text/plain` file fails with the type error |
| Forms.FormsAgree | tweets/forms.py:83-99 | `ReplyForm` and `TweetForm` give the same outcome on every input; the reply text rule is the model field's `max_length=280` |
| Forms.FormImplies | tweets/forms.py:47-51 | Data a form accepts always passes the model's `clean` |
| Models.Clean | tweets/models.py:22-24 | `clean` fails iff an image is present and over 5,242,880 bytes, with the size message |
| Models.CleanBoundaries | tweets/models.py:22-24 | The content type plays no part in `clean`; no image and exactly 5,242,880 bytes pass; one byte more fails |
| Models.Str | tweets/models.py:31-32 | `str(tweet)` is the username, ": ", then the first 50 characters of the text (all of it when shorter), character by character |
| Models.CascadeSet | tweets/models.py:14-19 | The cascade removes only rows of the table, removes every root present, and removes every reply to a removed tweet |
| Models.ChildOfDoomed | tweets/models.py:17-19 | A reply to a tweet a cascade removes is removed too |
| Models.ClosedHoldsCascade | tweets/models.py:17-19 | Any set holding the roots and closed under "reply of" holds the whole cascade, so the cascade is the least such set |
| Models.SurvivorsKeepParents | tweets/models.py:17-19 | A row a cascade leaves never points at a removed parent |
| Models.TopLevelOutsideRootsSurvives | tweets/models.py:14-16 | A top-level tweet that is not a root of the cascade survives it (other users' tweets survive a user delete) |
| Models.ReplyChainCascade | tweets/models.py:17-19 | In root <- reply1 <- reply2 <- reply3, deleting reply1 removes reply1, reply2 and reply3 and leaves only root |
| Models.NewestFirst | tweets/models.py:34-35 | The descending walk lists at most `n` ids, each below `n` and each a selected row |
| Models.OldestFirst | tweets/views.py:134 | The ascending walk lists at most `n` ids, each below `n` and each a selected row |
| Models.NewestFirstContents | tweets/models.py:34-35 | The descending walk lists exactly the selected rows, each once, with ids strictly decreasing |
| Models.NewestFirstByCreation | tweets/models.py:34-35 | On a creation-ordered table the listing is strictly newest first by `created_at` |
| Models.OldestFirstContents | tweets/views.py:134 | The ascending walk lists exactly the selected rows, each once, with ids strictly increasing |
| Models.OldestFirstByCreation | tweets/views.py:134 | On a creation-ordered table the listing is strictly oldest first by `created_at` |
| Store.InsertError | tweets/models.py:26-29 | An insert is refused iff `clean` fails, the text exceeds 280, the user is unknown or the parent is missing; a `clean` failure wins over everything |
| Store.UpdateError | tweets/models.py:26-29 | An update is refused iff `clean` fails or the text exceeds 280; a `clean` failure wins |
| Store.CascadeClosure | tweets/models.py:17-19 | The fixpoint loop computes exactly the rows the cascade from the roots removes |
| Store.TweetStore.constructor | tweets/models.py:6-19 | An empty, consistent table over the given accounts, ids starting at 1 |
| Store.TweetStore.Create | tweets/models.py:26-29 | `save` on a new row calls `clean` first: on any error nothing changes; otherwise exactly one row is added under the next id, with both timestamps set to a fresh tick, and the table stays consistent |
| Store.TweetStore.Update | tweets/models.py:10-11 | Only that row's text, image and `updated_at` change; `updated_at` strictly increases, `created_at` is kept; a refused update changes nothing |
| Store.TweetStore.Delete | tweets/models.py:17-19 | The rows left are exactly the old rows minus the tweet and all its transitive replies; the table stays consistent |
| Store.TweetStore.DeleteUser | tweets/models.py:14-16 | The user goes, with the cascade from all of that user's tweets; no remaining row belongs to that user; the table stays consistent |
| Store.TweetStore.KeepValid | tweets/models.py:17-19 | Removing a cascade-closed set keeps every table invariant |
| Urls.Reverse | tweets/urls.py:6-13 | `reverse` succeeds iff a pk is given exactly for the four routes other than the list and create routes, and that pk text is all digits; a reversed path starts with "/" |
| Urls.RouteTable | tweets/urls.py:6-13 | `reverse` gives "/", "/create/", "/{pk}/", "/{pk}/update/", "/{pk}/delete/" and "/{pk}/reply/" for the rendered pk |
| Urls.PkRouteTexts | tweets/urls.py:8-11 | For any digit string in the pk's place, the four pk routes reverse to "/{s}/", "/{s}/update/", "/{s}/delete/" and "/{s}/reply/" |
| Urls.KeywordRoutes | tweets/urls.py:6-13 | Across all six names: `reverse` without a pk succeeds exactly for the list and create routes; those two refuse any pk; the other four accept a pk text iff it is all digits |
| Urls.PkText | tweets/urls.py:8 | The rendered pk is what `<int:pk>` accepts, parses back to the same integer, and is none of the table's words |
| Urls.FirstMatchAt | tweets/urls.py:6-13 | `resolve` answers with the first pattern, in table order, that matches |
| Urls.ResolveReverse | tweets/urls.py:6-13 | For every route and pk, `resolve(reverse(name, pk))` gives back the same name and the same integer pk |
| Urls.CreateIsNotDetail | tweets/urls.py:7-8 | "/create/" resolves to the create view, not to a detail with pk "create" |
| Urls.Resolve | tweets/urls.py:4 | Every resolved route is in the "tweets" namespace |
| Strings.ContainsIffOccurs | tweets/middleware.py:24 | Python's `sub in s` holds exactly when `sub` occurs at some position of `s` |
| Strings.Lower | tweets/views.py:64 | `lower()` keeps the length and lowers each ASCII letter in place |
| Strings.Split | tweets/middleware.py:43 | `split` always yields at least one piece |
| Strings.SplitPiecesLackSep | tweets/middleware.py:43 | No piece of a split holds the separator |
| Strings.JoinSplit | tweets/middleware.py:43 | Joining the pieces with the separator gives back the original string |
| Strings.SplitAfterPiece | tweets/middleware.py:43 | Splitting on "/" yields the text before the first "/" and then the split of the rest |
| FileSizeGuard.DeclaredTooLarge | tweets/middleware.py:21-28 | Tripping the test needs a `CONTENT_LENGTH` above 5,242,880; for the content type "multipart/form-data" it trips exactly then; a content type without "multipart/form-data" never trips it |
| FileSizeGuard.PkSegment | tweets/middleware.py:43 | `path.split("/")[-2]` exists for every path and contains no "/" |
| FileSizeGuard.RejectResponse | tweets/middleware.py:40-56 | "tweets" with "reply" or "update" in the path redirects to the detail with the split piece; "tweets" alone redirects to the list; otherwise a 400 with the size text |
| FileSizeGuard.Guard | tweets/middleware.py:19-59 | The request reaches `get_response` iff it is not a POST with a declared multipart body over 5,242,880 bytes; a rejected one gets exactly one error message and the path-based response |
| FileSizeGuard.GuardBoundaries | tweets/middleware.py:26-28 | A missing length, a zero length, exactly 5,242,880 and any non-POST pass; one byte more on a multipart POST is rejected |
| FileSizeGuard.TrailingSlashSegment | tweets/middleware.py:43 | On "/tweets/{pk}/reply/" and "/tweets/{pk}/update/" the split piece is "reply" or "update", and reversing the detail route with it fails |
| FileSizeGuard.AppPathsGetBadRequest | tweets/middleware.py:40-56 | An oversized multipart POST to any of the app's own paths gets the 400 answer, never a redirect |
| DatabaseCheck.StepsRun | tweets/middleware/database_check.py:47-70 | One to three steps run in order: `SELECT 1`, the table count, then `migrate`; every step before the last completed; fewer than three steps means a step raised or the table exists |
| DatabaseCheck.ProbeHealthy | tweets/middleware/database_check.py:47-90 | The check ends healthy iff the last step it ran completed |
| DatabaseCheck.HealthyIffNoStepRaised | tweets/middleware/database_check.py:47-90 | The check is healthy iff no step that ran raised; migrate runs iff both queries succeed and find no migrations table |
| DatabaseCheck.Step | tweets/middleware/database_check.py:27-42 | After a request the flags say checked; the probe runs iff the middleware was unchecked; a request is forwarded iff the stored flag says healthy |
| DatabaseCheck.Serve | tweets/middleware/database_check.py:27-42 | A run of requests gets one answer each; no requests change nothing; after any request the middleware is checked; at most one probe is made, and one is made iff the middleware started unchecked |
| DatabaseCheck.ServeChecked | tweets/middleware/database_check.py:29-32 | Once checked, the flags never change, the probe never runs, and every request gets the same answer |
| DatabaseCheck.ServeFromStart | tweets/middleware/database_check.py:27-42 | From startup, any non-empty run of requests probes exactly once, and every answer is forwarded iff the first probe was healthy |
| DatabaseCheck.ProcessException | tweets/middleware/database_check.py:92-100 | Database errors become a 500 with the database text; any other exception gives none |
| DatabaseCheck.DatabaseCheckMiddleware.constructor | tweets/middleware/database_check.py:22-25 | Both flags start false |
| DatabaseCheck.DatabaseCheckMiddleware.CheckDatabase | tweets/middleware/database_check.py:44-90 | `_db_healthy` is set to the probe's health; migrate runs iff the table is absent; `_db_checked` is untouched |
| DatabaseCheck.DatabaseCheckMiddleware.Call | tweets/middleware/database_check.py:27-42 | The new flags, the answer and whether the probe ran equal the pure step |
| Views.ImageErrorText | tweets/views.py:64-70 | The message starts "Image error: " followed by the error text; ". " and the suffix follow iff the lowered error mentions "file size", otherwise nothing follows |
| Views.ReportFormErrors | tweets/views.py:62-72 | The loop records one message per image error in order, with the suffix iff the lowered text mentions "file size"; with no image errors it records only "Please correct the errors below." |
| Views.SizeErrorText | tweets/views.py:64-68 | The size error's message is "Image error: Image file size must be under 5MB. " followed by the suffix |
| Views.TypeErrorText | tweets/views.py:69-70 | The type error's message is "Image error: " followed by the type text, with no suffix |
| Views.ErrorMessagesFor | tweets/views.py:62-72 | An invalid form yields exactly one error message: the generic hint when the image is fine, the size message (with suffix) for an oversized image, the type message otherwise |
| Views.Author | tweets/views.py:46-52 | A signed-in user is the author; otherwise the author is the account with id 1, and there is none when that account does not exist |
| Views.Submit | tweets/views.py:15-58 | A submission is caught by the length pre-check iff the declared multipart length exceeds 5MB; past the pre-check it is rejected with the form's own errors iff the form is invalid, it lacks an author iff the form is valid, nobody is signed in and account 1 does not exist, and it is accepted otherwise; the author is the signed-in user, otherwise user 1 |
| Views.SubmitNew | tweets/views.py:41-58 | An accepted form adds exactly one row with the submission's author and parent; anything else leaves the table unchanged |
| Views.KeptImage | tweets/views.py:218-220 | A save with no new upload keeps the stored image; a new upload replaces it |
| Views.TopLevelListing | tweets/views.py:76 | On a consistent table the list shows exactly the tweets with no parent, newest first |
| Views.ReplyListing | tweets/views.py:134 | On a consistent table the detail shows exactly the direct replies, oldest first |
| Views.TweetList | tweets/views.py:11-81 | A GET changes nothing and lists the top-level tweets newest first with a blank form. A POST applies exactly its submission's change. On acceptance it redirects to the list with a success message. An oversized upload re-renders with a blank form and one error. An invalid form re-renders bound, with its error messages |
| Views.TweetCreate | tweets/views.py:84-128 | As the list view, on the create page |
| Views.TweetDetail | tweets/views.py:131-141 | A missing pk gives 404 and only a missing pk does; otherwise the page shows that tweet, exactly its direct replies oldest first, and a blank reply form |
| Views.TweetReply | tweets/views.py:144-196 | A missing parent gives 404 and changes nothing; a created reply has the target as parent; every other outcome but a missing author redirects to the same pk's detail |
| Views.TweetUpdate | tweets/views.py:199-239 | Anonymous users get the login redirect; a missing id and another user's tweet both give the same 404 with nothing changed; a valid edit changes only that row's text, image and `updated_at` and redirects to "tweet_detail" |
| Views.TweetDelete | tweets/views.py:242-252 | Owner lookup as for update; a POST removes the tweet with its whole cascade and redirects to "tweet_list"; a GET changes nothing and shows the confirmation page |
| Views.ReplyRedirectResolves | tweets/views.py:181 | The reply view's redirect reverses to "/{pk}/", which resolves back to the detail of the same pk |

## Left out

- Database and ORM I/O. SQL, transactions, rollback and the database's own concurrency are left out. The table is an in-memory map, and only the cascade semantics are kept.
- The management commands `check_database` and `setup_database`. They do PostgreSQL probing, retry loops with sleeps, database creation and superuser creation, which is all external I/O.
- The database probe itself. `DatabaseCheck.Probe` states how each step would end; the log lines that `_check_database` writes, such as the database host and port on failure, are left out.
- Template rendering: a page records only the ids and the form state it shows.
- Logging, CSRF, `CharField` whitespace stripping and Pillow decoding inside `ImageField`.
- The messages framework: each view and guard returns the messages it records, as a list.
- `login_required`: an anonymous user gets a `LoginRedirect` outcome; the login URL is not modelled.
- Django's URL converter regex beyond "pk is a natural number written in decimal digits".
- A non-numeric `CONTENT_LENGTH`: `int()` would raise on it. The header is an optional natural number, where a missing or empty header is `None`.
- Unicode case mapping: `Strings.Lower` lowers ASCII letters only.
- Wall-clock timestamps: `created_at` and `updated_at` are ticks of a logical clock.
- The root URLconf `minitweet/urls.py` is not part of this model. So whether the un-namespaced names "tweet_detail" and "tweet_list" used by the update and delete views resolve is not decided: the redirect records `namespaced: false`.
- Views.TweetUpdate: when no new file is uploaded, Django hands `clean_image` the stored file, which has no `content_type`. The model does not follow that path. It validates only an upload, and otherwise keeps the stored image, which the table invariant already bounds to 5MB.
- Views.TweetList: when no user is signed in and user 1 does not exist, `User.objects.get(id=1)` raises. The model answers with a `ServerError` whose body is not modelled.
- Views.TweetCreate: the same missing-default-user 500, with its body not modelled.
- Views.TweetReply: the same missing-default-user 500, with its body not modelled.
- FileSizeGuard.RejectResponse: the detail redirect carries the split piece as text. The model does not turn the `NoReverseMatch` that a non-numeric piece causes into a response; `FileSizeGuard.TrailingSlashSegment` shows that the reverse fails.
- Model validation run inside `ModelForm.is_valid`, that is `max_length` and `clean`. It only restates checks the form already makes, as `Forms.FormImplies` shows, so it is not modelled twice.
- `User` records: users are a set of ids, and `Models.Str` takes the username as a parameter.
- `DatabaseCheck.ErrorKind`: exception classes are reduced to `OperationalError`, the other `DatabaseError`s, and everything else.
- `tweets/admin.py`: it is admin wiring only.
- `tweets/tests.py`: it expects a `__str__` text that `tweets/models.py:31-32` does not produce, so it is stale and the model follows the model code.
