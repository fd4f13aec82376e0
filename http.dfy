/**
 * What a request carries into the application and what comes back out,
 * reduced to the parts the guards and views read or produce. Messages are
 * the `django.contrib.messages` entries a request records.
 */
module Http {
  import opened Wrappers
  import opened Models
  import Forms
  import Urls

  /**
   * `request.method` (as `verb`), `request.path`, `request.content_type` ("" when absent),
   * the `CONTENT_LENGTH` header as a number (None when missing or empty),
   * the authenticated user if any, and the posted text and image.
   */
  datatype Request = Request(
    verb: string,
    path: string,
    contentType: string,
    contentLength: Option<nat>,
    user: Option<UserId>,
    text: string,
    image: Option<Image>)

  datatype Level = Success | Error

  datatype Message = Message(level: Level, text: string)

  /** The form a page shows: empty, bound to the submitted data, or editing a row. */
  datatype FormView =
    | Unbound
    | Bound(text: string, image: Option<Image>, errors: Forms.FormErrors)
    | Editing(id: TweetId)

  datatype Page =
    | ListPage(tweets: seq<TweetId>, form: FormView)
    | CreatePage(form: FormView)
    | DetailPage(tweet: TweetId, replies: seq<TweetId>, replyForm: FormView)
    | UpdatePage(form: FormView, tweet: TweetId)
    | DeletePage(tweet: TweetId)

  /**
   * A response. `Redirect` names its route; `arg` is the `pk` keyword as
   * text, and `namespaced` tells whether the name was given as "tweets:...".
   */
  datatype Response =
    | Render(page: Page)
    | Redirect(name: Urls.RouteName, arg: Option<string>, namespaced: bool)
    | NotFound
    | LoginRedirect
    | BadRequest(body: string)
    | ServerError(body: string)
}
