/**
 * `FileSizeMiddleware`: a POST whose declared multipart body is over 5MB is
 * answered before any view runs, with one error message and a redirect
 * guessed from the path (or a 400 when no guess applies).
 */
module FileSizeGuard {
  import opened Wrappers
  import opened Models
  import opened Strings
  import opened Http
  import Urls

  const RejectMessage: string :=
    "File too large! Maximum file size is 5MB. Please try uploading a smaller file."
  const BadRequestBody: string := "File too large! Maximum file size is 5MB."

  /**
   * The declared-length test, shared by the guard and the views: a non-empty
   * content type mentioning "multipart/form-data", and a CONTENT_LENGTH
   * strictly above the limit. A missing or zero length never trips it.
   */
  predicate DeclaredTooLarge(contentType: string, contentLength: Option<nat>)
    ensures DeclaredTooLarge(contentType, contentLength) ==> contentLength.Some? && contentLength.value > MaxImageBytes
    ensures contentType == "multipart/form-data" ==>
      (DeclaredTooLarge(contentType, contentLength) <==> contentLength.Some? && contentLength.value > MaxImageBytes)
    ensures !Contains(contentType, "multipart/form-data") ==> !DeclaredTooLarge(contentType, contentLength)
  {
    contentType != "" && Contains(contentType, "multipart/form-data") &&
    contentLength.Some? && contentLength.value > MaxImageBytes
  }

  /** `request.path.split("/")[-2]`; a path (which always starts with '/') has at least two pieces. */
  function PkSegment(path: string): (seg: string)
    requires |path| > 0 && path[0] == '/'
    ensures '/' !in seg
  {
    var pieces := Split(path, '/');
    assert path == [] + ['/'] + path[1..];
    SplitAfterPiece([], path[1..], '/');
    SplitPiecesLackSep(path, '/');
    pieces[|pieces| - 2]
  }

  /** Where a rejected request is sent, from the words in its path. */
  function RejectResponse(path: string): (r: Response)
    requires |path| > 0 && path[0] == '/'
    ensures Contains(path, "tweets") && (Contains(path, "reply") || Contains(path, "update")) ==>
      r == Redirect(Urls.TweetDetail, Some(PkSegment(path)), true)
    ensures Contains(path, "tweets") && !Contains(path, "reply") && !Contains(path, "update") ==>
      r == Redirect(Urls.TweetList, None, true)
    ensures !Contains(path, "tweets") ==> r == BadRequest(BadRequestBody)
  {
    if Contains(path, "tweets") then
      if Contains(path, "reply") then Redirect(Urls.TweetDetail, Some(PkSegment(path)), true)
      else if Contains(path, "update") then Redirect(Urls.TweetDetail, Some(PkSegment(path)), true)
      else Redirect(Urls.TweetList, None, true)
    else BadRequest(BadRequestBody)
  }

  /** Either `get_response` runs, or the guard answers with a response and its messages. */
  datatype GuardOutcome = CallsDownstream | Answers(response: Response, messages: seq<Message>)

  /** `FileSizeMiddleware.__call__`. */
  function Guard(req: Request): (g: GuardOutcome)
    requires |req.path| > 0 && req.path[0] == '/'
    ensures g.CallsDownstream? <==> !(req.verb == "POST" && DeclaredTooLarge(req.contentType, req.contentLength))
    ensures g.Answers? ==> g.messages == [Message(Error, RejectMessage)]
    ensures g.Answers? ==> g.response == RejectResponse(req.path)
  {
    if req.verb == "POST" && req.contentType != "" && Contains(req.contentType, "multipart/form-data") then
      if req.contentLength.Some? && req.contentLength.value > MaxImageBytes then
        Answers(RejectResponse(req.path), [Message(Error, RejectMessage)])
      else CallsDownstream
    else CallsDownstream
  }

  /** The limit is strict and only a declared length can trip it. */
  lemma GuardBoundaries(req: Request)
    requires |req.path| > 0 && req.path[0] == '/'
    ensures Guard(req.(contentLength := None)) == CallsDownstream
    ensures Guard(req.(contentLength := Some(0))) == CallsDownstream
    ensures Guard(req.(contentLength := Some(MaxImageBytes))) == CallsDownstream
    ensures Guard(req.(verb := "GET")) == CallsDownstream
    ensures req.contentType == "multipart/form-data" ==>
      Guard(req.(verb := "POST", contentLength := Some(MaxImageBytes + 1))).Answers?
  {
  }

  /** How a reply or update path with a trailing slash splits. */
  lemma SplitKeywordPath(s: string, keyword: string)
    requires '/' !in s && '/' !in keyword
    ensures Split("/tweets/" + s + "/" + keyword + "/", '/') == ["", "tweets", s, keyword, ""]
  {
    var path := "/tweets/" + s + "/" + keyword + "/";
    assert path == [] + ['/'] + ("tweets" + ['/'] + (s + ['/'] + (keyword + ['/'] + [])));
    SplitAfterPiece([], "tweets" + ['/'] + (s + ['/'] + (keyword + ['/'] + [])), '/');
    SplitAfterPiece("tweets", s + ['/'] + (keyword + ['/'] + []), '/');
    SplitAfterPiece(s, keyword + ['/'] + [], '/');
    SplitAfterPiece(keyword, [], '/');
  }

  /**
   * With a trailing slash, the second-to-last piece of the path is the final
   * keyword, not the id: "/tweets/5/reply/" redirects with "reply", which the
   * `<int:pk>` converter refuses to reverse.
   */
  lemma TrailingSlashSegment(pk: nat, keyword: string)
    requires keyword == "reply" || keyword == "update"
    ensures var path := "/tweets/" + NatToString(pk) + "/" + keyword + "/";
      PkSegment(path) == keyword &&
      Urls.Reverse(Urls.TweetDetail, Some(PkSegment(path))) == None
  {
    var s := NatToString(pk);
    assert '/' !in s by {
      assert !IsDigit('/');
    }
    SplitKeywordPath(s, keyword);
    assert !IsDigits(keyword) by {
      assert !IsDigit(keyword[0]);
    }
  }

  /** No route of the app contains a 'w', so none holds "tweets" and the guard never redirects on them. */
  lemma {:induction false} NoWInFill(segments: seq<Urls.Segment>, s: string)
    requires forall k :: 0 <= k < |segments| && segments[k].Literal? ==> 'w' !in segments[k].word
    requires 'w' !in s
    ensures 'w' !in Urls.Fill(segments, s)
    decreases |segments|
  {
    if segments != [] {
      assert forall k :: 0 <= k < |segments[1..]| ==> segments[1..][k] == segments[k + 1];
      NoWInFill(segments[1..], s);
    }
  }

  /**
   * The app is mounted at the site root, so none of its own paths contains
   * "tweets": an oversized upload to any of them gets the plain 400 answer,
   * never a redirect.
   */
  lemma AppPathsGetBadRequest(req: Request, name: Urls.RouteName, pk: nat)
    requires Urls.Reverse(name, Urls.ArgText(Urls.RouteArg(name, pk))).Some?
    requires req.path == Urls.Reverse(name, Urls.ArgText(Urls.RouteArg(name, pk))).value
    requires req.verb == "POST" && DeclaredTooLarge(req.contentType, req.contentLength)
    ensures Guard(req) == Answers(BadRequest(BadRequestBody), [Message(Error, RejectMessage)])
  {
    var s := NatToString(pk);
    assert 'w' !in s by {
      assert !IsDigit('w');
    }
    var segs := Urls.UrlPatterns[Urls.IndexOf(name)].segments;
    var arg := if name == Urls.TweetList || name == Urls.TweetCreate then "" else s;
    assert 'w' !in "create" && 'w' !in "update" && 'w' !in "delete" && 'w' !in "reply";
    NoWInFill(segs, arg);
    assert req.path == "/" + Urls.Fill(segs, arg);
    assert 'w' !in req.path;
    MissingCharNotContained(req.path, "tweets", 1);
  }
}
