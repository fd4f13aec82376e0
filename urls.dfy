/**
 * The `tweets` URLconf: six patterns tried in order, reversed by name and
 * resolved by path. The app is mounted at the site root, so `reverse` yields
 * "/", "/create/", "/{pk}/", ... A `<int:pk>` segment accepts `[0-9]+` and
 * hands the view the parsed integer.
 */
module Urls {
  import opened Wrappers
  import opened Strings

  /** `app_name = "tweets"`: the namespace of every route. */
  const AppName: string := "tweets"

  datatype RouteName = TweetList | TweetCreate | TweetDetail | TweetUpdate | TweetDelete | TweetReply

  /** One '/'-terminated piece of a route: a fixed word or the `<int:pk>` converter. */
  datatype Segment = Literal(word: string) | Pk

  datatype UrlPattern = UrlPattern(segments: seq<Segment>, name: RouteName)

  /** `urlpatterns`, in order. */
  const UrlPatterns: seq<UrlPattern> := [
    UrlPattern([], TweetList),
    UrlPattern([Literal("create")], TweetCreate),
    UrlPattern([Pk], TweetDetail),
    UrlPattern([Pk, Literal("update")], TweetUpdate),
    UrlPattern([Pk, Literal("delete")], TweetDelete),
    UrlPattern([Pk, Literal("reply")], TweetReply)
  ]

  datatype ResolverMatch = ResolverMatch(appName: string, name: RouteName, pk: Option<nat>)

  predicate HasPk(segments: seq<Segment>) {
    segments != [] && (segments[0] == Pk || HasPk(segments[1..]))
  }

  /** Where a name sits in the table (the names are distinct). */
  function IndexOf(name: RouteName): (i: nat)
    ensures i < |UrlPatterns| && UrlPatterns[i].name == name
  {
    match name
    case TweetList => 0
    case TweetCreate => 1
    case TweetDetail => 2
    case TweetUpdate => 3
    case TweetDelete => 4
    case TweetReply => 5
  }

  /** The route text for `segments` with `pk` in the converter's place. */
  function Fill(segments: seq<Segment>, pk: string): string
  {
    if segments == [] then ""
    else
      (match segments[0] case Literal(w) => w case Pk => pk) + "/" + Fill(segments[1..], pk)
  }

  /**
   * `reverse("tweets:<name>", kwargs=...)`, where `arg` is `str(pk)` or no
   * keyword at all. It fails (NoReverseMatch) when the keyword is missing or
   * unexpected, or when the text is not what `<int:pk>` matches.
   */
  function Reverse(name: RouteName, arg: Option<string>): (r: Option<string>)
    ensures r.Some? <==>
      (arg.Some? <==> name != TweetList && name != TweetCreate) && (arg.Some? ==> IsDigits(arg.value))
    ensures r.Some? ==> |r.value| > 0 && r.value[0] == '/'
  {
    PkRoutes(name);
    var p := UrlPatterns[IndexOf(name)];
    if HasPk(p.segments) != arg.Some? then None
    else if arg.Some? && !IsDigits(arg.value) then None
    else Some("/" + Fill(p.segments, arg.GetOr("")))
  }

  /** Every route but the list and the create page has the `<int:pk>` converter. */
  lemma PkRoutes(name: RouteName)
    ensures HasPk(UrlPatterns[IndexOf(name)].segments) <==> name != TweetList && name != TweetCreate
  {
  }

  /** Matches what is left of the path, split on '/', against one pattern's segments. */
  function MatchSegments(segments: seq<Segment>, pieces: seq<string>): Option<Option<nat>>
    decreases |segments|
  {
    if segments == [] then (if pieces == [""] then Some(None) else None)
    else if |pieces| <= 1 then None
    else
      match segments[0]
      case Literal(w) =>
        if pieces[0] == w then MatchSegments(segments[1..], pieces[1..]) else None
      case Pk =>
        if !IsDigits(pieces[0]) then None
        else
          match MatchSegments(segments[1..], pieces[1..])
          case None => None
          case Some(_) => Some(Some(ParseNat(pieces[0])))
  }

  function FirstMatch(patterns: seq<UrlPattern>, pieces: seq<string>): (r: Option<ResolverMatch>)
    ensures r.Some? ==> r.value.appName == AppName
  {
    if patterns == [] then None
    else
      match MatchSegments(patterns[0].segments, pieces)
      case Some(pk) => Some(ResolverMatch(AppName, patterns[0].name, pk))
      case None => FirstMatch(patterns[1..], pieces)
  }

  /** `resolve(path)`: the first pattern, in table order, that the whole path matches. */
  function Resolve(path: string): (r: Option<ResolverMatch>)
    ensures r.Some? ==> r.value.appName == AppName
  {
    if |path| == 0 || path[0] != '/' then None
    else FirstMatch(UrlPatterns, Split(path[1..], '/'))
  }

  /** The canonical route of each view, with its keyword where it takes one. */
  function RouteArg(name: RouteName, pk: nat): Option<nat> {
    if name == TweetList || name == TweetCreate then None else Some(pk)
  }

  function ArgText(pk: Option<nat>): Option<string> {
    match pk
    case None => None
    case Some(n) => Some(NatToString(n))
  }

  /** Only the list and the create routes reverse without a pk; they refuse one whatever its text. */
  lemma KeywordRoutes()
    ensures forall n :: Reverse(n, None).Some? <==> n == TweetList || n == TweetCreate
    ensures forall n, s :: n == TweetList || n == TweetCreate ==> Reverse(n, Some(s)) == None
    ensures forall n, s :: n != TweetList && n != TweetCreate ==> (Reverse(n, Some(s)).Some? <==> IsDigits(s))
  {
  }

  /** `reverse` renders the six routes as listed in the table. */
  lemma RouteTable(pk: nat)
    ensures Reverse(TweetList, None) == Some("/")
    ensures Reverse(TweetCreate, None) == Some("/create/")
    ensures Reverse(TweetDetail, Some(NatToString(pk))) == Some("/" + NatToString(pk) + "/")
    ensures Reverse(TweetUpdate, Some(NatToString(pk))) == Some("/" + NatToString(pk) + "/update/")
    ensures Reverse(TweetDelete, Some(NatToString(pk))) == Some("/" + NatToString(pk) + "/delete/")
    ensures Reverse(TweetReply, Some(NatToString(pk))) == Some("/" + NatToString(pk) + "/reply/")
  {
    FixedRouteTexts();
    PkRouteTexts(NatToString(pk));
  }

  /** The two routes without a pk. */
  lemma FixedRouteTexts()
    ensures Reverse(TweetList, None) == Some("/")
    ensures Reverse(TweetCreate, None) == Some("/create/")
  {
    assert Fill([], "") == "";
    assert Fill([Literal("create")], "") == "create" + "/" + "" by {
      assert [Literal("create")][1..] == [];
    }
    assert "/" + ("create" + "/" + "") == "/create/";
    assert "/" + "" == "/";
  }

  /** The four routes with a pk, for any digit string in its place. */
  lemma PkRouteTexts(s: string)
    requires IsDigits(s)
    ensures Reverse(TweetDetail, Some(s)) == Some("/" + s + "/")
    ensures Reverse(TweetUpdate, Some(s)) == Some("/" + s + "/update/")
    ensures Reverse(TweetDelete, Some(s)) == Some("/" + s + "/delete/")
    ensures Reverse(TweetReply, Some(s)) == Some("/" + s + "/reply/")
  {
    assert Fill([Pk], s) == s + "/" + "" by {
      assert [Pk][1..] == [];
    }
    assert Fill([Pk, Literal("update")], s) == s + "/" + ("update" + "/" + "") by {
      assert [Pk, Literal("update")][1..] == [Literal("update")];
      assert [Literal("update")][1..] == [];
    }
    assert Fill([Pk, Literal("delete")], s) == s + "/" + ("delete" + "/" + "") by {
      assert [Pk, Literal("delete")][1..] == [Literal("delete")];
      assert [Literal("delete")][1..] == [];
    }
    assert Fill([Pk, Literal("reply")], s) == s + "/" + ("reply" + "/" + "") by {
      assert [Pk, Literal("reply")][1..] == [Literal("reply")];
      assert [Literal("reply")][1..] == [];
    }
    assert "/" + (s + "/" + "") == "/" + s + "/";
    assert "/" + (s + "/" + ("update" + "/" + "")) == "/" + s + "/update/";
    assert "/" + (s + "/" + ("delete" + "/" + "")) == "/" + s + "/delete/";
    assert "/" + (s + "/" + ("reply" + "/" + "")) == "/" + s + "/reply/";
  }


  /** The converter's text never equals one of the table's words. */
  lemma DigitsAreNotWords(s: string)
    requires IsDigits(s)
    ensures s != "create" && s != "update" && s != "delete" && s != "reply" && s != ""
  {
    assert IsDigit(s[0]);
    assert "create"[0] == 'c' && "update"[0] == 'u' && "delete"[0] == 'd' && "reply"[0] == 'r';
  }

  /** The pieces `Split` yields for a filled-in route. */
  function Pieces(segments: seq<Segment>, pk: string): seq<string> {
    if segments == [] then []
    else [match segments[0] case Literal(w) => w case Pk => pk] + Pieces(segments[1..], pk)
  }

  predicate NoSlashWords(segments: seq<Segment>) {
    forall k :: 0 <= k < |segments| && segments[k].Literal? ==> '/' !in segments[k].word
  }

  lemma {:induction false} SplitFill(segments: seq<Segment>, pk: string)
    requires NoSlashWords(segments) && '/' !in pk
    ensures Split(Fill(segments, pk), '/') == Pieces(segments, pk) + [""]
    decreases |segments|
  {
    if segments != [] {
      var head := match segments[0] case Literal(w) => w case Pk => pk;
      assert NoSlashWords(segments[1..]) by {
        forall k | 0 <= k < |segments[1..]| && segments[1..][k].Literal?
          ensures '/' !in segments[1..][k].word
        {
          assert segments[1..][k] == segments[k + 1];
        }
      }
      SplitFill(segments[1..], pk);
      assert '/' !in head by {
        if segments[0].Literal? {
          assert segments[0].word == head;
        }
      }
      SplitAfterPiece(head, Fill(segments[1..], pk), '/');
    } else {
      SplitNoSep("", '/');
    }
  }

  /** What `NatToString` renders is a piece the converter takes and no table word. */
  lemma PkText(pk: nat)
    ensures IsDigits(NatToString(pk)) && '/' !in NatToString(pk)
    ensures ParseNat(NatToString(pk)) == pk
    ensures var s := NatToString(pk); s != "create" && s != "update" && s != "delete" && s != "reply" && s != ""
  {
    var s := NatToString(pk);
    ParseNatToString(pk);
    DigitsAreNotWords(s);
    assert !IsDigit('/');
  }

  /** The path of the route `name` splits into the pattern's pieces and a final "". */
  lemma ReversePieces(name: RouteName, arg: string)
    requires '/' !in arg
    ensures Split(Fill(UrlPatterns[IndexOf(name)].segments, arg), '/') ==
      Pieces(UrlPatterns[IndexOf(name)].segments, arg) + [""]
  {
    var p := UrlPatterns[IndexOf(name)];
    assert NoSlashWords(p.segments);
    SplitFill(p.segments, arg);
  }

  /** `FirstMatch` stops at the first pattern that matches. */
  lemma {:induction false} FirstMatchAt(patterns: seq<UrlPattern>, pieces: seq<string>, i: nat)
    requires i < |patterns|
    requires forall k :: 0 <= k < i ==> MatchSegments(patterns[k].segments, pieces).None?
    requires MatchSegments(patterns[i].segments, pieces).Some?
    ensures FirstMatch(patterns, pieces) ==
      Some(ResolverMatch(AppName, patterns[i].name, MatchSegments(patterns[i].segments, pieces).value))
  {
    if i > 0 {
      assert MatchSegments(patterns[0].segments, pieces).None?;
      assert forall k :: 0 <= k < i - 1 ==> patterns[1..][k] == patterns[k + 1];
      FirstMatchAt(patterns[1..], pieces, i - 1);
    }
  }

  /** A pattern only matches pieces one longer than itself (the final ""). */
  lemma {:induction false} MatchLength(segments: seq<Segment>, pieces: seq<string>)
    requires MatchSegments(segments, pieces).Some?
    ensures |pieces| == |segments| + 1
    decreases |segments|
  {
    if segments != [] {
      MatchLength(segments[1..], pieces[1..]);
    }
  }

  lemma LengthMiss(segments: seq<Segment>, pieces: seq<string>)
    requires |pieces| != |segments| + 1
    ensures MatchSegments(segments, pieces).None?
  {
    if MatchSegments(segments, pieces).Some? {
      MatchLength(segments, pieces);
    }
  }

  /** The pieces of a route path, as `Split` yields them. */
  function RoutePieces(name: RouteName, s: string): seq<string> {
    match name
    case TweetList => [""]
    case TweetCreate => ["create", ""]
    case TweetDetail => [s, ""]
    case TweetUpdate => [s, "update", ""]
    case TweetDelete => [s, "delete", ""]
    case TweetReply => [s, "reply", ""]
  }

  lemma PiecesOfRoute(name: RouteName, s: string)
    requires '/' !in s
    ensures Reverse(name, if name == TweetList || name == TweetCreate then None else Some(s)).Some? ==>
      Split(Reverse(name, if name == TweetList || name == TweetCreate then None else Some(s)).value[1..], '/') ==
      RoutePieces(name, s)
  {
    var segs := UrlPatterns[IndexOf(name)].segments;
    var arg := if name == TweetList || name == TweetCreate then "" else s;
    ReversePieces(name, arg);
    var r := Reverse(name, if name == TweetList || name == TweetCreate then None else Some(s));
    if r.Some? {
      assert r.value[1..] == Fill(segs, arg);
      match name
      case TweetList =>
      case TweetCreate =>
        assert segs[1..] == [];
        assert Pieces(segs, arg) == ["create"] + Pieces([], arg);
      case TweetDetail =>
        assert segs[1..] == [];
        assert Pieces(segs, arg) == [s] + Pieces([], arg);
      case TweetUpdate =>
        assert segs[1..] == [Literal("update")] && segs[1..][1..] == [];
        assert Pieces(segs, arg) == [s] + (["update"] + Pieces([], arg));
      case TweetDelete =>
        assert segs[1..] == [Literal("delete")] && segs[1..][1..] == [];
        assert Pieces(segs, arg) == [s] + (["delete"] + Pieces([], arg));
      case TweetReply =>
        assert segs[1..] == [Literal("reply")] && segs[1..][1..] == [];
        assert Pieces(segs, arg) == [s] + (["reply"] + Pieces([], arg));
    }
  }

  /** The route's pieces match its own pattern and no earlier one. */
  lemma MatchesOwnPatternFirst(name: RouteName, s: string)
    requires IsDigits(s) && s != "create" && s != "update" && s != "delete"
    ensures var pieces := RoutePieces(name, s);
      && (forall k :: 0 <= k < IndexOf(name) ==> MatchSegments(UrlPatterns[k].segments, pieces).None?)
      && MatchSegments(UrlPatterns[IndexOf(name)].segments, pieces) ==
         Some(if name == TweetList || name == TweetCreate then None else Some(ParseNat(s)))
  {
    var pieces := RoutePieces(name, s);
    var i := IndexOf(name);
    assert MatchSegments([], [""]) == Some(None);
    forall k | 0 <= k < i && |pieces| != |UrlPatterns[k].segments| + 1
      ensures MatchSegments(UrlPatterns[k].segments, pieces).None?
    {
      LengthMiss(UrlPatterns[k].segments, pieces);
    }
    match name
    case TweetList =>
    case TweetCreate =>
      assert pieces[1..] == [""];
    case TweetDetail =>
      assert pieces[1..] == [""];
      assert MatchSegments([Literal("create")], pieces).None?;
    case TweetUpdate =>
      assert pieces[1..] == ["update", ""] && pieces[1..][1..] == [""];
    case TweetDelete =>
      assert pieces[1..] == ["delete", ""] && pieces[1..][1..] == [""];
      assert MatchSegments([Literal("update")], pieces[1..]).None?;
    case TweetReply =>
      assert pieces[1..] == ["reply", ""] && pieces[1..][1..] == [""];
      assert MatchSegments([Literal("update")], pieces[1..]).None?;
      assert MatchSegments([Literal("delete")], pieces[1..]).None?;
  }

  /** A route read back by `resolve` names the same view and the same integer pk. */
  lemma ResolveReverse(name: RouteName, pk: nat)
    ensures Reverse(name, ArgText(RouteArg(name, pk))).Some?
    ensures Resolve(Reverse(name, ArgText(RouteArg(name, pk))).value) ==
      Some(ResolverMatch(AppName, name, RouteArg(name, pk)))
  {
    PkText(pk);
    RouteTable(pk);
    var s := NatToString(pk);
    assert ArgText(RouteArg(name, pk)) == if name == TweetList || name == TweetCreate then None else Some(s);
    PiecesOfRoute(name, s);
    MatchesOwnPatternFirst(name, s);
    FirstMatchAt(UrlPatterns, RoutePieces(name, s), IndexOf(name));
  }

  /** Patterns are tried in order: "/create/" is the create view, not a detail. */
  lemma CreateIsNotDetail()
    ensures Resolve("/create/") == Some(ResolverMatch(AppName, TweetCreate, None))
    ensures MatchSegments([Pk], ["create", ""]) == None
  {
    CreatePieces();
    var pieces := ["create", ""];
    assert MatchSegments([Pk], pieces) == None by {
      assert !IsDigit(pieces[0][0]);
    }
    assert MatchSegments([Literal("create")], pieces) == Some(None) by {
      assert [Literal("create")][1..] == [] && pieces[1..] == [""];
    }
    assert FirstMatch(UrlPatterns[1..], pieces) == Some(ResolverMatch(AppName, TweetCreate, None));
  }

  /** "/create/" splits into "create" and the empty tail piece. */
  lemma CreatePieces()
    ensures Split("/create/"[1..], '/') == ["create", ""]
  {
    assert "/create/"[1..] == "create" + "/" + "";
    SplitAfterPiece("create", "", '/');
    SplitNoSep("", '/');
  }
}
