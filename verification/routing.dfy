/**
 * Path-prefix routing of the proxy: the first segment of the request path picks a
 * configured backend base URL (Proxy.findTarget, concat, splitRequestPath,
 * findMatchingTarget, buildForwardRequestURL).
 *
 * `targets` is the configured key -> base URL table.
 */
module Routing {
  import opened Common
  import opened Strings

  /**
   * Proxy.buildForwardRequestURL: the request URI after one pass of
   * replaceAll("//", "/"). The pass keeps every path segment, and leaves no "//"
   * behind unless the URI held "///".
   */
  function ForwardRequestUri(requestUri: string): (r: string)
    ensures |r| > 0 <==> |requestUri| > 0
    ensures SplitDropEmpty(r, '/') == SplitDropEmpty(requestUri, '/')
    ensures !Contains(requestUri, "///") ==> !Contains(r, "//")
  {
    ReplaceDoubleSlashHead(requestUri);
    ReplaceDoubleSlashKeepsSegments(requestUri);
    ReplaceDoubleSlashLeavesNoDouble(requestUri);
    ReplaceDoubleSlash(requestUri)
  }

  /** The single pass is not a normalisation: "///" only shrinks to "//". */
  lemma ForwardRequestUriIsSinglePass()
    ensures ForwardRequestUri("///") == "//"
    ensures ForwardRequestUri("/k///a") == "/k//a"
  {
    assert ReplaceDoubleSlash("") == "";
    assert ReplaceDoubleSlash("a") == "a" by { assert "a"[1..] == ""; }
    assert ReplaceDoubleSlash("/") == "/" by { assert "/"[1..] == ""; }
    assert ReplaceDoubleSlash("///") == "//" by { assert "///"[2..] == "/"; }
    assert ReplaceDoubleSlash("/a") == "/a" by { assert "/a"[1..] == "a"; }
    assert ReplaceDoubleSlash("///a") == "//a" by { assert "///a"[2..] == "/a"; }
    assert ReplaceDoubleSlash("k///a") == "k//a" by { assert "k///a"[1..] == "///a"; }
    assert ReplaceDoubleSlash("/k///a") == "/k//a" by { assert "/k///a"[1..] == "k///a"; }
  }

  // ---------------------------------------------------------------------------
  // findTarget / concat
  // ---------------------------------------------------------------------------

  /** The base URL without one trailing "/". */
  function WithoutTrailingSlash(target: string): string {
    if EndsWith(target, "/") then target[..|target| - 1] else target
  }

  /** Proxy.concat: the base URL (one trailing "/" removed) followed by a path that starts with "/". */
  function Concat(target: string, path: string): string
    requires |path| > 0
  {
    WithoutTrailingSlash(target) + (if path[0] != '/' then "/" + path else path)
  }

  /** The request URI without its leading "/", as findTarget splits it. */
  function SplitInput(requestUri: string): string
    requires |requestUri| > 0
  {
    if requestUri[0] == '/' then requestUri[1..] else requestUri
  }

  /** What findTarget's StringBuilder holds once the segments after the key are appended. */
  function RestPath(rest: seq<string>, trailingSlash: bool): (r: string)
    ensures |r| > 0 && r[0] == '/'
  {
    var b := "/" + Join(rest, '/');
    if trailingSlash && b[|b| - 1] != '/' then b + "/" else b
  }

  /**
   * Proxy.findTarget as a function: None stands for the null result (no segment,
   * or a first segment that is not a configured key).
   */
  function FindTargetSpec(targets: map<string, string>, requestUri: string): Option<string>
    requires |requestUri| > 0
  {
    var segments := Split(SplitInput(requestUri), '/');
    if |segments| == 0 || segments[0] !in targets then None
    else Some(Concat(targets[segments[0]], RestPath(segments[1..], EndsWith(requestUri, "/"))))
  }

  /**
   * Proxy.findTarget with its StringBuilder loop. The servlet container always
   * hands over a request URI starting with "/", so charAt(0) never fails here.
   */
  method FindTarget(targets: map<string, string>, requestUri: string) returns (r: Option<string>)
    requires |requestUri| > 0
    ensures r == FindTargetSpec(targets, requestUri)
  {
    var segments := Split(SplitInput(requestUri), '/');
    if |segments| == 0 || segments[0] !in targets {
      return None;
    }
    var target := targets[segments[0]];
    var builder := BuildRestPath(segments, EndsWith(requestUri, "/"));
    r := Some(Concat(target, builder));
  }

  /**
   * findTarget's StringBuilder: "/" and the segments after the key joined by "/",
   * then one "/" more when the request ends with "/" and the builder does not.
   */
  method BuildRestPath(segments: seq<string>, trailingSlash: bool) returns (builder: string)
    requires |segments| >= 1
    ensures builder == RestPath(segments[1..], trailingSlash)
  {
    builder := "/";
    var i := 1;
    while i < |segments|
      invariant 1 <= i <= |segments|
      invariant builder == "/" + Join(segments[1..i], '/') + (if 1 < i < |segments| then "/" else "")
    {
      JoinSnoc(segments[1..i], segments[i], '/');
      assert segments[1..i + 1] == segments[1..i] + [segments[i]];
      builder := builder + segments[i];
      if i + 1 < |segments| {
        builder := builder + "/";
      }
      i := i + 1;
    }
    assert segments[1..i] == segments[1..];
    if trailingSlash && builder[|builder| - 1] != '/' {
      builder := builder + "/";
    }
  }

  lemma {:induction false} JoinSnoc(xs: seq<string>, x: string, sep: char)
    ensures Join(xs + [x], sep) == if |xs| == 0 then x else Join(xs, sep) + [sep] + x
    decreases |xs|
  {
    if |xs| > 1 {
      assert (xs + [x])[1..] == xs[1..] + [x];
      JoinSnoc(xs[1..], x, sep);
    } else if |xs| == 1 {
      assert (xs + [x])[1..] == [x];
    }
  }

  /** The last piece is empty exactly when the string is empty or ends with the separator. */
  lemma {:induction false} PiecesLastEmpty(s: string, sep: char)
    ensures Pieces(s, sep)[|Pieces(s, sep)| - 1] == "" <==> |s| == 0 || s[|s| - 1] == sep
    decreases |s|
  {
    if |s| > 0 {
      var t := s[1..];
      var rest := Pieces(t, sep);
      PiecesLastEmpty(t, sep);
      if |t| > 0 {
        assert s[|s| - 1] == t[|t| - 1];
        if s[0] != sep && |rest| == 1 {
          PiecesAvoidSep(t, sep);
          JoinPieces(t, sep);
          assert rest == [t];
          assert t[|t| - 1] in t;
        }
      }
    }
  }

  /** Splitting "key/p" when the key is separator-free and not empty. */
  lemma SplitKeyAndRest(k: string, p: string)
    requires k != "" && '/' !in k
    ensures Split(k + "/" + p, '/') == [k] + DropTrailingEmpty(Pieces(p, '/'))
  {
    var s := k + "/" + p;
    assert s == k + ("/" + p);
    assert s[|k|] == '/';
    PiecesAfterPrefix(k, "/" + p, '/');
    PiecesSepPrefix(p, '/');
    assert Pieces("/" + p, '/') == [""] + Pieces(p, '/');
    assert Pieces(s, '/') == [k + ""] + Pieces(p, '/');
    assert k + "" == k;
    DropTrailingEmptyCons(k, Pieces(p, '/'));
  }

  /** The rest of the request path comes back unchanged from the split and the builder. */
  lemma RestPathOfSplit(p: string, trailing: bool)
    requires !EndsWith("/" + p, "//")
    requires trailing <==> |p| == 0 || p[|p| - 1] == '/'
    ensures RestPath(DropTrailingEmpty(Pieces(p, '/')), trailing) == "/" + p
  {
    if |p| == 0 {
      assert DropTrailingEmpty(Pieces(p, '/')) == [];
    } else if p[|p| - 1] != '/' {
      RestPathNoTrailingSlash(p);
    } else {
      SingleTrailingSlash(p);
      RestPathEndsWithSlash(p);
    }
  }

  lemma RestPathEndsWithSlash(p: string)
    requires |p| >= 2 && p[|p| - 1] == '/' && p[|p| - 2] != '/'
    ensures RestPath(DropTrailingEmpty(Pieces(p, '/')), true) == "/" + p
  {
    var q := p[..|p| - 1];
    assert q + "/" == p;
    RestPathTrailingSlash(q);
  }

  /** A path ending in exactly one "/" has a last segment that is not empty. */
  lemma SingleTrailingSlash(p: string)
    requires |p| > 0 && p[|p| - 1] == '/'
    requires !EndsWith("/" + p, "//")
    ensures |p| >= 2 && p[|p| - 2] != '/'
  {
    var u := "/" + p;
    assert u[|u| - 2..] == [u[|u| - 2], u[|u| - 1]];
  }

  lemma RestPathNoTrailingSlash(p: string)
    requires |p| > 0 && p[|p| - 1] != '/'
    ensures RestPath(DropTrailingEmpty(Pieces(p, '/')), false) == "/" + p
  {
    PiecesLastEmpty(p, '/');
    JoinPieces(p, '/');
    assert DropTrailingEmpty(Pieces(p, '/')) == Pieces(p, '/');
  }

  lemma RestPathTrailingSlash(q: string)
    requires |q| > 0 && q[|q| - 1] != '/'
    ensures RestPath(DropTrailingEmpty(Pieces(q + "/", '/')), true) == "/" + (q + "/")
  {
    DropTrailingSep(q);
    JoinPieces(q, '/');
    RestPathOfJoin(Pieces(q, '/'), q);
  }

  lemma DropTrailingSep(q: string)
    requires |q| > 0 && q[|q| - 1] != '/'
    ensures DropTrailingEmpty(Pieces(q + "/", '/')) == Pieces(q, '/')
  {
    var pq := Pieces(q, '/');
    PiecesTrailingSep(q, '/');
    PiecesLastEmpty(q, '/');
    assert (pq + [""])[..|pq|] == pq;
  }

  lemma RestPathOfJoin(pq: seq<string>, q: string)
    requires Join(pq, '/') == q
    requires |q| > 0 && q[|q| - 1] != '/'
    ensures RestPath(pq, true) == "/" + (q + "/")
  {
    var b := "/" + q;
    assert b[|b| - 1] == q[|q| - 1];
  }

  /**
   * Routing through a mapped key: "/key/p" goes to the base URL (one trailing "/"
   * removed) followed by "/p", interior empty segments and a trailing "/" included,
   * as long as the request does not end in "//".
   */
  lemma FindTargetRoutes(targets: map<string, string>, k: string, p: string)
    requires k in targets && k != "" && '/' !in k
    requires !EndsWith("/" + p, "//")
    ensures FindTargetSpec(targets, "/" + k + "/" + p) == Some(WithoutTrailingSlash(targets[k]) + "/" + p)
  {
    var uri := "/" + k + "/" + p;
    KeyedSplit(k, p);
    KeyedTrailingSlash(k, p);
    RestPathOfSplit(p, EndsWith(uri, "/"));
    FindTargetOfSegments(targets, uri, k, DropTrailingEmpty(Pieces(p, '/')), "/" + p);
    ConcatRest(targets[k], p);
  }

  /** findTarget's split of "/key/p": the key, then the segments of p without trailing empties. */
  lemma KeyedSplit(k: string, p: string)
    requires k != "" && '/' !in k
    ensures Split(SplitInput("/" + k + "/" + p), '/') == [k] + DropTrailingEmpty(Pieces(p, '/'))
  {
    assert SplitInput("/" + k + "/" + p) == k + "/" + p;
    SplitKeyAndRest(k, p);
  }

  lemma KeyedTrailingSlash(k: string, p: string)
    ensures EndsWith("/" + k + "/" + p, "/") <==> |p| == 0 || p[|p| - 1] == '/'
  {
    var uri := "/" + k + "/" + p;
    assert uri[|uri| - 1] == if |p| == 0 then '/' else p[|p| - 1];
  }

  /** findTarget once the split is known: the key's base URL joined with the rebuilt rest. */
  lemma FindTargetOfSegments(targets: map<string, string>, uri: string, k: string, tail: seq<string>, rest: string)
    requires |uri| > 0 && k in targets
    requires Split(SplitInput(uri), '/') == [k] + tail
    requires RestPath(tail, EndsWith(uri, "/")) == rest
    ensures FindTargetSpec(targets, uri) == Some(Concat(targets[k], rest))
  {
    assert ([k] + tail)[1..] == tail;
  }

  lemma ConcatRest(target: string, p: string)
    ensures Concat(target, "/" + p) == WithoutTrailingSlash(target) + "/" + p
  {
  }

  /** A bare key, "/key", goes to the base URL (one trailing "/" removed) followed by "/". */
  lemma FindTargetBareKey(targets: map<string, string>, k: string)
    requires k in targets && k != "" && '/' !in k
    ensures FindTargetSpec(targets, "/" + k) == Some(WithoutTrailingSlash(targets[k]) + "/")
  {
    var uri := "/" + k;
    assert SplitInput(uri) == k;
    assert Split(k, '/') == [k];
    assert RestPath([], false) == "/" && RestPath([], true) == "/";
    assert Split(k, '/')[1..] == [];
  }

  /** A first segment that is not a configured key yields no target. */
  lemma FindTargetUnmapped(targets: map<string, string>, k: string, p: string)
    requires k !in targets && '/' !in k
    ensures FindTargetSpec(targets, "/" + k + "/" + p) == None
    ensures FindTargetSpec(targets, "/" + k) == None
  {
    var uri := "/" + k + "/" + p;
    assert SplitInput(uri) == k + ("/" + p);
    PiecesAfterPrefix(k, "/" + p, '/');
    PiecesSepPrefix(p, '/');
    assert uri[|k| + 1] == '/';
    var ps := Pieces(SplitInput(uri), '/');
    assert ps[0] == k;
    assert SplitInput("/" + k) == k;
  }

  // ---------------------------------------------------------------------------
  // splitRequestPath / findMatchingTarget
  // ---------------------------------------------------------------------------

  /**
   * Proxy.splitRequestPath: StringUtils.split of the path after an optional
   * leading "/". Stripping that "/" changes nothing: the result is the path's
   * non-empty segments. charAt(0) fails on an empty path, hence the requires.
   */
  function SplitRequestPath(path: string): (r: seq<string>)
    requires |path| > 0
    ensures r == SplitDropEmpty(path, '/')
    ensures forall s :: s in r ==> s != "" && '/' !in s
  {
    if path[0] == '/' then
      assert path == "/" + path[1..];
      PiecesSepPrefix(path[1..], '/');
      NonEmptyAppend([""], Pieces(path[1..], '/'));
      NonEmptySingle("");
      SegmentsAreWords(path);
      SplitDropEmpty(path[1..], '/')
    else
      SegmentsAreWords(path);
      SplitDropEmpty(path, '/')
  }

  lemma SegmentsAreWords(path: string)
    ensures forall s :: s in SplitDropEmpty(path, '/') ==> s != "" && '/' !in s
  {
    NonEmptyMembers(Pieces(path, '/'));
    PiecesAvoidSep(path, '/');
  }

  /**
   * Proxy.findMatchingTarget: the first non-empty segment of the request URI when
   * it is a configured key. The "//" pass and the leading "/" do not affect it.
   */
  function FindMatchingTarget(targets: map<string, string>, requestUri: string): (r: Option<string>)
    requires |requestUri| > 0
    ensures r == (var segments := SplitDropEmpty(requestUri, '/');
                  if |segments| > 0 && segments[0] in targets then Some(segments[0]) else None)
    ensures r.Some? ==> r.value in targets && r.value != "" && '/' !in r.value
  {
    var segments := SplitRequestPath(ForwardRequestUri(requestUri));
    if |segments| == 0 then None
    else if segments[0] in targets then
      assert segments[0] in segments;
      Some(segments[0])
    else None
  }

  /** For "/key/..." and "/key", findMatchingTarget returns the key findTarget routed through. */
  lemma MatchingTargetIsRoutingKey(targets: map<string, string>, k: string, p: string)
    requires k in targets && k != "" && '/' !in k
    ensures FindMatchingTarget(targets, "/" + k + "/" + p) == Some(k)
    ensures FindMatchingTarget(targets, "/" + k) == Some(k)
  {
    var uri := "/" + k + "/" + p;
    assert uri == "/" + (k + ("/" + p));
    PiecesSepPrefix(k + ("/" + p), '/');
    PiecesAfterPrefix(k, "/" + p, '/');
    PiecesSepPrefix(p, '/');
    var ps := Pieces(p, '/');
    assert Pieces(uri, '/') == [""] + ([k] + ps) by {
      assert Pieces(k + ("/" + p), '/') == [k + ""] + ps;
      assert k + "" == k;
    }
    NonEmptyAppend([""], [k] + ps);
    NonEmptyAppend([k], ps);
    NonEmptySingle("");
    NonEmptySingle(k);
    assert SplitDropEmpty(uri, '/')[0] == k;

    var bare := "/" + k;
    PiecesSepPrefix(k, '/');
    PiecesAfterPrefix(k, "", '/');
    assert k + "" == k;
    assert Pieces(bare, '/') == [""] + [k];
    NonEmptyAppend([""], [k]);
  }
}
