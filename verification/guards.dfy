/**
 * The proxy's self-protection checks and the decisions of its two entry points:
 * the recursion guard (Proxy.filter, isRecursiveCallToProxy), the protected-URL
 * test used before a CAS ticket is validated (samePathPrefix, urlIsProtected),
 * the CAS login redirect, handlePathEncodedRequests and handleUrlParamRequest.
 *
 * What java.net.URL, DNS and the permission lists make of a URL are inputs.
 */
module Guards {
  import opened Common
  import opened Strings
  import opened Routing
  import opened ContentTypes

  // ---------------------------------------------------------------------------
  // filter / isRecursiveCallToProxy
  // ---------------------------------------------------------------------------

  /** Proxy.filter: copies the non-empty strings, in order. */
  method Filter(one: seq<string>) returns (result: seq<string>)
    ensures result == NonEmpty(one)
  {
    result := [];
    var i := 0;
    while i < |one|
      invariant 0 <= i <= |one|
      invariant result == NonEmpty(one[..i])
    {
      assert one[..i + 1][..i] == one[..i];
      if |one[i]| > 0 {
        result := result + [one[i]];
      }
      i := i + 1;
    }
    assert one[..i] == one;
  }

  /**
   * `two` is no longer than `one`, and each of its segments equals the segment of
   * `one` at the same index, ignoring case.
   */
  predicate SegmentsStartWith(one: seq<string>, two: seq<string>)
  {
    |one| >= |two| && forall i :: 0 <= i < |two| ==> EqualsIgnoreCase(two[i], one[i])
  }

  /** A call is recursive when the non-empty segments of the context path start the URI's. */
  predicate IsRecursiveCall(forwardRequestUri: string, contextPath: string)
  {
    SegmentsStartWith(SplitDropEmpty(forwardRequestUri, '/'), SplitDropEmpty(contextPath, '/'))
  }

  /**
   * Proxy.isRecursiveCallToProxy: String.split on "/", then filter, then a
   * `match &=` loop that does not stop at the first mismatch.
   */
  method IsRecursiveCallToProxy(forwardRequestUri: string, contextPath: string) returns (r: bool)
    ensures r == IsRecursiveCall(forwardRequestUri, contextPath)
  {
    var one := Filter(Split(forwardRequestUri, '/'));
    var two := Filter(Split(contextPath, '/'));
    NonEmptySplit(forwardRequestUri, '/');
    NonEmptySplit(contextPath, '/');
    if |one| < |two| {
      return false;
    }
    var matches := true;
    var i := 0;
    while i < |two| && i < |one|
      invariant 0 <= i <= |two|
      invariant matches <==> forall j :: 0 <= j < i ==> EqualsIgnoreCase(two[j], one[j])
    {
      matches := matches && EqualsIgnoreCase(two[i], one[i]);
      i := i + 1;
    }
    r := matches;
  }

  /** Every path is a recursive call with respect to itself. */
  lemma RecursiveCallReflexive(path: string)
    ensures IsRecursiveCall(path, path)
  {
  }

  /** A context path without segments ("" or only slashes) makes every call recursive. */
  lemma RecursiveCallEmptyContext(forwardRequestUri: string, contextPath: string)
    requires forall i :: 0 <= i < |contextPath| ==> contextPath[i] == '/'
    ensures IsRecursiveCall(forwardRequestUri, contextPath)
  {
    PiecesAllEmpty(contextPath, '/');
    assert forall k :: 0 <= k < |Pieces(contextPath, '/')| ==> Pieces(contextPath, '/')[k] == "";
    NonEmptyOfEmpties(Pieces(contextPath, '/'));
  }

  /** Any path below the context path is a recursive call. */
  lemma RecursiveCallBelowContext(contextPath: string, rest: string)
    ensures IsRecursiveCall(contextPath + "/" + rest, contextPath)
  {
    SplitDropEmptyAroundSep(contextPath, rest, '/');
  }

  /** A URI with fewer segments than the context path is never a recursive call. */
  lemma RecursiveCallNeedsEnoughSegments(forwardRequestUri: string, contextPath: string)
    requires |SplitDropEmpty(forwardRequestUri, '/')| < |SplitDropEmpty(contextPath, '/')|
    ensures !IsRecursiveCall(forwardRequestUri, contextPath)
  {
  }

  // ---------------------------------------------------------------------------
  // samePathPrefix / urlIsProtected
  // ---------------------------------------------------------------------------

  /** `ts` is an initial run of `req`, segment by segment, case-sensitively. */
  predicate IsSegmentPrefix(ts: seq<string>, req: seq<string>)
  {
    |ts| <= |req| && req[..|ts|] == ts
  }

  /**
   * samePathPrefix as written: true when the target path's segments start the
   * request's; when the request's segments are a proper initial run of the
   * target's, the loop reads past the end of the request array. An empty target
   * path fails in splitRequestPath's charAt(0).
   */
  function SamePathPrefixSpec(requestSegments: seq<string>, targetPath: string): Outcome<bool>
  {
    if targetPath == "" then IndexOutOfBounds
    else
      var ts := SplitRequestPath(targetPath);
      if IsSegmentPrefix(ts, requestSegments) then Normal(true)
      else if IsSegmentPrefix(requestSegments, ts) then IndexOutOfBounds
      else Normal(false)
  }

  /** Proxy.samePathPrefix; `targetPath` is the path of the configured target URL. */
  method SamePathPrefix(requestSegments: seq<string>, targetPath: string) returns (r: Outcome<bool>)
    ensures r == SamePathPrefixSpec(requestSegments, targetPath)
  {
    if targetPath == "" {
      return IndexOutOfBounds;
    }
    var ts := SplitRequestPath(targetPath);
    var i := 0;
    while i < |ts|
      invariant 0 <= i <= |ts| && i <= |requestSegments|
      invariant ts[..i] == requestSegments[..i]
    {
      if i >= |requestSegments| {
        assert requestSegments[..|requestSegments|] == requestSegments;
        return IndexOutOfBounds;
      }
      if ts[i] != requestSegments[i] {
        assert ts[..|ts|][i] != requestSegments[i];
        assert |ts| <= |requestSegments| ==> requestSegments[..|ts|][i] != ts[i];
        assert |requestSegments| <= |ts| ==> ts[..|requestSegments|][i] != requestSegments[i];
        return Normal(false);
      }
      assert ts[..i + 1] == ts[..i] + [ts[i]];
      assert requestSegments[..i + 1] == requestSegments[..i] + [requestSegments[i]];
      i := i + 1;
    }
    assert ts[..i] == ts;
    r := Normal(true);
  }

  /** The loop of urlIsProtected over the target paths, in the map's iteration order. */
  function AnyTargetPrefix(requestSegments: seq<string>, targetPaths: seq<string>): Outcome<bool>
    decreases |targetPaths|
  {
    if |targetPaths| == 0 then Normal(false)
    else
      match SamePathPrefixSpec(requestSegments, targetPaths[0])
      case IndexOutOfBounds => IndexOutOfBounds
      case Normal(found) => if found then Normal(true) else AnyTargetPrefix(requestSegments, targetPaths[1..])
  }

  /**
   * urlIsProtected: false unless the URL is on this server; otherwise whether the
   * path segments of some configured target start the URL's path segments.
   */
  function UrlIsProtectedSpec(sameServer: bool, urlPath: string, targetPaths: seq<string>): Outcome<bool>
  {
    if !sameServer then Normal(false)
    else if urlPath == "" then IndexOutOfBounds
    else AnyTargetPrefix(SplitRequestPath(urlPath), targetPaths)
  }

  /**
   * Proxy.urlIsProtected. `sameServer` is isSameServer's DNS comparison,
   * `urlPath` the URL's path and `targetPaths` the paths of the configured
   * target URLs, in the order the map yields them.
   */
  method UrlIsProtected(sameServer: bool, urlPath: string, targetPaths: seq<string>) returns (r: Outcome<bool>)
    ensures r == UrlIsProtectedSpec(sameServer, urlPath, targetPaths)
  {
    if !sameServer {
      return Normal(false);
    }
    if urlPath == "" {
      return IndexOutOfBounds;
    }
    var requestSegments := SplitRequestPath(urlPath);
    var i := 0;
    while i < |targetPaths|
      invariant 0 <= i <= |targetPaths|
      invariant AnyTargetPrefix(requestSegments, targetPaths) == AnyTargetPrefix(requestSegments, targetPaths[i..])
    {
      var same := SamePathPrefix(requestSegments, targetPaths[i]);
      assert targetPaths[i..][1..] == targetPaths[i + 1..];
      if same.IndexOutOfBounds? {
        return IndexOutOfBounds;
      }
      if same.value {
        return Normal(true);
      }
      i := i + 1;
    }
    r := Normal(false);
  }

  /** A true answer names a configured target whose segments start the request's. */
  lemma {:induction false} AnyTargetPrefixTrue(requestSegments: seq<string>, targetPaths: seq<string>)
    requires AnyTargetPrefix(requestSegments, targetPaths) == Normal(true)
    ensures exists i :: 0 <= i < |targetPaths| && targetPaths[i] != ""
                        && IsSegmentPrefix(SplitDropEmpty(targetPaths[i], '/'), requestSegments)
    decreases |targetPaths|
  {
    if SamePathPrefixSpec(requestSegments, targetPaths[0]) == Normal(true) {
      assert targetPaths[0] != "" && IsSegmentPrefix(SplitDropEmpty(targetPaths[0], '/'), requestSegments);
    } else {
      var tail := targetPaths[1..];
      AnyTargetPrefixTrue(requestSegments, tail);
      var j :| 0 <= j < |tail| && tail[j] != "" && IsSegmentPrefix(SplitDropEmpty(tail[j], '/'), requestSegments);
      assert targetPaths[j + 1] == tail[j];
    }
  }

  /** A false answer means no configured target's segments start the request's. */
  lemma {:induction false} AnyTargetPrefixFalse(requestSegments: seq<string>, targetPaths: seq<string>)
    requires AnyTargetPrefix(requestSegments, targetPaths) == Normal(false)
    ensures forall i :: 0 <= i < |targetPaths| ==>
              targetPaths[i] != "" && !IsSegmentPrefix(SplitDropEmpty(targetPaths[i], '/'), requestSegments)
    decreases |targetPaths|
  {
    if |targetPaths| > 0 {
      var tail := targetPaths[1..];
      AnyTargetPrefixFalse(requestSegments, tail);
      forall i | 0 < i < |targetPaths|
        ensures targetPaths[i] != "" && !IsSegmentPrefix(SplitDropEmpty(targetPaths[i], '/'), requestSegments)
      {
        assert targetPaths[i] == tail[i - 1];
      }
    }
  }

  /** When no target makes samePathPrefix fail, neither does the loop. */
  lemma {:induction false} AnyTargetPrefixNormal(requestSegments: seq<string>, targetPaths: seq<string>)
    requires forall i :: 0 <= i < |targetPaths| ==> SamePathPrefixSpec(requestSegments, targetPaths[i]).Normal?
    ensures AnyTargetPrefix(requestSegments, targetPaths).Normal?
    decreases |targetPaths|
  {
    if |targetPaths| > 0 {
      var tail := targetPaths[1..];
      forall i | 0 <= i < |tail| ensures SamePathPrefixSpec(requestSegments, tail[i]).Normal? {
        assert tail[i] == targetPaths[i + 1];
      }
      AnyTargetPrefixNormal(requestSegments, tail);
    }
  }

  /**
   * What urlIsProtected's answer means: true only when some configured target's
   * segments start the URL's segments, false only when none does before the first
   * failing target.
   */
  lemma AnyTargetPrefixMeaning(requestSegments: seq<string>, targetPaths: seq<string>)
    ensures AnyTargetPrefix(requestSegments, targetPaths) == Normal(true) ==>
              exists i :: 0 <= i < |targetPaths| && targetPaths[i] != ""
                          && IsSegmentPrefix(SplitDropEmpty(targetPaths[i], '/'), requestSegments)
    ensures AnyTargetPrefix(requestSegments, targetPaths) == Normal(false) ==>
              forall i :: 0 <= i < |targetPaths| ==>
                targetPaths[i] != "" && !IsSegmentPrefix(SplitDropEmpty(targetPaths[i], '/'), requestSegments)
    ensures (forall i :: 0 <= i < |targetPaths| ==> SamePathPrefixSpec(requestSegments, targetPaths[i]).Normal?) ==>
              AnyTargetPrefix(requestSegments, targetPaths).Normal?
  {
    if AnyTargetPrefix(requestSegments, targetPaths) == Normal(true) {
      AnyTargetPrefixTrue(requestSegments, targetPaths);
    }
    if AnyTargetPrefix(requestSegments, targetPaths) == Normal(false) {
      AnyTargetPrefixFalse(requestSegments, targetPaths);
    }
    if forall i :: 0 <= i < |targetPaths| ==> SamePathPrefixSpec(requestSegments, targetPaths[i]).Normal? {
      AnyTargetPrefixNormal(requestSegments, targetPaths);
    }
  }

  /** A target that answers false passes the question on to the targets after it. */
  lemma AnyTargetPrefixSkip(requestSegments: seq<string>, targetPaths: seq<string>)
    requires |targetPaths| > 0 && SamePathPrefixSpec(requestSegments, targetPaths[0]) == Normal(false)
    ensures AnyTargetPrefix(requestSegments, targetPaths) == AnyTargetPrefix(requestSegments, targetPaths[1..])
  {
  }

  /** Dropping the first target keeps the targets before the i-th answering false. */
  lemma FalseBeforeShifts(requestSegments: seq<string>, targetPaths: seq<string>, i: nat)
    requires 0 < i <= |targetPaths|
    requires forall j :: 0 <= j < i ==> SamePathPrefixSpec(requestSegments, targetPaths[j]) == Normal(false)
    ensures forall j :: 0 <= j < i - 1 ==> SamePathPrefixSpec(requestSegments, targetPaths[1..][j]) == Normal(false)
  {
    forall j | 0 <= j < i - 1
      ensures SamePathPrefixSpec(requestSegments, targetPaths[1..][j]) == Normal(false)
    {
      assert targetPaths[1..][j] == targetPaths[j + 1];
    }
  }

  /**
   * The loop answers true at the first target whose samePathPrefix is true when
   * every target before it answered false.
   */
  lemma {:induction false} AnyTargetPrefixAt(requestSegments: seq<string>, targetPaths: seq<string>, i: nat)
    requires i < |targetPaths|
    requires forall j :: 0 <= j < i ==> SamePathPrefixSpec(requestSegments, targetPaths[j]) == Normal(false)
    requires SamePathPrefixSpec(requestSegments, targetPaths[i]) == Normal(true)
    ensures AnyTargetPrefix(requestSegments, targetPaths) == Normal(true)
    decreases i
  {
    if i > 0 {
      var tail := targetPaths[1..];
      AnyTargetPrefixSkip(requestSegments, targetPaths);
      FalseBeforeShifts(requestSegments, targetPaths, i);
      assert tail[i - 1] == targetPaths[i];
      AnyTargetPrefixAt(requestSegments, tail, i - 1);
    }
  }

  /**
   * A target whose segments start the URL's protects it, provided every target
   * listed before it answers false rather than failing.
   */
  lemma UrlIsProtectedByTarget(urlPath: string, targetPaths: seq<string>, i: nat)
    requires urlPath != "" && i < |targetPaths| && targetPaths[i] != ""
    requires forall j :: 0 <= j < i ==> SamePathPrefixSpec(SplitRequestPath(urlPath), targetPaths[j]) == Normal(false)
    requires IsSegmentPrefix(SplitDropEmpty(targetPaths[i], '/'), SplitDropEmpty(urlPath, '/'))
    ensures UrlIsProtectedSpec(true, urlPath, targetPaths) == Normal(true)
  {
    assert SamePathPrefixSpec(SplitRequestPath(urlPath), targetPaths[i]) == Normal(true);
    AnyTargetPrefixAt(SplitRequestPath(urlPath), targetPaths, i);
  }

  /** A URL on another server is never protected, whatever the targets. */
  lemma UrlOnOtherServerNotProtected(urlPath: string, targetPaths: seq<string>)
    ensures UrlIsProtectedSpec(false, urlPath, targetPaths) == Normal(false)
  {
  }

  /**
   * The bounds check that samePathPrefix lacks: a request whose segments are a
   * proper initial run of a target's makes the loop read past the request array.
   */
  lemma SamePathPrefixReadsPastRequest()
    ensures SamePathPrefixSpec(["app"], "/app/sub") == IndexOutOfBounds
  {
    TwoSegments("app", "sub");
    assert "/app/sub" == "/" + "app" + "/" + "sub";
  }

  /** The segments of "/a/b" for two separator-free words. */
  lemma TwoSegments(a: string, b: string)
    requires a != "" && b != "" && '/' !in a && '/' !in b
    ensures SplitDropEmpty("/" + a + "/" + b, '/') == [a, b]
  {
    assert "/" + a + "/" + b == ("/" + a) + ['/'] + b;
    SplitDropEmptyAroundSep("/" + a, b, '/');
    OneSegment(a);
    WordSegment(b);
  }

  lemma OneSegment(a: string)
    requires a != "" && '/' !in a
    ensures SplitDropEmpty("/" + a, '/') == [a]
  {
    assert "/" + a == "" + ['/'] + a;
    SplitDropEmptyAroundSep("", a, '/');
    WordSegment(a);
    assert SplitDropEmpty("", '/') == [];
  }

  lemma WordSegment(a: string)
    requires a != "" && '/' !in a
    ensures SplitDropEmpty(a, '/') == [a]
  {
    PiecesWhole(a, '/');
    NonEmptySingle(a);
  }

  /**
   * samePathPrefix with the bounds check it evidently needs: the target's
   * segments start the request's. It never fails, and it agrees with the code
   * as written whenever that returns.
   */
  function SamePathPrefixChecked(requestSegments: seq<string>, targetPath: string): (r: bool)
    ensures r <==> IsSegmentPrefix(SplitDropEmpty(targetPath, '/'), requestSegments)
    ensures SamePathPrefixSpec(requestSegments, targetPath).Normal? ==>
              SamePathPrefixSpec(requestSegments, targetPath).value == r
  {
    var ts := SplitDropEmpty(targetPath, '/');
    |ts| <= |requestSegments| && forall i :: 0 <= i < |ts| ==> ts[i] == requestSegments[i]
  }

  // ---------------------------------------------------------------------------
  // The CAS login redirect
  // ---------------------------------------------------------------------------

  /** How String.format's %s renders a string that may be null. */
  function Render(s: Option<string>): string
  {
    match s
    case None => "null"
    case Some(v) => v
  }

  /** StringUtils.isEmpty: null or "". */
  predicate IsEmpty(s: Option<string>)
  {
    s.None? || s.value == ""
  }

  /**
   * The login URL of handlePathEncodedRequests as written:
   * format("%s%s%s", pathInfo, isEmpty(query) ? "?" : query, "login").
   */
  function CasLoginUrl(pathInfo: Option<string>, query: Option<string>): string
  {
    Render(pathInfo) + (if IsEmpty(query) then "?" else query.value) + "login"
  }

  /**
   * Without a query the URL asks for login; with one, the query is glued between
   * the path and "login" with neither "?" nor "&", so no login parameter is sent.
   */
  lemma CasLoginUrlLosesLoginParameter(pathInfo: Option<string>, query: Option<string>)
    ensures IsEmpty(query) ==> CasLoginUrl(pathInfo, query) == Render(pathInfo) + "?login"
    ensures !IsEmpty(query) && '?' !in Render(pathInfo) && '?' !in query.value ==>
              '?' !in CasLoginUrl(pathInfo, query)
  {
    if !IsEmpty(query) && '?' !in Render(pathInfo) && '?' !in query.value {
      var u := CasLoginUrl(pathInfo, query);
      assert u == Render(pathInfo) + query.value + "login";
      forall i | 0 <= i < |u| ensures u[i] != '?' {
        if i < |Render(pathInfo)| {
          assert u[i] == Render(pathInfo)[i];
        } else if i < |Render(pathInfo)| + |query.value| {
          assert u[i] == query.value[i - |Render(pathInfo)|];
        }
      }
    }
  }

  /** The parameters of a query string: its non-empty "&"-separated fields. */
  function QueryParameters(query: string): seq<string>
  {
    SplitDropEmpty(query, '&')
  }

  /**
   * The login URL the code's comment describes: "?login", or the original query
   * followed by "&login". Its query string is the original parameters plus login.
   */
  function CasLoginUrlIntended(pathInfo: Option<string>, query: Option<string>): (r: string)
    ensures exists q :: r == Render(pathInfo) + "?" + q
                        && QueryParameters(q) == (if IsEmpty(query) then [] else QueryParameters(query.value)) + ["login"]
  {
    LoginParameters();
    if IsEmpty(query) then
      assert QueryParameters("login") == [] + ["login"];
      Render(pathInfo) + "?" + "login"
    else
      LoginParametersAfter(query.value);
      Render(pathInfo) + "?" + (query.value + "&" + "login")
  }

  /** "login" alone is one parameter. */
  lemma LoginParameters()
    ensures QueryParameters("login") == ["login"]
  {
    PiecesWhole("login", '&');
    NonEmptySingle("login");
  }

  /** "&login" after a query adds the one parameter login to its parameters. */
  lemma LoginParametersAfter(query: string)
    ensures QueryParameters(query + "&" + "login") == QueryParameters(query) + ["login"]
  {
    LoginParameters();
    SplitDropEmptyAroundSep(query, "login", '&');
    assert query + "&" + "login" == query + ['&'] + "login";
  }

  // ---------------------------------------------------------------------------
  // handlePathEncodedRequests
  // ---------------------------------------------------------------------------

  /** What java.net.URL and the DNS comparison make of the backend URL. */
  datatype BackendUrl = BackendUrl(path: string, port: int, sameServer: bool)

  /** The parts of the servlet request that handlePathEncodedRequests reads. */
  datatype PathRequest = PathRequest(
    requestUri: string,
    servletPath: string,
    contextPath: string,
    serverPort: int,
    query: Option<string>,
    pathInfo: Option<string>,
    hasTicket: bool,
    hasPrincipal: bool)

  /** How handlePathEncodedRequests ends. */
  datatype PathStep =
    | NotFound                      // sendError(404)
    | LoginRedirect(location: string)
    | Forward(url: string)          // handleRequest(sURL, true)
    | Dropped                       // an IOException (malformed URL) caught and logged
    | Crashed                       // an unchecked IndexOutOfBoundsException escapes

  /** The end step, and whether the 403 for a recursive call was sent before it. */
  datatype PathOutcome = PathOutcome(recursive403: bool, step: PathStep)

  /**
   * Proxy.handlePathEncodedRequests. `parseUrl` stands for new URL(sURL) with
   * isSameServer's DNS answer (None: MalformedURLException); `targetPaths` are
   * the paths of the configured target URLs in the map's order.
   */
  function HandlePathEncoded(targets: map<string, string>, targetPaths: seq<string>,
                             parseUrl: string -> Option<BackendUrl>, req: PathRequest): (r: PathOutcome)
    ensures r.step.Forward? && req.query.Some? ==> exists sUrl :: r.step.url == sUrl + "?" + req.query.value
  {
    var contextPath := req.servletPath + req.contextPath;
    var forwardUri := ForwardRequestUri(req.requestUri);
    if forwardUri == "" then PathOutcome(false, Crashed)
    else
      match FindTargetSpec(targets, forwardUri)
      case None => PathOutcome(false, NotFound)
      case Some(sUrl) =>
        match parseUrl(sUrl)
        case None => PathOutcome(false, Dropped)
        case Some(url) =>
          var sameHostAndPort := url.sameServer && url.port == req.serverPort;
          var recursive := sameHostAndPort
            && (IsRecursiveCall(forwardUri, contextPath) || IsRecursiveCall(url.path, contextPath));
          var needCas := if req.hasTicket && !req.hasPrincipal
                         then UrlIsProtectedSpec(url.sameServer, url.path, targetPaths)
                         else Normal(false);
          match needCas
          case IndexOutOfBounds => PathOutcome(recursive, Crashed)
          case Normal(b) =>
            if b then PathOutcome(recursive, LoginRedirect(CasLoginUrl(req.pathInfo, req.query)))
            else if req.query.Some? then PathOutcome(recursive, Forward(sUrl + "?" + req.query.value))
            else PathOutcome(recursive, Forward(sUrl))
  }

  /** A request whose first segment is not a configured key gets a 404. */
  lemma PathEncodedUnmappedIsNotFound(targets: map<string, string>, targetPaths: seq<string>,
                                      parseUrl: string -> Option<BackendUrl>, req: PathRequest,
                                      k: string, p: string)
    requires k !in targets && '/' !in k
    requires req.requestUri == "/" + k + "/" + p && !Contains(req.requestUri, "//")
    ensures HandlePathEncoded(targets, targetPaths, parseUrl, req) == PathOutcome(false, NotFound)
  {
    ReplaceDoubleSlashIdentity(req.requestUri);
    FindTargetUnmapped(targets, k, p);
  }

  /**
   * The 403 for a recursive call does not end the request: unless a CAS login is
   * due, the request is still forwarded to the target with its query.
   */
  lemma PathEncodedRecursiveStillForwards(targets: map<string, string>, targetPaths: seq<string>,
                                          parseUrl: string -> Option<BackendUrl>, req: PathRequest,
                                          k: string, p: string)
    requires k in targets && k != "" && '/' !in k
    requires req.requestUri == "/" + k + "/" + p && !Contains(req.requestUri, "//")
    requires !EndsWith("/" + p, "//")
    requires !(req.hasTicket && !req.hasPrincipal)
    requires var sUrl := WithoutTrailingSlash(targets[k]) + "/" + p;
             parseUrl(sUrl).Some? && parseUrl(sUrl).value.sameServer
             && parseUrl(sUrl).value.port == req.serverPort
    requires IsRecursiveCall(req.requestUri, req.servletPath + req.contextPath)
    ensures var sUrl := WithoutTrailingSlash(targets[k]) + "/" + p;
            HandlePathEncoded(targets, targetPaths, parseUrl, req)
            == PathOutcome(true, Forward(if req.query.Some? then sUrl + "?" + req.query.value else sUrl))
  {
    ReplaceDoubleSlashIdentity(req.requestUri);
    FindTargetRoutes(targets, k, p);
  }

  /**
   * The 403 for a recursive call is sent exactly when the request is mapped, its
   * target URL parses, the URL is on this server's host and port, and either the
   * forwarded URI or the target's path lies below the servlet and context path.
   */
  lemma PathEncodedRecursive403(targets: map<string, string>, targetPaths: seq<string>,
                                parseUrl: string -> Option<BackendUrl>, req: PathRequest)
    ensures var forwardUri := ForwardRequestUri(req.requestUri);
            var contextPath := req.servletPath + req.contextPath;
            HandlePathEncoded(targets, targetPaths, parseUrl, req).recursive403 <==>
              forwardUri != "" && FindTargetSpec(targets, forwardUri).Some?
              && var target := parseUrl(FindTargetSpec(targets, forwardUri).value);
                 target.Some? && target.value.sameServer && target.value.port == req.serverPort
                 && (IsRecursiveCall(forwardUri, contextPath) || IsRecursiveCall(target.value.path, contextPath))
  {
  }

  /**
   * A mapped request "/k/p" whose target URL parses, and for which no CAS login
   * is due, is forwarded to findTarget's URL with the request's query; the 403 is
   * sent before it only for a recursive call to this host and port.
   */
  lemma PathEncodedForwards(targets: map<string, string>, targetPaths: seq<string>,
                            parseUrl: string -> Option<BackendUrl>, req: PathRequest,
                            k: string, p: string)
    requires k in targets && k != "" && '/' !in k
    requires req.requestUri == "/" + k + "/" + p && !Contains(req.requestUri, "//")
    requires !EndsWith("/" + p, "//")
    requires parseUrl(WithoutTrailingSlash(targets[k]) + "/" + p).Some?
    requires var url := parseUrl(WithoutTrailingSlash(targets[k]) + "/" + p).value;
             !(req.hasTicket && !req.hasPrincipal) || UrlIsProtectedSpec(url.sameServer, url.path, targetPaths) == Normal(false)
    ensures var sUrl := WithoutTrailingSlash(targets[k]) + "/" + p;
            var url := parseUrl(sUrl).value;
            var contextPath := req.servletPath + req.contextPath;
            var r := HandlePathEncoded(targets, targetPaths, parseUrl, req);
            r.step == Forward(if req.query.Some? then sUrl + "?" + req.query.value else sUrl)
            && (r.recursive403 <==> url.sameServer && url.port == req.serverPort
                                    && (IsRecursiveCall(req.requestUri, contextPath) || IsRecursiveCall(url.path, contextPath)))
  {
    ReplaceDoubleSlashIdentity(req.requestUri);
    FindTargetRoutes(targets, k, p);
  }

  /** A mapped request to another host or port is forwarded without the 403. */
  lemma PathEncodedForwardsWithout403(targets: map<string, string>, targetPaths: seq<string>,
                                      parseUrl: string -> Option<BackendUrl>, req: PathRequest,
                                      k: string, p: string)
    requires k in targets && k != "" && '/' !in k
    requires req.requestUri == "/" + k + "/" + p && !Contains(req.requestUri, "//")
    requires !EndsWith("/" + p, "//")
    requires !(req.hasTicket && !req.hasPrincipal)
    requires var url := parseUrl(WithoutTrailingSlash(targets[k]) + "/" + p);
             url.Some? && !(url.value.sameServer && url.value.port == req.serverPort)
    ensures var sUrl := WithoutTrailingSlash(targets[k]) + "/" + p;
            HandlePathEncoded(targets, targetPaths, parseUrl, req)
            == PathOutcome(false, Forward(if req.query.Some? then sUrl + "?" + req.query.value else sUrl))
  {
    PathEncodedForwards(targets, targetPaths, parseUrl, req, k, p);
  }

  /** A request with a CAS ticket and no principal, to a protected URL, is redirected to log in. */
  lemma PathEncodedTicketRedirects(targets: map<string, string>, targetPaths: seq<string>,
                                   parseUrl: string -> Option<BackendUrl>, req: PathRequest,
                                   k: string, p: string)
    requires k in targets && k != "" && '/' !in k
    requires req.requestUri == "/" + k + "/" + p && !Contains(req.requestUri, "//")
    requires !EndsWith("/" + p, "//")
    requires req.hasTicket && !req.hasPrincipal
    requires var sUrl := WithoutTrailingSlash(targets[k]) + "/" + p;
             parseUrl(sUrl).Some?
             && UrlIsProtectedSpec(parseUrl(sUrl).value.sameServer, parseUrl(sUrl).value.path, targetPaths) == Normal(true)
    ensures HandlePathEncoded(targets, targetPaths, parseUrl, req).step == LoginRedirect(CasLoginUrl(req.pathInfo, req.query))
  {
    ReplaceDoubleSlashIdentity(req.requestUri);
    FindTargetRoutes(targets, k, p);
  }

  // ---------------------------------------------------------------------------
  // handleUrlParamRequest
  // ---------------------------------------------------------------------------

  /** How handleUrlParamRequest ends. */
  datatype UrlParamOutcome =
    | ContentTypeRefused            // IllegalArgumentException from testLegalContentType
    | ContentTypeCrashed            // element 0 of an empty split
    | BadRequest                    // sendError(400): not a URL
    | NotAllowed                    // sendError(401, "URL is not allowed.")
    | ForwardUrl(url: string)       // handleRequest(sURL, false)

  /**
   * Proxy.handleUrlParamRequest. `urlParses` is whether new URL(sURL) succeeds and
   * `denied` whether the same-domain or proxy permissions deny it.
   */
  function HandleUrlParam(contentType: Option<string>, entries: seq<string>, sUrl: string,
                          urlParses: bool, denied: bool): (r: UrlParamOutcome)
    ensures r.ForwardUrl? <==>
              LegalContentTypeSpec(contentType, entries) == Normal(Permitted) && urlParses && !denied
    ensures r.ForwardUrl? ==> r.url == sUrl
  {
    match LegalContentTypeSpec(contentType, entries)
    case IndexOutOfBounds => ContentTypeCrashed
    case Normal(legality) =>
      if legality == NotPermitted then ContentTypeRefused
      else if !urlParses then BadRequest
      else if denied then NotAllowed
      else ForwardUrl(sUrl)
  }
}
