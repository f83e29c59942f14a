/**
 * What the proxy does to the client's response once the backend has answered:
 * the error-status branch of Proxy.handleRequest with extractHeaderSetCookie,
 * the Location rewriting of adjustLocation and copyLocationHeaders, and the
 * plain copy of doHandleRequest.
 *
 * The servlet response is a ClientResponse that records, in order, every call
 * the proxy makes on it.
 */
module Responses {
  import opened Common
  import opened Strings
  import opened Routing

  /** An HTTP header as HttpCore's Header holds it. */
  datatype Header = Header(name: string, value: string)

  /** One call on the servlet response. */
  datatype Action =
    | SetHeader(name: string, value: string)
    | AddHeader(name: string, value: string)
    | SetStatus(code: int)
    | SendError(code: int)
    | SetCharacterEncoding(charset: string)
    | Write(bytes: seq<byte>)

  /** The servlet response, as the sequence of calls made on it. */
  class ClientResponse {
    var actions: seq<Action>

    constructor ()
      ensures actions == []
    {
      actions := [];
    }

    method SetHeader(name: string, value: string)
      modifies this
      ensures actions == old(actions) + [Action.SetHeader(name, value)]
    {
      actions := actions + [Action.SetHeader(name, value)];
    }

    method AddHeader(name: string, value: string)
      modifies this
      ensures actions == old(actions) + [Action.AddHeader(name, value)]
    {
      actions := actions + [Action.AddHeader(name, value)];
    }

    method SetStatus(code: int)
      modifies this
      ensures actions == old(actions) + [Action.SetStatus(code)]
    {
      actions := actions + [Action.SetStatus(code)];
    }

    method SendError(code: int)
      modifies this
      ensures actions == old(actions) + [Action.SendError(code)]
    {
      actions := actions + [Action.SendError(code)];
    }

    method SetCharacterEncoding(charset: string)
      modifies this
      ensures actions == old(actions) + [Action.SetCharacterEncoding(charset)]
    {
      actions := actions + [Action.SetCharacterEncoding(charset)];
    }

    /** A write to the response's output stream. */
    method Write(bytes: seq<byte>)
      modifies this
      ensures actions == old(actions) + [Action.Write(bytes)]
    {
      actions := actions + [Action.Write(bytes)];
    }
  }

  /** Calls recorded in three stretches, grouped either way. */
  lemma AppendAssociates(a: seq<Action>, b: seq<Action>, c: seq<Action>)
    ensures (a + b) + c == a + (b + c)
  {
  }

  // ---------------------------------------------------------------------------
  // Header lookup (HttpCore compares header names ignoring case)
  // ---------------------------------------------------------------------------

  /** HttpResponse.getFirstHeader(name). */
  function FirstHeaderNamed(headers: seq<Header>, name: string): Option<Header>
    decreases |headers|
  {
    if |headers| == 0 then None
    else if EqualsIgnoreCase(headers[0].name, name) then Some(headers[0])
    else FirstHeaderNamed(headers[1..], name)
  }

  /** The first header is the earliest one with that name, and None means there is none. */
  lemma {:induction false} FirstHeaderNamedIsEarliest(headers: seq<Header>, name: string)
    ensures FirstHeaderNamed(headers, name).None? <==>
              forall i :: 0 <= i < |headers| ==> !EqualsIgnoreCase(headers[i].name, name)
    ensures FirstHeaderNamed(headers, name).Some? ==>
              exists k :: 0 <= k < |headers| && headers[k] == FirstHeaderNamed(headers, name).value
                          && EqualsIgnoreCase(headers[k].name, name)
                          && forall i :: 0 <= i < k ==> !EqualsIgnoreCase(headers[i].name, name)
    decreases |headers|
  {
    if |headers| > 0 && !EqualsIgnoreCase(headers[0].name, name) {
      var tail := headers[1..];
      FirstHeaderNamedIsEarliest(tail, name);
      if FirstHeaderNamed(tail, name).Some? {
        var k :| 0 <= k < |tail| && tail[k] == FirstHeaderNamed(tail, name).value
                 && EqualsIgnoreCase(tail[k].name, name)
                 && forall i :: 0 <= i < k ==> !EqualsIgnoreCase(tail[i].name, name);
        assert headers[k + 1] == tail[k];
        forall i | 0 <= i < k + 1 ensures !EqualsIgnoreCase(headers[i].name, name) {
          if i > 0 { assert headers[i] == tail[i - 1]; }
        }
      } else {
        forall i | 0 <= i < |headers| ensures !EqualsIgnoreCase(headers[i].name, name) {
          if i > 0 { assert headers[i] == tail[i - 1]; }
        }
      }
    }
  }

  /** HttpResponse.getHeaders(name): every header with that name, in order. */
  function HeadersNamed(headers: seq<Header>, name: string): (r: seq<Header>)
    ensures forall h :: h in r ==> h in headers && EqualsIgnoreCase(h.name, name)
    decreases |headers|
  {
    if |headers| == 0 then []
    else (if EqualsIgnoreCase(headers[0].name, name) then [headers[0]] else []) + HeadersNamed(headers[1..], name)
  }

  const SetCookieHeader: string := "Set-Cookie"

  /** Proxy.extractHeaderSetCookie: the loop that returns the first Set-Cookie header. */
  method ExtractHeaderSetCookie(headers: seq<Header>) returns (r: Option<Header>)
    ensures r == FirstHeaderNamed(headers, SetCookieHeader)
  {
    var i := 0;
    while i < |headers|
      invariant 0 <= i <= |headers|
      invariant FirstHeaderNamed(headers, SetCookieHeader) == FirstHeaderNamed(headers[i..], SetCookieHeader)
    {
      assert headers[i..][1..] == headers[i + 1..];
      if EqualsIgnoreCase(headers[i].name, SetCookieHeader) {
        return Some(headers[i]);
      }
      i := i + 1;
    }
    r := None;
  }

  // ---------------------------------------------------------------------------
  // The error-status branch of handleRequest
  // ---------------------------------------------------------------------------

  /** The status line and headers of the backend's response. */
  datatype BackendResponse = BackendResponse(status: int, reason: Option<string>, headers: seq<Header>)

  const DefaultAuthenticate: string := "Basic realm=\"Authentication required\""

  /** The value handleRequest gives WWW-Authenticate on a 401. */
  function AuthenticateValue(headers: seq<Header>): string
  {
    match FirstHeaderNamed(headers, "WWW-Authenticate")
    case None => DefaultAuthenticate
    case Some(h) => h.value
  }

  /** The Set-Cookie header salvaged from a geonetwork 403/404, if any. */
  function SalvagedCookie(backend: BackendResponse, sUrl: string): seq<Action>
  {
    if Contains(sUrl, "/geonetwork/") then
      match FirstHeaderNamed(backend.headers, SetCookieHeader)
      case None => []
      case Some(h) => [AddHeader(h.name, h.value)]
    else []
  }

  /** The calls the error-status branch makes on the client's response. */
  function StatusActions(backend: BackendResponse, sUrl: string): seq<Action>
  {
    if backend.reason.Some? && backend.status >= 400 then
      (if backend.status == 401 then [SetHeader("WWW-Authenticate", AuthenticateValue(backend.headers))] else [])
      + (if backend.status == 404 || backend.status == 403 then SalvagedCookie(backend, sUrl) + [SendError(backend.status)] else [])
    else []
  }

  /** Whether the error-status branch ends the request (the `return` after sendError). */
  predicate StatusEndsRequest(backend: BackendResponse)
  {
    backend.reason.Some? && (backend.status == 404 || backend.status == 403)
  }

  /** The error-status branch of Proxy.handleRequest. */
  method RelayErrorStatus(resp: ClientResponse, backend: BackendResponse, sUrl: string) returns (finished: bool)
    modifies resp
    ensures resp.actions == old(resp.actions) + StatusActions(backend, sUrl)
    ensures finished <==> StatusEndsRequest(backend)
  {
    finished := false;
    if backend.reason.Some? && backend.status >= 400 {
      if backend.status == 401 {
        var authHeader := FirstHeaderNamed(backend.headers, "WWW-Authenticate");
        resp.SetHeader("WWW-Authenticate", if authHeader.None? then DefaultAuthenticate else authHeader.value.value);
      }
      if backend.status == 404 || backend.status == 403 {
        if Contains(sUrl, "/geonetwork/") {
          var setCookie := ExtractHeaderSetCookie(backend.headers);
          if setCookie.Some? {
            resp.AddHeader(setCookie.value.name, setCookie.value.value);
          }
        }
        resp.SendError(backend.status);
        finished := true;
      }
    }
  }

  /** Without a reason phrase, or below 400, the branch does nothing. */
  lemma StatusBranchNeedsReasonAndError(backend: BackendResponse, sUrl: string)
    requires backend.reason.None? || backend.status < 400
    ensures StatusActions(backend, sUrl) == [] && !StatusEndsRequest(backend)
  {
  }

  /**
   * A 401 sets WWW-Authenticate once, to the backend's first such header or the
   * Basic default, and lets the request go on.
   */
  lemma Status401(backend: BackendResponse, sUrl: string)
    requires backend.reason.Some? && backend.status == 401
    ensures StatusActions(backend, sUrl) == [SetHeader("WWW-Authenticate", AuthenticateValue(backend.headers))]
    ensures !StatusEndsRequest(backend)
    ensures (forall i :: 0 <= i < |backend.headers| ==> !EqualsIgnoreCase(backend.headers[i].name, "WWW-Authenticate"))
            ==> AuthenticateValue(backend.headers) == DefaultAuthenticate
  {
    FirstHeaderNamedIsEarliest(backend.headers, "WWW-Authenticate");
  }

  /**
   * A 403 or 404 ends with sendError(status); before it, the first Set-Cookie
   * header is added exactly when the URL contains "/geonetwork/" and the backend
   * sent one.
   */
  lemma Status403Or404(backend: BackendResponse, sUrl: string)
    requires backend.reason.Some? && (backend.status == 403 || backend.status == 404)
    ensures StatusEndsRequest(backend)
    ensures var acts := StatusActions(backend, sUrl);
            |acts| >= 1 && acts[|acts| - 1] == SendError(backend.status)
            && (|acts| == 2 <==> Contains(sUrl, "/geonetwork/")
                                  && exists i :: 0 <= i < |backend.headers|
                                                 && EqualsIgnoreCase(backend.headers[i].name, SetCookieHeader))
            && (|acts| == 2 ==> acts[0].AddHeader? && EqualsIgnoreCase(acts[0].name, SetCookieHeader))
            && |acts| <= 2
  {
    FirstHeaderNamedIsEarliest(backend.headers, SetCookieHeader);
    var acts := StatusActions(backend, sUrl);
    if Contains(sUrl, "/geonetwork/") && FirstHeaderNamed(backend.headers, SetCookieHeader).Some? {
      var h := FirstHeaderNamed(backend.headers, SetCookieHeader).value;
      var k :| 0 <= k < |backend.headers| && backend.headers[k] == h && EqualsIgnoreCase(backend.headers[k].name, SetCookieHeader)
               && forall i :: 0 <= i < k ==> !EqualsIgnoreCase(backend.headers[i].name, SetCookieHeader);
      assert acts == [AddHeader(h.name, h.value), SendError(backend.status)];
    }
  }

  /** Redirects are not errors: a 301 or 302 leaves the branch silent and goes on to Location rewriting. */
  lemma StatusRedirectPassesThrough(backend: BackendResponse, sUrl: string)
    requires backend.status == 301 || backend.status == 302
    ensures StatusActions(backend, sUrl) == [] && !StatusEndsRequest(backend)
  {
  }

  // ---------------------------------------------------------------------------
  // copyLocationHeaders / adjustLocation
  // ---------------------------------------------------------------------------

  /** Proxy.copyLocationHeaders: every Location header is added back unchanged, in order. */
  method CopyLocationHeaders(resp: ClientResponse, headers: seq<Header>)
    modifies resp
    ensures resp.actions == old(resp.actions) + CopiedHeaders(HeadersNamed(headers, "Location"))
  {
    var locations := HeadersNamed(headers, "Location");
    var i := 0;
    while i < |locations|
      invariant 0 <= i <= |locations|
      invariant resp.actions == old(resp.actions) + CopiedHeaders(locations[..i])
    {
      assert locations[..i + 1][..i] == locations[..i];
      assert CopiedHeaders(locations[..i + 1])
             == CopiedHeaders(locations[..i]) + [AddHeader(locations[i].name, locations[i].value)];
      resp.AddHeader(locations[i].name, locations[i].value);
      i := i + 1;
    }
    assert locations[..i] == locations;
  }

  /** AddHeader of each header, unchanged and in order. */
  function CopiedHeaders(headers: seq<Header>): (r: seq<Action>)
    ensures |r| == |headers|
    decreases |headers|
  {
    if |headers| == 0 then []
    else CopiedHeaders(headers[..|headers| - 1]) + [AddHeader(headers[|headers| - 1].name, headers[|headers| - 1].value)]
  }

  lemma {:induction false} CopiedHeadersAt(headers: seq<Header>, i: nat)
    requires i < |headers|
    ensures CopiedHeaders(headers)[i] == AddHeader(headers[i].name, headers[i].value)
    decreases |headers|
  {
    if i < |headers| - 1 {
      CopiedHeadersAt(headers[..|headers| - 1], i);
    }
  }

  /**
   * java.net.URI as adjustLocation uses it: whether a string parses, and the
   * string of `base.resolve(location)`. A URI parsed from a string prints back
   * as that string.
   */
  datatype UriLibrary = UriLibrary(parses: string -> bool, resolve: (string, string) -> string)

  /** The header adjustLocation adds for one backend Location header, once a key and its base URL are known. */
  function RewrittenLocation(key: string, base: string, uris: UriLibrary, h: Header): Action
  {
    if !uris.parses(h.value) then AddHeader(h.name, h.value)
    else
      var resolved := uris.resolve(base, h.value);
      if StartsWith(resolved, base) then AddHeader("Location", "/" + key + "/" + resolved[|base|..])
      else AddHeader(h.name, h.value)
  }

  /** The headers adjustLocation adds, one per backend Location header. */
  function LocationActions(targets: map<string, string>, requestUri: string, headers: seq<Header>,
                           uris: UriLibrary): seq<Action>
    requires |requestUri| > 0
  {
    var locations := HeadersNamed(headers, "Location");
    match FindMatchingTarget(targets, requestUri)
    case None => CopiedHeaders(locations)
    case Some(key) =>
      if !uris.parses(targets[key]) then CopiedHeaders(locations)
      else seq(|locations|, i requires 0 <= i < |locations| => RewrittenLocation(key, targets[key], uris, locations[i]))
  }

  /**
   * Proxy.adjustLocation. The servlet container's request URI is never empty,
   * which splitRequestPath's charAt(0) relies on.
   */
  method AdjustLocation(resp: ClientResponse, targets: map<string, string>, requestUri: string,
                        headers: seq<Header>, uris: UriLibrary)
    requires |requestUri| > 0
    modifies resp
    ensures resp.actions == old(resp.actions) + LocationActions(targets, requestUri, headers, uris)
  {
    var target := FindMatchingTarget(targets, requestUri);
    if target.None? {
      CopyLocationHeaders(resp, headers);
      return;
    }
    var key := target.value;
    var baseUrl := targets[key];
    if !uris.parses(baseUrl) {
      CopyLocationHeaders(resp, headers);
      return;
    }
    var locations := HeadersNamed(headers, "Location");
    ghost var expected := LocationActions(targets, requestUri, headers, uris);
    var i := 0;
    while i < |locations|
      invariant 0 <= i <= |locations|
      invariant resp.actions == old(resp.actions) + expected[..i]
    {
      var h := locations[i];
      if uris.parses(h.value) {
        var resolved := uris.resolve(baseUrl, h.value);
        if StartsWith(resolved, baseUrl) {
          resp.AddHeader("Location", "/" + key + "/" + resolved[|baseUrl|..]);
        } else {
          resp.AddHeader(h.name, h.value);
        }
      } else {
        resp.AddHeader(h.name, h.value);
      }
      assert expected[..i + 1] == expected[..i] + [RewrittenLocation(key, baseUrl, uris, h)];
      i := i + 1;
    }
    assert expected[..i] == expected;
  }

  /**
   * adjustLocation adds exactly one header per backend Location header, in
   * order: either that header unchanged, or a Location pointing into the proxy.
   */
  lemma LocationOnePerHeader(targets: map<string, string>, requestUri: string, headers: seq<Header>,
                             uris: UriLibrary)
    requires |requestUri| > 0
    ensures var locations := HeadersNamed(headers, "Location");
            var acts := LocationActions(targets, requestUri, headers, uris);
            |acts| == |locations|
            && forall i :: 0 <= i < |acts| ==>
                 acts[i] == AddHeader(locations[i].name, locations[i].value)
                 || (acts[i].AddHeader? && acts[i].name == "Location" && StartsWith(acts[i].value, "/"))
  {
    var locations := HeadersNamed(headers, "Location");
    forall i | 0 <= i < |locations|
      ensures CopiedHeaders(locations)[i] == AddHeader(locations[i].name, locations[i].value)
    {
      CopiedHeadersAt(locations, i);
    }
  }

  /** Without a matching key, or with a base URL that does not parse, every Location is copied unchanged. */
  lemma LocationCopiedWithoutBase(targets: map<string, string>, requestUri: string, headers: seq<Header>,
                                  uris: UriLibrary)
    requires |requestUri| > 0
    requires FindMatchingTarget(targets, requestUri).None?
             || !uris.parses(targets[FindMatchingTarget(targets, requestUri).value])
    ensures LocationActions(targets, requestUri, headers, uris) == CopiedHeaders(HeadersNamed(headers, "Location"))
  {
  }

  /**
   * A rewritten Location leads back where the backend pointed: requested from
   * the proxy, findTarget routes "/key/remainder" to the resolved URL, for a base
   * URL ending in "/".
   */
  lemma RewrittenLocationRoutesBack(targets: map<string, string>, key: string, uris: UriLibrary, h: Header)
    requires key in targets && key != "" && '/' !in key
    requires EndsWith(targets[key], "/")
    requires uris.parses(h.value)
    requires var resolved := uris.resolve(targets[key], h.value);
             StartsWith(resolved, targets[key]) && !EndsWith("/" + resolved[|targets[key]|..], "//")
    ensures var resolved := uris.resolve(targets[key], h.value);
            var act := RewrittenLocation(key, targets[key], uris, h);
            act.AddHeader? && FindTargetSpec(targets, act.value) == Some(resolved)
  {
    var base := targets[key];
    var resolved := uris.resolve(base, h.value);
    var rem := resolved[|base|..];
    FindTargetRoutes(targets, key, rem);
    assert WithoutTrailingSlash(base) + "/" == base;
    assert resolved == base + rem;
  }

  // ---------------------------------------------------------------------------
  // doHandleRequest
  // ---------------------------------------------------------------------------

  /** What doHandleRequest does: the backend's status, then its entity as it is, when there is one. */
  function DirectActions(status: int, entity: Option<seq<byte>>): seq<Action>
  {
    [SetStatus(status)] + (if entity.Some? then [Write(entity.value)] else [])
  }

  /** Proxy.doHandleRequest. */
  method DoHandleRequest(resp: ClientResponse, status: int, entity: Option<seq<byte>>)
    modifies resp
    ensures resp.actions == old(resp.actions) + DirectActions(status, entity)
  {
    resp.SetStatus(status);
    if entity.Some? {
      resp.Write(entity.value);
    }
  }
}
