/**
 * Construction of the request sent to the backend (Proxy.buildUri, makeRequest):
 * the backend URI is rebuilt from the parsed URL without user info and fragment,
 * the HTTP method picks the request class, and a form POST carries every value of
 * every parameter, name by name.
 *
 * java.net.URL parsing, the URISyntaxException of java.net.URI and
 * Charset.forName are inputs.
 */
module Forwarding {
  import opened Common
  import opened Strings
  import opened ContentTypes

  // ---------------------------------------------------------------------------
  // buildUri
  // ---------------------------------------------------------------------------

  /**
   * The parts of a java.net.URL that buildUri reads. A port of None is URL's -1
   * ("no port given").
   */
  datatype UrlParts = UrlParts(
    protocol: string,
    userInfo: Option<string>,
    host: string,
    port: Option<nat>,
    path: string,
    query: Option<string>,
    ref: Option<string>)

  function PortText(port: Option<nat>): string
  {
    match port
    case None => ""
    case Some(n) => ":" + DecimalText(n)
  }

  function QueryText(query: Option<string>): string
  {
    match query
    case None => ""
    case Some(q) => "?" + q
  }

  /**
   * Proxy.buildUri: protocol "://" host, ":" port when one is given, the path,
   * and "?" query when there is one. The path is taken as the URL holds it.
   */
  function BuildUri(url: UrlParts): string
  {
    url.protocol + "://" + url.host + PortText(url.port) + url.path + QueryText(url.query)
  }

  /** The text before the first `c`, and the text after it when `c` occurs. */
  function CutAt(s: string, c: char): (r: (string, Option<string>))
    ensures c !in r.0
    ensures r.1.None? ==> r.0 == s
    ensures r.1.Some? ==> s == r.0 + [c] + r.1.value
    decreases |s|
  {
    if |s| == 0 then ("", None)
    else if s[0] == c then ("", Some(s[1..]))
    else
      var (a, b) := CutAt(s[1..], c);
      ([s[0]] + a, b)
  }

  /** Cutting at the first `c` finds the `c` that follows a `c`-free prefix. */
  lemma {:induction false} CutAtAfter(a: string, b: string, c: char)
    requires c !in a
    ensures CutAt(a + [c] + b, c) == (a, Some(b))
    decreases |a|
  {
    if |a| == 0 {
      assert a + [c] + b == [c] + b;
    } else {
      assert a[0] in a;
      assert (a + [c] + b)[1..] == a[1..] + [c] + b;
      CutAtAfter(a[1..], b, c);
      assert [a[0]] + a[1..] == a;
    }
  }

  /** A string without `c` is not cut. */
  lemma {:induction false} CutAtNone(a: string, c: char)
    requires c !in a
    ensures CutAt(a, c) == (a, None)
    decreases |a|
  {
    if |a| > 0 {
      assert a[0] in a;
      CutAtNone(a[1..], c);
      assert [a[0]] + a[1..] == a;
    }
  }

  /** The length of the authority (host and port) at the front of what follows "://". */
  function AuthorityLength(s: string): (n: nat)
    ensures n <= |s|
    decreases |s|
  {
    if |s| == 0 || s[0] == '/' || s[0] == '?' then 0 else 1 + AuthorityLength(s[1..])
  }

  lemma {:induction false} AuthorityLengthOf(a: string, b: string)
    requires '/' !in a && '?' !in a
    requires b == [] || b[0] == '/' || b[0] == '?'
    ensures AuthorityLength(a + b) == |a|
    decreases |a|
  {
    if |a| > 0 {
      assert a[0] in a;
      assert (a + b)[1..] == a[1..] + b;
      AuthorityLengthOf(a[1..], b);
    } else {
      assert a + b == b;
    }
  }

  /**
   * A reader for the strings buildUri produces: protocol up to the first ":",
   * then "//", the authority up to the first "/" or "?", a ":" port inside it,
   * then the path up to the first "?" and the query after it.
   */
  function ParseUri(s: string): Option<UrlParts>
  {
    var (protocol, afterColon) := CutAt(s, ':');
    if afterColon.None? || !StartsWith(afterColon.value, "//") then None
    else
      var rest := afterColon.value[2..];
      var n := AuthorityLength(rest);
      var (host, portText) := CutAt(rest[..n], ':');
      var (path, query) := CutAt(rest[n..], '?');
      match portText
      case None => Some(UrlParts(protocol, None, host, None, path, query, None))
      case Some(t) =>
        if t != "" && AllDigits(t) then Some(UrlParts(protocol, None, host, Some(DecimalValue(t)), path, query, None))
        else None
  }

  /** URL parts the rebuilt string keeps apart: no separator inside a part where it would end it early. */
  predicate Separable(url: UrlParts)
  {
    ':' !in url.protocol
    && ':' !in url.host && '/' !in url.host && '?' !in url.host
    && (url.path == "" || url.path[0] == '/') && '?' !in url.path
  }

  lemma DigitsAreNotSeparators(t: string)
    requires AllDigits(t)
    ensures ':' !in t && '/' !in t && '?' !in t
  {
  }

  /** The authority part of the rebuilt string: the host, then ":" and the port when there is one. */
  lemma AuthorityOf(url: UrlParts)
    requires Separable(url)
    ensures '/' !in url.host + PortText(url.port) && '?' !in url.host + PortText(url.port)
    ensures CutAt(url.host + PortText(url.port), ':')
            == (url.host, if url.port.None? then None else Some(DecimalText(url.port.value)))
  {
    if url.port.None? {
      assert url.host + PortText(url.port) == url.host;
      CutAtNone(url.host, ':');
    } else {
      var t := DecimalText(url.port.value);
      DigitsAreNotSeparators(t);
      assert url.host + PortText(url.port) == url.host + [':'] + t;
      CutAtAfter(url.host, t, ':');
    }
  }

  /** The path and query part of the rebuilt string. */
  lemma PathAndQueryOf(url: UrlParts)
    requires Separable(url)
    ensures var pq := url.path + QueryText(url.query);
            (pq == [] || pq[0] == '/' || pq[0] == '?') && CutAt(pq, '?') == (url.path, url.query)
  {
    if url.query.None? {
      assert url.path + QueryText(url.query) == url.path;
      CutAtNone(url.path, '?');
    } else {
      assert url.path + QueryText(url.query) == url.path + ['?'] + url.query.value;
      CutAtAfter(url.path, url.query.value, '?');
    }
  }

  /**
   * Reading back what buildUri wrote gives the URL's protocol, host, port, path
   * and query; its user info and fragment are gone.
   */
  lemma BuildUriRoundTrip(url: UrlParts)
    requires Separable(url)
    ensures ParseUri(BuildUri(url)) == Some(url.(userInfo := None, ref := None))
  {
    var authority := url.host + PortText(url.port);
    var pq := url.path + QueryText(url.query);
    var rest := authority + pq;
    BuildUriShape(url);
    CutAtAfter(url.protocol, "//" + rest, ':');
    SlicesOfAppend("//", rest);
    AuthorityOf(url);
    PathAndQueryOf(url);
    AuthorityLengthOf(authority, pq);
    SlicesOfAppend(authority, pq);
    if url.port.Some? {
      DecimalRoundTrip(url.port.value);
    }
  }

  /** The rebuilt string: the protocol, ':', then "//" and the rest. */
  lemma BuildUriShape(url: UrlParts)
    ensures BuildUri(url) == url.protocol + [':'] + ("//" + ((url.host + PortText(url.port)) + (url.path + QueryText(url.query))))
  {
  }

  /** The user info and fragment never reach the backend URI. */
  lemma BuildUriDropsUserInfoAndFragment(url: UrlParts, userInfo: Option<string>, ref: Option<string>)
    ensures BuildUri(url.(userInfo := userInfo, ref := ref)) == BuildUri(url)
  {
  }

  // ---------------------------------------------------------------------------
  // Form parameters
  // ---------------------------------------------------------------------------

  /** A request parameter as getParameterNames/getParameterValues give it. */
  datatype Parameter = Parameter(name: string, values: seq<string>)

  /** The name/value pairs of one parameter, one per value, in order. */
  function Pairs(p: Parameter): (r: seq<(string, string)>)
    ensures |r| == |p.values|
    ensures forall i :: 0 <= i < |r| ==> r[i] == (p.name, p.values[i])
  {
    seq(|p.values|, i requires 0 <= i < |p.values| => (p.name, p.values[i]))
  }

  /** Every value of every parameter, name by name in the order the names come. */
  function Flatten(params: seq<Parameter>): seq<(string, string)>
  {
    if |params| == 0 then [] else Flatten(params[..|params| - 1]) + Pairs(params[|params| - 1])
  }

  /** makeRequest's nested loop that fills the NameValuePair list of a form POST. */
  method FlattenParameters(params: seq<Parameter>) returns (pairs: seq<(string, string)>)
    ensures pairs == Flatten(params)
  {
    pairs := [];
    var i := 0;
    while i < |params|
      invariant 0 <= i <= |params|
      invariant pairs == Flatten(params[..i])
    {
      var name := params[i].name;
      var v := params[i].values;
      var j := 0;
      while j < |v|
        invariant 0 <= j <= |v|
        invariant pairs == Flatten(params[..i]) + Pairs(params[i])[..j]
      {
        assert Pairs(params[i])[..j + 1] == Pairs(params[i])[..j] + [(name, v[j])];
        pairs := pairs + [(name, v[j])];
        j := j + 1;
      }
      assert Pairs(params[i])[..j] == Pairs(params[i]);
      assert params[..i + 1][..i] == params[..i];
      i := i + 1;
    }
    assert params[..i] == params;
  }

  /** The values paired with `name`, in order. */
  function ValuesNamed(pairs: seq<(string, string)>, name: string): seq<string>
  {
    if |pairs| == 0 then []
    else ValuesNamed(pairs[..|pairs| - 1], name)
         + (if pairs[|pairs| - 1].0 == name then [pairs[|pairs| - 1].1] else [])
  }

  lemma {:induction false} ValuesNamedAppend(a: seq<(string, string)>, b: seq<(string, string)>, name: string)
    ensures ValuesNamed(a + b, name) == ValuesNamed(a, name) + ValuesNamed(b, name)
    decreases |b|
  {
    if |b| == 0 {
      assert a + b == a;
    } else {
      assert (a + b)[..|a + b| - 1] == a + b[..|b| - 1];
      ValuesNamedAppend(a, b[..|b| - 1], name);
    }
  }

  lemma {:induction false} ValuesNamedPairs(p: Parameter, name: string, k: nat)
    requires k <= |p.values|
    ensures ValuesNamed(Pairs(p)[..k], name) == if p.name == name then p.values[..k] else []
    decreases k
  {
    if k > 0 {
      assert Pairs(p)[..k][..k - 1] == Pairs(p)[..k - 1];
      ValuesNamedPairs(p, name, k - 1);
      assert p.values[..k] == p.values[..k - 1] + [p.values[k - 1]];
    }
  }

  predicate DistinctNames(params: seq<Parameter>)
  {
    forall i, j :: 0 <= i < j < |params| ==> params[i].name != params[j].name
  }

  /**
   * With distinct names (as a servlet request's parameter map has them), the
   * form body carries exactly the values of each parameter, in their order.
   */
  lemma {:induction false} FlattenKeepsValues(params: seq<Parameter>, k: nat)
    requires DistinctNames(params) && k < |params|
    ensures ValuesNamed(Flatten(params), params[k].name) == params[k].values
    decreases |params|
  {
    var n := |params| - 1;
    var name := params[k].name;
    var front := params[..n];
    assert Flatten(params) == Flatten(front) + Pairs(params[n]);
    ValuesNamedAppend(Flatten(front), Pairs(params[n]), name);
    ValuesNamedOfPairs(params[n], name);
    if k < n {
      assert front[k] == params[k];
      assert DistinctNames(front);
      FlattenKeepsValues(front, k);
    } else {
      assert forall i :: 0 <= i < |front| ==> front[i].name != name;
      NoValuesForAbsentName(front, name);
    }
  }

  /** The pairs of one parameter carry its values under its own name only. */
  lemma ValuesNamedOfPairs(p: Parameter, name: string)
    ensures ValuesNamed(Pairs(p), name) == if p.name == name then p.values else []
  {
    ValuesNamedPairs(p, name, |p.values|);
    SplitAt(Pairs(p), |p.values|);
    SplitAt(p.values, |p.values|);
  }

  lemma {:induction false} NoValuesForAbsentName(params: seq<Parameter>, name: string)
    requires forall i :: 0 <= i < |params| ==> params[i].name != name
    ensures ValuesNamed(Flatten(params), name) == []
    decreases |params|
  {
    if |params| > 0 {
      var n := |params| - 1;
      NoValuesForAbsentName(params[..n], name);
      ValuesNamedAppend(Flatten(params[..n]), Pairs(params[n]), name);
      ValuesNamedOfPairs(params[n], name);
    }
  }

  // ---------------------------------------------------------------------------
  // makeRequest
  // ---------------------------------------------------------------------------

  /** org.springframework.http.HttpMethod. */
  datatype HttpMethod = GET | HEAD | POST | PUT | PATCH | DELETE | OPTIONS | TRACE

  function MethodName(m: HttpMethod): string
  {
    match m
    case GET => "GET"
    case HEAD => "HEAD"
    case POST => "POST"
    case PUT => "PUT"
    case PATCH => "PATCH"
    case DELETE => "DELETE"
    case OPTIONS => "OPTIONS"
    case TRACE => "TRACE"
  }

  /** HttpMethod.resolve: the constant with exactly this name, or null. */
  function ResolveMethod(name: string): (r: Option<HttpMethod>)
    ensures r.Some? ==> MethodName(r.value) == name
  {
    if name == "GET" then Some(GET)
    else if name == "HEAD" then Some(HEAD)
    else if name == "POST" then Some(POST)
    else if name == "PUT" then Some(PUT)
    else if name == "PATCH" then Some(PATCH)
    else if name == "DELETE" then Some(DELETE)
    else if name == "OPTIONS" then Some(OPTIONS)
    else if name == "TRACE" then Some(TRACE)
    else None
  }

  /** Every method resolves from its own name. */
  lemma ResolveMethodName(m: HttpMethod)
    ensures ResolveMethod(MethodName(m)) == Some(m)
  {
  }

  /** The entity of the backend request. */
  datatype Body =
    | NoBody
    | FormBody(pairs: seq<(string, string)>, charset: string)   // UrlEncodedFormEntity
    | RawBody(contentLength: int)                               // InputStreamEntity over the request body

  datatype TargetRequest = TargetRequest(verb: HttpMethod, uri: string, body: Body)

  /** How makeRequest ends. */
  datatype MakeOutcome =
    | Built(request: TargetRequest)
    | MalformedUrl                     // MalformedURLException from new URL(sURL)
    | UriSyntaxError                   // URISyntaxException, rethrown as IOException
    | NullMethod                       // switch on the null of an unknown method name
    | NotSupported(message: string)    // IllegalArgumentException
    | ContentTypeCrash                 // isFormContentType on a content type of ";" only

  /** The parts of the servlet request that makeRequest reads. */
  datatype IncomingRequest = IncomingRequest(
    methodName: string,
    contentType: Option<string>,
    characterEncoding: Option<string>,   // after setCharacterEncoding("UTF8")
    parameters: seq<Parameter>,
    contentLength: int)

  /** The form charset: the request's own when Charset.forName accepts it, else the configured default. */
  function FormCharset(encoding: Option<string>, supported: string -> bool, defaultCharset: string): string
  {
    if encoding.Some? && supported(encoding.value) then encoding.value else defaultCharset
  }

  function MakeRequestSpec(url: Option<UrlParts>, uriOk: bool, req: IncomingRequest,
                           supported: string -> bool, defaultCharset: string): MakeOutcome
  {
    if url.None? then MalformedUrl
    else if !uriOk then UriSyntaxError
    else
      var uri := BuildUri(url.value);
      match ResolveMethod(req.methodName)
      case None => NullMethod
      case Some(m) =>
        match m
        case GET => Built(TargetRequest(m, uri, NoBody))
        case HEAD => Built(TargetRequest(m, uri, NoBody))
        case OPTIONS => Built(TargetRequest(m, uri, NoBody))
        case TRACE => Built(TargetRequest(m, uri, NoBody))
        case DELETE => Built(TargetRequest(m, uri, NoBody))
        case PUT => Built(TargetRequest(m, uri, RawBody(req.contentLength)))
        case PATCH => NotSupported(MethodName(m) + " not yet supported")
        case POST =>
          match IsFormContentType(req.contentType)
          case IndexOutOfBounds => ContentTypeCrash
          case Normal(form) =>
            if form then
              Built(TargetRequest(m, uri, FormBody(Flatten(req.parameters),
                                                   FormCharset(req.characterEncoding, supported, defaultCharset))))
            else Built(TargetRequest(m, uri, RawBody(req.contentLength)))
  }

  /**
   * Proxy.makeRequest. `url` is new URL(sURL) (None: malformed) and `uriOk`
   * whether java.net.URI accepts the parts buildUri hands it. What the built
   * request holds is stated by MakeRequestBuilds and MakeRequestRefusals about
   * MakeRequestSpec.
   */
  method MakeRequest(url: Option<UrlParts>, uriOk: bool, req: IncomingRequest,
                     supported: string -> bool, defaultCharset: string) returns (r: MakeOutcome)
    ensures r == MakeRequestSpec(url, uriOk, req, supported, defaultCharset)
  {
    if url.None? {
      return MalformedUrl;
    }
    if !uriOk {
      return UriSyntaxError;
    }
    var uri := BuildUri(url.value);
    var meth := ResolveMethod(req.methodName);
    if meth.None? {
      return NullMethod;
    }
    match meth.value {
      case GET => r := Built(TargetRequest(GET, uri, NoBody));
      case POST =>
        var form := IsFormContentType(req.contentType);
        if form.IndexOutOfBounds? {
          return ContentTypeCrash;
        }
        if form.value {
          var parameters := FlattenParameters(req.parameters);
          var charset := FormCharset(req.characterEncoding, supported, defaultCharset);
          r := Built(TargetRequest(POST, uri, FormBody(parameters, charset)));
        } else {
          r := Built(TargetRequest(POST, uri, RawBody(req.contentLength)));
        }
      case TRACE => r := Built(TargetRequest(TRACE, uri, NoBody));
      case OPTIONS => r := Built(TargetRequest(OPTIONS, uri, NoBody));
      case HEAD => r := Built(TargetRequest(HEAD, uri, NoBody));
      case PUT => r := Built(TargetRequest(PUT, uri, RawBody(req.contentLength)));
      case DELETE => r := Built(TargetRequest(DELETE, uri, NoBody));
      case PATCH => r := NotSupported(MethodName(PATCH) + " not yet supported");
    }
  }

  /**
   * What makeRequest builds: the method named by the request, the rebuilt URI,
   * no entity for GET, HEAD, OPTIONS, TRACE and DELETE, the raw body for PUT and
   * for a POST that is not a form, and the flattened parameters for a form POST.
   */
  lemma MakeRequestBuilds(url: Option<UrlParts>, uriOk: bool, req: IncomingRequest,
                          supported: string -> bool, defaultCharset: string)
    ensures var r := MakeRequestSpec(url, uriOk, req, supported, defaultCharset);
            r.Built? ==>
              url.Some? && MethodName(r.request.verb) == req.methodName
              && r.request.uri == BuildUri(url.value)
              && (r.request.body.NoBody? <==> r.request.verb in {GET, HEAD, OPTIONS, TRACE, DELETE})
              && (r.request.body.RawBody? ==>
                    r.request.body.contentLength == req.contentLength
                    && (r.request.verb == PUT || IsFormContentType(req.contentType) == Normal(false)))
              && (r.request.body.FormBody? <==>
                    r.request.verb == POST && IsFormContentType(req.contentType) == Normal(true))
              && (r.request.body.FormBody? ==>
                    r.request.body.pairs == Flatten(req.parameters)
                    && r.request.body.charset == FormCharset(req.characterEncoding, supported, defaultCharset))
  {
  }

  /** Of the resolvable methods only PATCH is refused, and an unknown name fails on null. */
  lemma MakeRequestRefusals(url: UrlParts, req: IncomingRequest, supported: string -> bool, defaultCharset: string)
    ensures MakeRequestSpec(Some(url), true, req, supported, defaultCharset).NotSupported?
            <==> req.methodName == "PATCH"
    ensures MakeRequestSpec(Some(url), true, req, supported, defaultCharset) == NullMethod
            <==> ResolveMethod(req.methodName).None?
  {
  }

  /** The form charset is the request's own only when it is supported. */
  lemma FormCharsetChoice(encoding: Option<string>, supported: string -> bool, defaultCharset: string)
    ensures FormCharset(encoding, supported, defaultCharset) != defaultCharset ==>
              encoding.Some? && supported(encoding.value) && FormCharset(encoding, supported, defaultCharset) == encoding.value
    ensures encoding.None? ==> FormCharset(encoding, supported, defaultCharset) == defaultCharset
  {
  }
}
