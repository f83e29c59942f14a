# geOrchestra security proxy: routing, guards and response relay

The security proxy (`org.georchestra.security.Proxy`) sits in front of the
geOrchestra web applications. This Dafny project models what the proxy does
between receiving a client's request and finishing the client's response:

- **Routing.** A request path `/key/rest` is mapped to the configured target URL
  for `key`, joined with `rest` (`findTarget`, `concat`). `buildForwardRequestURL`
  collapses `//`. `findMatchingTarget` and `splitRequestPath` recover the key
  from a request.
- **Guards.**
  - The recursion check: `filter` and `isRecursiveCallToProxy`.
  - The protected-URL test that decides whether a CAS ticket must be validated:
    `samePathPrefix` and `urlIsProtected`.
  - The CAS login redirect.
  - The two entry points, `handlePathEncodedRequests` and `handleUrlParamRequest`.
- **Content-type predicates:** `testLegalContentType`,
  `isCharsetRequiredForContentType` and `isFormContentType`.
- **Request construction:** `buildUri`, and `makeRequest` with its per-method
  bodies and its flattening of form parameters.
- **Response relay.**
  - The error-status branch of `handleRequest` (401, 403/404 with the GeoNetwork
    `Set-Cookie` salvage), which uses `extractHeaderSetCookie`.
  - The rewriting of `Location` headers on 301/302: `adjustLocation` and
    `copyLocationHeaders`.
  - The two body paths. `doHandleRequest` copies the entity directly.
    `doHandleRequestCharsetRequired` selects the streams, then runs a sniffing loop
    that reads the body chunk by chunk. Once more than 200 characters have been
    read, the loop announces a charset taken from the XML prolog (`getCharset`),
    else from the Accept-Charset header (`calculateDefaultCharset`), else from the
    configured default. It then closes both streams with `close`.

The servlet response is a class, `Responses.ClientResponse`, whose state is the
sequence of calls made on it (set or add a header, set the status, send an
error, set the character encoding, write bytes). Every method that acts on the
response is proved to append exactly the calls described by a specification
function. Lemmas about those functions state what the client receives:

- the bytes written;
- how often `Content-Type` is set;
- whether the backend's status is relayed;
- one `Location` header per backend `Location` header.

Java's library semantics are written out in `Strings`:

- `String.split` drops trailing empty fields and keeps interior ones;
  `StringUtils.split` drops all empty fields.
- `replaceAll("//", "/")` is one left-to-right pass.
- `equalsIgnoreCase` is case-insensitive comparison (ASCII letters only; see
  Left out).

Runtime exceptions that the source does not catch are modelled as an explicit
`Outcome.IndexOutOfBounds` result. These include element 0 of an
all-separator split, `charAt(0)` on an empty path, and reading past the
request's segments. What `java.net.URL`/`URI` parsing, DNS and `Charset.forName`
decide is passed in as parameters.

Modules, in dependency order:

- `Common`: `Option`, `Outcome`.
- `Strings`: Java string operations.
- `Routing`.
- `ContentTypes`.
- `Guards`.
- `Forwarding`: `buildUri` and `makeRequest`.
- `Responses`: the response class, the status branch and `Location` rewriting.
- `Charset`: `getCharset`, `calculateDefaultCharset`, `getContentEncoding` and
  stream selection.
- `Sniffer`: the sniffing loop, stream closing and `doHandleRequestCharsetRequired`.
- `Proxy`: the tail of `handleRequest` as a whole.

## Model

All paths are in `security-proxy/src/main/java/org/georchestra/security/`.

| member | source | states |
|---|---|---|
| Strings.ReplaceDoubleSlashLeavesNoDouble | security-proxy/src/main/java/org/georchestra/security/Proxy.java:456-461 | one pass of replaceAll("//", "/") leaves no "//" when the input has no "///" |
| Strings.ReplaceDoubleSlashKeepsSegments | security-proxy/src/main/java/org/georchestra/security/Proxy.java:456-461 | collapsing "//" does not change the non-empty "/"-segments of the path |
| Strings.DecimalRoundTrip | security-proxy/src/main/java/org/georchestra/security/Proxy.java:876-877 | the decimal text of the port (String.valueOf) parses back to the same number |
| Routing.ForwardRequestUri | security-proxy/src/main/java/org/georchestra/security/Proxy.java:456-461 | buildForwardRequestURL keeps a non-empty URI non-empty, keeps its non-empty segments, and leaves no "//" unless the input had "///" |
| Routing.ForwardRequestUriIsSinglePass | security-proxy/src/main/java/org/georchestra/security/Proxy.java:458 | the replacement is a single pass: "///" becomes "//" and "/k///a" becomes "/k//a" |
| Routing.FindTarget | security-proxy/src/main/java/org/georchestra/security/Proxy.java:530-574 | the segment loop with its StringBuilder and concat computes findTarget's result for every non-empty request URI |
| Routing.BuildRestPath | security-proxy/src/main/java/org/georchestra/security/Proxy.java:545-555 | the builder holds "/" followed by the segments after the key joined by "/", plus a "/" when the request ends with "/" and the builder does not |
| Routing.FindTargetRoutes | security-proxy/src/main/java/org/georchestra/security/Proxy.java:530-574 | for a mapped key k, "/k/p" goes to the base URL with at most one trailing "/" removed, then "/" + p; a trailing "/" on the request is kept |
| Routing.FindTargetBareKey | security-proxy/src/main/java/org/georchestra/security/Proxy.java:530-574 | "/k" goes to the base URL (without its trailing "/") + "/" |
| Routing.FindTargetUnmapped | security-proxy/src/main/java/org/georchestra/security/Proxy.java:538-543 | an unmapped first segment gives null, with or without a rest |
| Routing.SplitRequestPath | security-proxy/src/main/java/org/georchestra/security/Proxy.java:422-430 | stripping the leading "/" before StringUtils.split changes nothing: the result is the path's non-empty segments, none containing "/" |
| Routing.FindMatchingTarget | security-proxy/src/main/java/org/georchestra/security/Proxy.java:576-589 | the result is the request's first non-empty segment when that is a configured key, else null; a result is always a configured, non-empty key without "/" |
| Routing.MatchingTargetIsRoutingKey | security-proxy/src/main/java/org/georchestra/security/Proxy.java:530-589 | for "/k/p" and "/k", findMatchingTarget returns the key findTarget routes through |
| ContentTypes.TestLegalContentType | security-proxy/src/main/java/org/georchestra/security/Proxy.java:438-452 | the loop over the configured entries computes: a null content type passes; otherwise refused exactly when no entry differs from the type before ";" |
| ContentTypes.LegalContentTypeEmptyConfiguration | security-proxy/src/main/java/org/georchestra/security/Proxy.java:444-451 | with no configured entries, every content type with a type part is refused |
| ContentTypes.LegalContentTypeTwoDistinctEntries | security-proxy/src/main/java/org/georchestra/security/Proxy.java:444-451 | two distinct configured entries mean nothing is ever refused |
| ContentTypes.LegalContentTypeOfType | security-proxy/src/main/java/org/georchestra/security/Proxy.java:438-452 | "t;params" is refused iff every configured entry equals t, case-sensitively |
| ContentTypes.LegalContentTypeSemicolons | security-proxy/src/main/java/org/georchestra/security/Proxy.java:444 | a content type made only of ";" makes split(";")[0] fail |
| ContentTypes.IsCharsetRequiredForContentType | security-proxy/src/main/java/org/georchestra/security/Proxy.java:1262-1275 | the loop computes: false for null, else whether some entry equals the type before ";" ignoring case |
| ContentTypes.CharsetRequiredOfType | security-proxy/src/main/java/org/georchestra/security/Proxy.java:1262-1275 | "t;params" requires a charset iff some entry equals t ignoring case |
| ContentTypes.NotCharsetRequiredIsPermitted | security-proxy/src/main/java/org/georchestra/security/Proxy.java:438-452 | with a non-empty configuration, a content type that needs no charset is never refused by testLegalContentType |
| ContentTypes.FormContentTypeOfType | security-proxy/src/main/java/org/georchestra/security/Proxy.java:1005-1012 | isFormContentType compares the trimmed type before ";" with application/x-www-form-urlencoded ignoring case; the parameters never matter |
| Guards.Filter | security-proxy/src/main/java/org/georchestra/security/Proxy.java:1277-1286 | filter keeps the non-empty strings, in order |
| Guards.IsRecursiveCallToProxy | security-proxy/src/main/java/org/georchestra/security/Proxy.java:1292-1311 | the match &= loop is true iff the URI has at least as many non-empty segments as the context path and each context segment equals the URI's at the same index, ignoring case |
| Guards.RecursiveCallReflexive | security-proxy/src/main/java/org/georchestra/security/Proxy.java:1292-1311 | every path is a recursive call with respect to itself |
| Guards.RecursiveCallEmptyContext | security-proxy/src/main/java/org/georchestra/security/Proxy.java:1292-1311 | a context path with no segments makes every call recursive |
| Guards.RecursiveCallBelowContext | security-proxy/src/main/java/org/georchestra/security/Proxy.java:1292-1311 | any path below the context path is recursive |
| Guards.RecursiveCallNeedsEnoughSegments | security-proxy/src/main/java/org/georchestra/security/Proxy.java:1299-1301 | fewer segments than the context path is never recursive |
| Guards.SamePathPrefix | security-proxy/src/main/java/org/georchestra/security/Proxy.java:411-420 | the loop is true when the target's segments start the request's, false at the first differing segment, and fails when it reads past the request's segments |
| Guards.UrlIsProtected | security-proxy/src/main/java/org/georchestra/security/Proxy.java:374-385 | false off this server; otherwise the first answer of samePathPrefix that is true, or a failure, over the targets in order |
| Guards.AnyTargetPrefixMeaning | security-proxy/src/main/java/org/georchestra/security/Proxy.java:374-385 | true only if some target's segments start the URL's; false only if none does; no failure when no samePathPrefix fails |
| Guards.UrlIsProtectedByTarget | security-proxy/src/main/java/org/georchestra/security/Proxy.java:374-385 | in a list of targets, a target whose segments start the URL's protects it when every target listed before it answers false rather than failing |
| Guards.UrlOnOtherServerNotProtected | security-proxy/src/main/java/org/georchestra/security/Proxy.java:375 | a URL on another server is never protected |
| Guards.SamePathPrefixReadsPastRequest | security-proxy/src/main/java/org/georchestra/security/Proxy.java:411-420 | request ["app"] against target path "/app/sub" reads past the request's segments |
| Guards.SamePathPrefixChecked | security-proxy/src/main/java/org/georchestra/security/Proxy.java:411-420 | the bounds-checked prefix test: true iff the target's segments start the request's, agreeing with samePathPrefix wherever that does not fail |
| Guards.CasLoginUrlLosesLoginParameter | security-proxy/src/main/java/org/georchestra/security/Proxy.java:513-514 | without a query the login URL is pathInfo + "?login"; with one, no "?" is added, so "login" is glued to the query |
| Guards.CasLoginUrlIntended | security-proxy/src/main/java/org/georchestra/security/Proxy.java:510-514 | the login URL the comment describes: path + "?" + a query whose parameters are the original ones followed by "login" |
| Guards.HandlePathEncoded | security-proxy/src/main/java/org/georchestra/security/Proxy.java:467-524 | the outcome of handlePathEncodedRequests; a forwarded URL carries the request's query after "?"; its meaning is stated by the PathEncoded lemmas below |
| Guards.PathEncodedUnmappedIsNotFound | security-proxy/src/main/java/org/georchestra/security/Proxy.java:474-479 | an unmapped first segment ends with 404 and no 403 |
| Guards.PathEncodedRecursiveStillForwards | security-proxy/src/main/java/org/georchestra/security/Proxy.java:497-520 | a recursive call to the same host and port gets the 403 and is still forwarded to the target, with the query, when no CAS login is due |
| Guards.PathEncodedTicketRedirects | security-proxy/src/main/java/org/georchestra/security/Proxy.java:502-516 | a ticket without a principal, to a protected URL, is redirected to the (as-written) login URL |
| Guards.PathEncodedRecursive403 | security-proxy/src/main/java/org/georchestra/security/Proxy.java:469-500 | the 403 is sent exactly when the request is mapped, its target URL parses, the URL is on this host and port, and the forwarded URI or the target path lies below the servlet and context path |
| Guards.PathEncodedForwards | security-proxy/src/main/java/org/georchestra/security/Proxy.java:474-520 | a mapped "/k/p" whose target URL parses and needs no CAS login is forwarded to findTarget's URL plus "?" and the query, with the 403 exactly for a recursive call to this host and port |
| Guards.PathEncodedForwardsWithout403 | security-proxy/src/main/java/org/georchestra/security/Proxy.java:474-520 | a mapped request whose target is on another host or port, with no CAS ticket pending, is forwarded with no 403 |
| Guards.HandleUrlParam | security-proxy/src/main/java/org/georchestra/security/Proxy.java:310-330 | forwarded to exactly sURL iff the content type is permitted, the URL parses and no permission denies it |
| Forwarding.BuildUriRoundTrip | security-proxy/src/main/java/org/georchestra/security/Proxy.java:862-886 | parsing protocol://host[:port]path[?query] gives back every part of the URL except user-info and fragment |
| Forwarding.BuildUriDropsUserInfoAndFragment | security-proxy/src/main/java/org/georchestra/security/Proxy.java:862-886 | the built URI does not depend on user-info or fragment |
| Forwarding.Pairs | security-proxy/src/main/java/org/georchestra/security/Proxy.java:912-920 | one name/value pair per value of a parameter, in order |
| Forwarding.FlattenParameters | security-proxy/src/main/java/org/georchestra/security/Proxy.java:912-920 | the nested loop builds the pairs of every parameter, parameter by parameter |
| Forwarding.FlattenKeepsValues | security-proxy/src/main/java/org/georchestra/security/Proxy.java:912-920 | with distinct names, the values flattened under a name are exactly that parameter's values, in order |
| Forwarding.NoValuesForAbsentName | security-proxy/src/main/java/org/georchestra/security/Proxy.java:912-920 | a name no parameter has gets no values |
| Forwarding.ResolveMethod | security-proxy/src/main/java/org/georchestra/security/Proxy.java:894 | HttpMethod.resolve returns a method only for its exact name |
| Forwarding.ResolveMethodName | security-proxy/src/main/java/org/georchestra/security/Proxy.java:894 | every method's name resolves back to it |
| Forwarding.MakeRequest | security-proxy/src/main/java/org/georchestra/security/Proxy.java:888-996 | makeRequest's outcome for each method and failure |
| Forwarding.MakeRequestBuilds | security-proxy/src/main/java/org/georchestra/security/Proxy.java:888-996 | a built request has the client's method and the buildUri URI; no body exactly for GET/HEAD/OPTIONS/TRACE/DELETE; a form body exactly for a form POST, holding all parameters and the chosen charset; a raw body keeps the content length |
| Forwarding.MakeRequestRefusals | security-proxy/src/main/java/org/georchestra/security/Proxy.java:894-986 | PATCH, and only PATCH, is "not yet supported"; a name that does not resolve fails on the switch over null |
| Forwarding.FormCharsetChoice | security-proxy/src/main/java/org/georchestra/security/Proxy.java:921-929 | the form charset is the request's own when Charset.forName accepts it, else the default |
| Responses.ClientResponse.SetHeader | security-proxy/src/main/java/org/georchestra/security/Proxy.java:698 | appends one header-set call to the response |
| Responses.ClientResponse.AddHeader | security-proxy/src/main/java/org/georchestra/security/Proxy.java:711 | appends one header-add call |
| Responses.ClientResponse.SendError | security-proxy/src/main/java/org/georchestra/security/Proxy.java:714 | appends one sendError call |
| Responses.ClientResponse.SetStatus | security-proxy/src/main/java/org/georchestra/security/Proxy.java:848 | appends one setStatus call |
| Responses.ClientResponse.SetCharacterEncoding | security-proxy/src/main/java/org/georchestra/security/Proxy.java:1137 | appends one setCharacterEncoding call |
| Responses.ClientResponse.Write | security-proxy/src/main/java/org/georchestra/security/Proxy.java:1153 | appends one write of the given bytes |
| Responses.FirstHeaderNamedIsEarliest | security-proxy/src/main/java/org/georchestra/security/Proxy.java:697 | the first header with a name (ignoring case) is the earliest such header, and none means there is no such header |
| Responses.HeadersNamed | security-proxy/src/main/java/org/georchestra/security/Proxy.java:778 | getHeaders(name) returns only headers of the backend with that name |
| Responses.ExtractHeaderSetCookie | security-proxy/src/main/java/org/georchestra/security/Proxy.java:763-770 | the loop returns the first Set-Cookie header, name compared ignoring case |
| Responses.RelayErrorStatus | security-proxy/src/main/java/org/georchestra/security/Proxy.java:687-716 | the error branch appends its calls and ends the request exactly for 403/404 with a reason phrase |
| Responses.StatusBranchNeedsReasonAndError | security-proxy/src/main/java/org/georchestra/security/Proxy.java:687 | without a reason phrase or below 400, the branch does nothing |
| Responses.Status401 | security-proxy/src/main/java/org/georchestra/security/Proxy.java:693-699 | a 401 sets WWW-Authenticate from the backend's first such header, else to the default realm, and continues |
| Responses.Status403Or404 | security-proxy/src/main/java/org/georchestra/security/Proxy.java:703-715 | a 403/404 ends with sendError(status); a Set-Cookie header is added before it iff the URL contains /geonetwork/ and the backend sent one |
| Responses.StatusRedirectPassesThrough | security-proxy/src/main/java/org/georchestra/security/Proxy.java:687-722 | 301/302 are not touched by the error branch |
| Responses.CopyLocationHeaders | security-proxy/src/main/java/org/georchestra/security/Proxy.java:777-781 | adds each backend Location header unchanged, in order |
| Responses.CopiedHeadersAt | security-proxy/src/main/java/org/georchestra/security/Proxy.java:777-781 | the i-th added header is the i-th Location header |
| Responses.AdjustLocation | security-proxy/src/main/java/org/georchestra/security/Proxy.java:783-837 | the loop appends exactly adjustLocation's headers |
| Responses.LocationOnePerHeader | security-proxy/src/main/java/org/georchestra/security/Proxy.java:783-837 | one Location header per backend Location header, in order, each either copied unchanged or a proxy-relative "/..." value |
| Responses.LocationCopiedWithoutBase | security-proxy/src/main/java/org/georchestra/security/Proxy.java:787-806 | without a matching key, or with a base URL that does not parse, every Location header is copied unchanged |
| Responses.RewrittenLocationRoutesBack | security-proxy/src/main/java/org/georchestra/security/Proxy.java:812-822 | a location resolved inside a base URL ending in "/" is rewritten to "/key/rest", which findTarget routes back to the resolved URL |
| Responses.DoHandleRequest | security-proxy/src/main/java/org/georchestra/security/Proxy.java:842-860 | sets the backend's status, then writes the entity if there is one |
| Charset.CharsetRun | security-proxy/src/main/java/org/georchestra/security/Proxy.java:1212 | the longest prefix made of [A-Za-z0-9._-] |
| Charset.FindEncodingLeftmost | security-proxy/src/main/java/org/georchestra/security/Proxy.java:1206-1224 | the search finds nothing iff no occurrence from the start index; otherwise the run after the leftmost occurrence |
| Charset.GetCharsetMeaning | security-proxy/src/main/java/org/georchestra/security/Proxy.java:1206-1224 | null iff no `encoding=` + quote + letter occurs; otherwise the maximal name after the leftmost occurrence, starting with a letter, without quotes |
| Charset.GetCharsetOfProlog | security-proxy/src/main/java/org/georchestra/security/Proxy.java:1206-1224 | `encoding="UTF-8"?>` gives UTF-8 |
| Charset.DefaultCharsetIsFirstListed | security-proxy/src/main/java/org/georchestra/security/Proxy.java:1168-1178 | the default charset is the Accept-Charset text before the first comma |
| Charset.DefaultCharsetFails | security-proxy/src/main/java/org/georchestra/security/Proxy.java:1174 | split(",")[0] fails exactly on a non-empty header of commas only |
| Charset.ChosenCharsetFailure | security-proxy/src/main/java/org/georchestra/security/Proxy.java:1104-1147 | the sniffed charset wins; else the Accept-Charset prefix, else the default; choosing fails exactly when nothing is found and Accept-Charset is commas only |
| Charset.GetContentEncoding | security-proxy/src/main/java/org/georchestra/security/Proxy.java:1235-1254 | the loop returns the value of the first Content-Encoding header, or null |
| Charset.ContentEncodingOfSelected | security-proxy/src/main/java/org/georchestra/security/Proxy.java:1055 | pre-selecting the Content-Encoding headers does not change the result |
| Charset.TransferChoice | security-proxy/src/main/java/org/georchestra/security/Proxy.java:1052-1083 | the body goes to doHandleRequest iff an encoding is declared, no charset is known and the encoding is not gzip/x-gzip/deflate; a known charset always uses the plain streams |
| Charset.TransferIgnoresCase | security-proxy/src/main/java/org/georchestra/security/Proxy.java:1063-1083 | the stream choice ignores the case of the encoding |
| Sniffer.ByteToCharFaithful | security-proxy/src/main/java/org/georchestra/security/Proxy.java:1095 | the (char) cast of a byte is injective, and a byte >= 128 never becomes a charset-name character or a quote |
| Sniffer.Chars | security-proxy/src/main/java/org/georchestra/security/Proxy.java:1094-1097 | one character per byte read |
| Sniffer.BytesAppend | security-proxy/src/main/java/org/georchestra/security/Proxy.java:1090-1154 | the bytes of consecutive reads concatenate |
| Sniffer.Crossing | security-proxy/src/main/java/org/georchestra/security/Proxy.java:1099 | the read that takes the collected text past 200 characters: none iff the body has at most 200 bytes, otherwise the unique read before which there were at most 200 and after which more |
| Sniffer.CrossingUnique | security-proxy/src/main/java/org/georchestra/security/Proxy.java:1099 | any read with that property is the crossing read |
| Sniffer.CrossingBounds | security-proxy/src/main/java/org/georchestra/security/Proxy.java:1099 | before the crossing read the collected text has at most 200 characters, after it more than 200 |
| Sniffer.AppendChars | security-proxy/src/main/java/org/georchestra/security/Proxy.java:1094-1097 | the inner loop appends the read's characters to the collected text |
| Sniffer.DecideCharset | security-proxy/src/main/java/org/georchestra/security/Proxy.java:1104-1132 | chooses the charset as ChosenCharset says |
| Sniffer.SniffRead | security-proxy/src/main/java/org/georchestra/security/Proxy.java:1092-1147 | one read in the sniffing phase appends its characters; it decides nothing while the text stays at most 200 characters, and at the crossing read it announces exactly ChosenCharset's answer |
| Sniffer.CopyRead | security-proxy/src/main/java/org/georchestra/security/Proxy.java:1090-1153 | one pass of the read loop appends exactly the calls SniffedRelay makes for that read, and fails only where SniffedRelay fails |
| Sniffer.CopySniffingCharset | security-proxy/src/main/java/org/georchestra/security/Proxy.java:1085-1154 | the loop's calls on the response are exactly SniffedRelay's, and it fails exactly when SniffedRelay does |
| Sniffer.WrittenBytesOfWrites | security-proxy/src/main/java/org/georchestra/security/Proxy.java:1153 | writing every read writes the bytes of the reads in order |
| Sniffer.SniffedBytesForwarded | security-proxy/src/main/java/org/georchestra/security/Proxy.java:1085-1154 | unless choosing the charset fails, the client receives exactly the bytes read, in order; if it fails, exactly the bytes before the crossing read |
| Sniffer.SniffedContentTypeSetOnce | security-proxy/src/main/java/org/georchestra/security/Proxy.java:1085-1154 | Content-Type is set at most once, and once exactly when no charset was declared, the body exceeds 200 bytes and choosing did not fail |
| Sniffer.SniffedRelayCases | security-proxy/src/main/java/org/georchestra/security/Proxy.java:1088-1154 | with a declared charset or at most 200 bytes the reads are written as they are; otherwise the announcement comes right before the crossing read is written |
| Sniffer.SniffedNeverSetsStatus | security-proxy/src/main/java/org/georchestra/security/Proxy.java:1021-1166 | the sniffing path never sets a status or sends an error |
| Sniffer.SniffedCharsetFromProlog | security-proxy/src/main/java/org/georchestra/security/Proxy.java:1085-1154 | a first read of over 200 bytes with an XML encoding announces that charset before anything is written |
| Sniffer.Channel.Close | security-proxy/src/main/java/org/georchestra/security/Proxy.java:1183 | a stream is closed, and its close error is thrown |
| Sniffer.CloseStream | security-proxy/src/main/java/org/georchestra/security/Proxy.java:1180-1195 | close closes a non-null stream and returns the first previous exception if any was passed, else the stream's own error |
| Sniffer.CloseBoth | security-proxy/src/main/java/org/georchestra/security/Proxy.java:1160-1161 | both streams are closed; the reported error is the server stream's, whatever the client stream does |
| Sniffer.CloseBothLosesClientFailure | security-proxy/src/main/java/org/georchestra/security/Proxy.java:1160-1161 | a client stream failing to close while the server stream closes is not reported |
| Sniffer.CloseBothReportingFirst | security-proxy/src/main/java/org/georchestra/security/Proxy.java:1159-1165 | closing both and reporting the first error: none is reported iff neither stream fails |
| Sniffer.DoHandleRequestCharsetRequired | security-proxy/src/main/java/org/georchestra/security/Proxy.java:1021-1166 | direct copy or sniffing copy as the stream choice says; the streams are closed only when they were opened, and the server stream's close error is reported |
| Proxy.ResponseRelayPassed | security-proxy/src/main/java/org/georchestra/security/Proxy.java:719-737 | after the error branch lets a response through: a failing charset test ends there, otherwise doHandleRequest or doHandleRequestCharsetRequired follows the Location headers |
| Proxy.RelayResponse | security-proxy/src/main/java/org/georchestra/security/Proxy.java:683-737 | handleRequest's calls on the response, from the backend's answer on |
| Proxy.HeadersBeforeBody | security-proxy/src/main/java/org/georchestra/security/Proxy.java:687-722 | the error branch writes no body and the Location rewriting only adds headers |
| Proxy.ErrorPageHidesBody | security-proxy/src/main/java/org/georchestra/security/Proxy.java:703-716 | a 403/404 with a reason ends with sendError(status) and writes none of the backend's body |
| Proxy.PrefixWritesNothing | security-proxy/src/main/java/org/georchestra/security/Proxy.java:687-722 | the error branch and the Location rewriting write no byte of the body |
| Proxy.DirectActionsContents | security-proxy/src/main/java/org/georchestra/security/Proxy.java:842-860 | doHandleRequest sets the backend's status and writes exactly the entity, or nothing without one |
| Proxy.PlainBodyRelayedIntact | security-proxy/src/main/java/org/georchestra/security/Proxy.java:732-737 | when no charset is required, the client gets the backend's status and exactly its entity |
| Proxy.SniffedBodyRelayedIntact | security-proxy/src/main/java/org/georchestra/security/Proxy.java:732-737 | when the body is sniffed, the client gets exactly the bytes read unless choosing the charset failed, and its status is never set from the backend's |

## Left out

- HTTP execution is a parameter: the HTTP client, timeouts, the route planner, `executeHttpRequest` and closing the client. The backend's answer (`BackendResponse`, `BackendBody`) is an input.
- The servlet request/response objects and the Spring request mappings are left out. The response is the list of calls made on it. `sendRedirect` of the CAS login is the `LoginRedirect` outcome.
- `isSameServer`'s DNS lookup is left out. The proxy's `sameServer` answer is a boolean input.
- `new URL(..)` is a parameter (`parseUrl`, `urlParses`). So are `new URI(..)` and `URI.resolve` (`Responses.UriLibrary`). `Forwarding.ParseUri` is only the inverse of `buildUri`'s text, not RFC 2396 parsing. The path encoding of the `URI` constructor is taken to leave the path unchanged.
- `Charset.forName` is an input predicate (`supported`).
- The GZIP and Deflate codecs are tags (`Charset.Codec`). No compression is modelled, and `DeflaterInputStream` compressing rather than inflating is not captured. A read failure simply ends the chunk list. Write failures and the `IOException` caught around the sniffing loop are not modelled.
- `copyResponseHeaders` of the header-management strategy is left out, as are the `Host` override, the request-filtering strategy and the permission lists. Permissions are the `denied` input of `HandleUrlParam`.
- Left out: `init`, the setters, the statistics logging, the loggers, `ServicesMonitoring` and `Gateway`. So is mapfishapp's `GEOR_workspace.js`.
- Case folding in `equalsIgnoreCase`/`toLowerCase` covers ASCII letters only.
- The 503 for an unknown host in `handlePathEncodedRequests` is not modelled: `isSameServer` catches `UnknownHostException` itself, so that branch cannot be reached.
- A configured target URL that does not parse inside `samePathPrefix` is not modelled. `targetPaths` are the paths of the configured targets, taken in the map's iteration order.
- `makeRequest` reads the request's character encoding after `setCharacterEncoding("UTF8")`. It is an input (`IncomingRequest.characterEncoding`).
- Routing.FindTarget, Routing.FindMatchingTarget, Responses.AdjustLocation and Proxy.RelayResponse require a non-empty request URI. `charAt(0)` fails on an empty one, and a servlet request URI always starts with "/". `Guards.HandlePathEncoded` models the empty case as `Crashed`.
- Routing.FindTargetRoutes covers rests that do not end in "//". `String.split` drops the trailing empty segments of such rests, and `Routing.FindTargetSpec` computes that case without a separate lemma.
- Sniffer.DoHandleRequestCharsetRequired does not set the backend's status on the sniffing path, as in the source. The client gets the servlet default.

## Findings

The request pipelines (`Guards.HandlePathEncoded`, `Guards.UrlIsProtected`, `Sniffer.DoHandleRequestCharsetRequired`) keep the behaviour as written, because they model what the proxy does. Each corrected member is proved on its own and stands beside them.

| source | as written | input that shows it | evidently intended | confidence | as-written member | corrected member |
|---|---|---|---|---|---|---|
| security-proxy/src/main/java/org/georchestra/security/Proxy.java:411-420 | the loop indexes `requestSegments[i]` for every target segment | request path "/app" with a target URL whose path is "/app/sub": ArrayIndexOutOfBoundsException, not caught by handlePathEncodedRequests | false: the URL is not below the target | high, not executed | Guards.SamePathPrefixReadsPastRequest | Guards.SamePathPrefixChecked |
| security-proxy/src/main/java/org/georchestra/security/Proxy.java:513-514 | `pathInfo + (empty(query) ? "?" : query) + "login"` | pathInfo "/x", query "a=b": "/xa=blogin" | "/x?a=b&login", as the comment at line 510 says | high, not executed | Guards.CasLoginUrlLosesLoginParameter | Guards.CasLoginUrlIntended |
| security-proxy/src/main/java/org/georchestra/security/Proxy.java:1160-1161 | `close(streamToClient, exc)` with `exc == null` passes a one-element array holding null | server stream closes, client stream's close throws: nothing is logged | the client stream's error is reported when the server stream had none | high, not executed | Sniffer.CloseBothLosesClientFailure | Sniffer.CloseBothReportingFirst |
