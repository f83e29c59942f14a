/**
 * The tail of Proxy.handleRequest once the backend has answered: the error-status
 * branch, the Location rewriting of redirects, then the body, either through
 * doHandleRequestCharsetRequired or through doHandleRequest, depending on the
 * configured requireCharsetContentTypes.
 */
module Proxy {
  import opened Common
  import opened Strings
  import opened Routing
  import opened ContentTypes
  import opened Responses
  import opened Charset
  import opened Sniffer

  /** What the backend sent beyond its status line and headers. */
  datatype BackendBody = BackendBody(
    contentType: Option<string>,   // the entity's Content-Type value, if any
    entity: Option<seq<byte>>,      // the entity as doHandleRequest copies it
    chunks: seq<Chunk>)             // the entity as the sniffing loop reads it

  /** The part of the configuration and of the client's request the tail reads. */
  datatype Context = Context(
    sUrl: string,
    requestUri: string,
    targets: map<string, string>,
    requireCharsetContentTypes: seq<string>,
    acceptCharset: Option<string>,
    defaultCharset: string,
    uris: UriLibrary)

  /** The Location headers adjustLocation adds, for a 301 or 302 only. */
  function LocationPart(backend: BackendResponse, ctx: Context): seq<Action>
    requires |ctx.requestUri| > 0
  {
    if backend.status == 302 || backend.status == 301
    then LocationActions(ctx.targets, ctx.requestUri, backend.headers, ctx.uris) else []
  }

  /** The three ways the tail can go once the error branch has let the response through. */
  lemma ResponseRelayPassed(backend: BackendResponse, body: BackendBody, ctx: Context)
    requires |ctx.requestUri| > 0 && !StatusEndsRequest(backend)
    ensures var prefix := StatusActions(backend, ctx.sUrl) + LocationPart(backend, ctx);
            var required := CharsetRequiredSpec(body.contentType, ctx.requireCharsetContentTypes);
            (required.IndexOutOfBounds? ==> ResponseRelay(backend, body, ctx) == Relay(prefix, true))
            && (required == Normal(false) ==>
                  ResponseRelay(backend, body, ctx) == Relay(prefix + DirectActions(backend.status, body.entity), false))
            && (required == Normal(true) ==>
                  body.contentType.Some?
                  && var relay := CharsetRequiredRelay(backend, body.contentType.value, body.entity, body.chunks,
                                                       ctx.acceptCharset, ctx.defaultCharset);
                     ResponseRelay(backend, body, ctx) == Relay(prefix + relay.actions, relay.crashed))
  {
  }

  /**
   * Everything the tail does to the client's response, and whether a runtime
   * exception (element 0 of an empty split) escaped it.
   */
  function ResponseRelay(backend: BackendResponse, body: BackendBody, ctx: Context): Relay
    requires |ctx.requestUri| > 0
  {
    var status := StatusActions(backend, ctx.sUrl);
    if StatusEndsRequest(backend) then Relay(status, false)
    else
      var location := LocationPart(backend, ctx);
      match CharsetRequiredSpec(body.contentType, ctx.requireCharsetContentTypes)
      case IndexOutOfBounds => Relay(status + location, true)
      case Normal(false) => Relay(status + location + DirectActions(backend.status, body.entity), false)
      case Normal(true) =>
        var relay := CharsetRequiredRelay(backend, body.contentType.value, body.entity, body.chunks,
                                          ctx.acceptCharset, ctx.defaultCharset);
        Relay(status + location + relay.actions, relay.crashed)
  }

  /**
   * Proxy.handleRequest from the backend's answer on. The streams closed by
   * doHandleRequestCharsetRequired are `fromServer` and `toClient`.
   */
  method RelayResponse(resp: ClientResponse, backend: BackendResponse, body: BackendBody, ctx: Context,
                       fromServer: Channel, toClient: Channel) returns (crashed: bool)
    requires |ctx.requestUri| > 0
    modifies resp, fromServer, toClient
    ensures resp.actions == old(resp.actions) + ResponseRelay(backend, body, ctx).actions
    ensures crashed == ResponseRelay(backend, body, ctx).crashed
  {
    ghost var start := resp.actions;
    var finished := RelayErrorStatus(resp, backend, ctx.sUrl);
    if finished {
      assert ResponseRelay(backend, body, ctx) == Relay(StatusActions(backend, ctx.sUrl), false);
      return false;
    }
    ghost var prefix := StatusActions(backend, ctx.sUrl) + LocationPart(backend, ctx);
    if backend.status == 302 || backend.status == 301 {
      AdjustLocation(resp, ctx.targets, ctx.requestUri, backend.headers, ctx.uris);
      AppendAssociates(start, StatusActions(backend, ctx.sUrl), LocationPart(backend, ctx));
    } else {
      assert prefix == StatusActions(backend, ctx.sUrl);
    }
    assert resp.actions == start + prefix;
    ResponseRelayPassed(backend, body, ctx);
    var required := IsCharsetRequiredForContentType(body.contentType, ctx.requireCharsetContentTypes);
    if required.IndexOutOfBounds? {
      return true;
    }
    if required.value {
      ghost var relay := CharsetRequiredRelay(backend, body.contentType.value, body.entity, body.chunks,
                                              ctx.acceptCharset, ctx.defaultCharset);
      ghost var before := resp.actions;
      var closeError;
      crashed, closeError := DoHandleRequestCharsetRequired(resp, backend, body.contentType.value, body.entity, body.chunks,
                                                            ctx.acceptCharset, ctx.defaultCharset, fromServer, toClient);
      assert resp.actions == before + relay.actions;
      AppendAssociates(start, prefix, relay.actions);
    } else {
      DoHandleRequest(resp, backend.status, body.entity);
      crashed := false;
      AppendAssociates(start, prefix, DirectActions(backend.status, body.entity));
    }
  }

  // ---------------------------------------------------------------------------
  // Properties of the whole relay
  // ---------------------------------------------------------------------------

  lemma {:induction false} WrittenBytesWithoutWrites(actions: seq<Action>)
    requires forall a :: a in actions ==> !a.Write?
    ensures WrittenBytes(actions) == []
    decreases |actions|
  {
    if |actions| > 0 {
      var n := |actions| - 1;
      assert actions[n] in actions;
      assert forall a :: a in actions[..n] ==> a in actions;
      WrittenBytesWithoutWrites(actions[..n]);
    }
  }

  /** The error branch and the Location rewriting only set or add headers or send an error. */
  lemma HeadersBeforeBody(backend: BackendResponse, ctx: Context)
    requires |ctx.requestUri| > 0
    ensures forall a :: a in StatusActions(backend, ctx.sUrl) ==> !a.Write?
    ensures forall a :: a in LocationActions(ctx.targets, ctx.requestUri, backend.headers, ctx.uris) ==> a.AddHeader?
  {
    var locations := HeadersNamed(backend.headers, "Location");
    forall i | 0 <= i < |locations| ensures CopiedHeaders(locations)[i].AddHeader? {
      CopiedHeadersAt(locations, i);
    }
  }

  /**
   * A 403 or 404 with a reason phrase ends with sendError of that status and
   * nothing of the backend's body reaches the client.
   */
  lemma ErrorPageHidesBody(backend: BackendResponse, body: BackendBody, ctx: Context)
    requires |ctx.requestUri| > 0
    requires backend.reason.Some? && (backend.status == 403 || backend.status == 404)
    ensures var relay := ResponseRelay(backend, body, ctx);
            !relay.crashed && |relay.actions| > 0 && relay.actions[|relay.actions| - 1] == SendError(backend.status)
            && WrittenBytes(relay.actions) == []
  {
    HeadersBeforeBody(backend, ctx);
    WrittenBytesWithoutWrites(StatusActions(backend, ctx.sUrl));
  }

  /** The error branch and the Location rewriting write no byte of the body. */
  lemma PrefixWritesNothing(backend: BackendResponse, ctx: Context)
    requires |ctx.requestUri| > 0
    ensures WrittenBytes(StatusActions(backend, ctx.sUrl) + LocationPart(backend, ctx)) == []
  {
    HeadersBeforeBody(backend, ctx);
    WrittenBytesWithoutWrites(StatusActions(backend, ctx.sUrl) + LocationPart(backend, ctx));
  }

  /** doHandleRequest sets the status and writes exactly the entity. */
  lemma DirectActionsContents(status: int, entity: Option<seq<byte>>)
    ensures SetStatus(status) in DirectActions(status, entity)
    ensures WrittenBytes(DirectActions(status, entity)) == if entity.Some? then entity.value else []
  {
    var head: seq<Action> := [SetStatus(status)];
    var tail: seq<Action> := if entity.Some? then [Write(entity.value)] else [];
    assert head[..0] == [] && WrittenBytes(head) == [];
    if entity.Some? {
      assert tail[..0] == [] && WrittenBytes(tail) == entity.value;
    }
    WrittenBytesAppend(head, tail);
  }

  /**
   * When the content type does not require a charset, the client gets the
   * backend's status and exactly the backend's entity.
   */
  lemma PlainBodyRelayedIntact(backend: BackendResponse, body: BackendBody, ctx: Context)
    requires |ctx.requestUri| > 0
    requires !StatusEndsRequest(backend)
    requires CharsetRequiredSpec(body.contentType, ctx.requireCharsetContentTypes) == Normal(false)
    ensures var relay := ResponseRelay(backend, body, ctx);
            !relay.crashed && SetStatus(backend.status) in relay.actions
            && WrittenBytes(relay.actions) == (if body.entity.Some? then body.entity.value else [])
  {
    ResponseRelayPassed(backend, body, ctx);
    var prefix := StatusActions(backend, ctx.sUrl) + LocationPart(backend, ctx);
    PrefixWritesNothing(backend, ctx);
    DirectActionsContents(backend.status, body.entity);
    WrittenBytesAppend(prefix, DirectActions(backend.status, body.entity));
  }

  /**
   * When the content type requires a charset and the body goes through the
   * sniffing loop, every byte read reaches the client unless choosing the
   * charset failed, and the client's status is never set from the backend's.
   */
  lemma SniffedBodyRelayedIntact(backend: BackendResponse, body: BackendBody, ctx: Context)
    requires |ctx.requestUri| > 0
    requires !StatusEndsRequest(backend)
    requires CharsetRequiredSpec(body.contentType, ctx.requireCharsetContentTypes) == Normal(true)
    requires SelectTransfer(ContentEncodingSpec(HeadersNamed(backend.headers, ContentEncodingHeader)),
                            CharsetKnown(body.contentType.value)).Sniffed?
    ensures var relay := ResponseRelay(backend, body, ctx);
            (!relay.crashed ==> WrittenBytes(relay.actions) == Bytes(body.chunks))
            && forall a :: a in relay.actions ==> !a.SetStatus?
  {
    HeadersBeforeBody(backend, ctx);
    var status := StatusActions(backend, ctx.sUrl);
    var location := if backend.status == 302 || backend.status == 301
                    then LocationActions(ctx.targets, ctx.requestUri, backend.headers, ctx.uris) else [];
    var sniffed := SniffedRelay(body.contentType.value, body.chunks, ctx.acceptCharset, ctx.defaultCharset);
    WrittenBytesWithoutWrites(status + location);
    WrittenBytesAppend(status + location, sniffed.actions);
    SniffedBytesForwarded(body.contentType.value, body.chunks, ctx.acceptCharset, ctx.defaultCharset);
    SniffedNeverSetsStatus(body.contentType.value, body.chunks, ctx.acceptCharset, ctx.defaultCharset);
    assert forall a :: a in status ==> !a.SetStatus?;
  }
}
