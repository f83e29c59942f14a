/**
 * Proxy.doHandleRequestCharsetRequired: the body is copied to the client read by
 * read; while the declared content type names no charset, the bytes read are also
 * collected as characters, and once more than 200 have been collected the charset
 * is decided once (from the XML prolog, else Accept-Charset, else the configured
 * default) and announced with a rewritten Content-Type before that read is written.
 * Then the two streams are closed with Proxy.close.
 *
 * A read is a Chunk: InputStream.read into the 1024-byte buffer yields one to
 * 1024 bytes, or ends the loop. The chunks are the bytes of the (possibly
 * decoded) input stream; the codecs themselves are not part of this model.
 */
module Sniffer {
  import opened Common
  import opened Strings
  import opened Responses
  import opened Charset

  // ---------------------------------------------------------------------------
  // The bytes read and the text collected from them
  // ---------------------------------------------------------------------------

  type Chunk = c: seq<byte> | 0 < |c| <= 1024 witness [0]

  /** The loop collects text until it holds more than this many characters. */
  const SniffLength: nat := 200

  /** Java's (char) cast of a signed byte: bytes 128..255 are negative and sign-extend to U+FF80..U+FFFF. */
  function ByteToChar(b: byte): char {
    if b < 128 then b as int as char else (0xFF00 + b as int) as char
  }

  /** The cast loses nothing, and no byte outside ASCII can be read as part of an encoding attribute. */
  lemma ByteToCharFaithful(a: byte, b: byte)
    ensures ByteToChar(a) == ByteToChar(b) ==> a == b
    ensures b >= 128 ==> !CharsetChar(ByteToChar(b)) && !IsQuote(ByteToChar(b))
  {
  }

  function Chars(bytes: seq<byte>): (r: string)
    ensures |r| == |bytes|
  {
    seq(|bytes|, i requires 0 <= i < |bytes| => ByteToChar(bytes[i]))
  }

  /** All the bytes of the reads, in order. */
  function Bytes(chunks: seq<Chunk>): seq<byte>
    decreases |chunks|
  {
    if |chunks| == 0 then [] else Bytes(chunks[..|chunks| - 1]) + chunks[|chunks| - 1]
  }

  lemma {:induction false} BytesAppend(a: seq<Chunk>, b: seq<Chunk>)
    ensures Bytes(a + b) == Bytes(a) + Bytes(b)
    decreases |b|
  {
    if |b| > 0 {
      var b' := b[..|b| - 1];
      assert (a + b)[..|a + b| - 1] == a + b';
      BytesAppend(a, b');
    } else {
      assert a + b == a;
    }
  }

  /** More reads never give fewer bytes; every read adds at least one. */
  lemma BytesGrow(chunks: seq<Chunk>, i: nat, j: nat)
    requires i <= j <= |chunks|
    ensures |Bytes(chunks[..i])| + (j - i) <= |Bytes(chunks[..j])|
  {
    assert chunks[..j] == chunks[..i] + chunks[i..j];
    BytesAppend(chunks[..i], chunks[i..j]);
    BytesAtLeastCount(chunks[i..j]);
  }

  lemma {:induction false} BytesAtLeastCount(chunks: seq<Chunk>)
    ensures |Bytes(chunks)| >= |chunks|
    decreases |chunks|
  {
    if |chunks| > 0 {
      BytesAtLeastCount(chunks[..|chunks| - 1]);
    }
  }

  /**
   * The read during which the collected text first grows longer than 200
   * characters (one character per byte), if the body is that long.
   */
  function Crossing(chunks: seq<Chunk>): (k: Option<nat>)
    ensures k.None? <==> |Bytes(chunks)| <= SniffLength
    ensures k.Some? ==> k.value < |chunks|
    decreases |chunks|
  {
    if |Bytes(chunks)| <= SniffLength then None
    else
      var n := |chunks| - 1;
      if |Bytes(chunks[..n])| <= SniffLength then Some(n) else Crossing(chunks[..n])
  }

  /** At most 200 bytes came before the crossing read, and more than 200 with it. */
  lemma {:induction false} CrossingBounds(chunks: seq<Chunk>)
    requires Crossing(chunks).Some?
    ensures var k := Crossing(chunks).value;
            |Bytes(chunks[..k])| <= SniffLength < |Bytes(chunks[..k + 1])|
    decreases |chunks|
  {
    var n := |chunks| - 1;
    if |Bytes(chunks[..n])| <= SniffLength {
      assert chunks[..n + 1] == chunks;
    } else {
      var k := Crossing(chunks[..n]).value;
      CrossingBounds(chunks[..n]);
      assert chunks[..n][..k] == chunks[..k];
      assert chunks[..n][..k + 1] == chunks[..k + 1];
    }
  }

  /** The crossing read is the only read before which at most 200 bytes and after which more came. */
  lemma CrossingUnique(chunks: seq<Chunk>, k: nat)
    requires k < |chunks| && |Bytes(chunks[..k])| <= SniffLength < |Bytes(chunks[..k + 1])|
    ensures Crossing(chunks) == Some(k)
  {
    BytesGrow(chunks, k + 1, |chunks|);
    assert chunks[..|chunks|] == chunks;
    var k' := Crossing(chunks).value;
    CrossingBounds(chunks);
    if k' < k {
      BytesGrow(chunks, k' + 1, k);
    } else if k < k' {
      BytesGrow(chunks, k + 1, k');
    }
  }

  // ---------------------------------------------------------------------------
  // What the copy does to the client response
  // ---------------------------------------------------------------------------

  /** One write per read, in order. */
  function Writes(chunks: seq<Chunk>): (r: seq<Action>)
    ensures |r| == |chunks|
  {
    seq(|chunks|, i requires 0 <= i < |chunks| => Write(chunks[i]))
  }

  lemma WritesAppend(a: seq<Chunk>, b: seq<Chunk>)
    ensures Writes(a + b) == Writes(a) + Writes(b)
  {
  }

  /** The rewritten Content-Type and the matching character encoding. */
  function CharsetActions(contentType: string, charset: string): seq<Action> {
    [SetHeader("Content-Type", contentType + ";charset=" + charset), SetCharacterEncoding(charset)]
  }

  /** The calls on the response, and whether the copy stopped on the Accept-Charset failure. */
  datatype Relay = Relay(actions: seq<Action>, crashed: bool)

  /**
   * The copy as a whole: with a declared charset, or a body of at most 200 bytes,
   * every read is written as it is; otherwise the charset chosen from the first
   * k+1 reads is announced just before read k is written, unless choosing it
   * fails, which ends the copy there.
   */
  function SniffedRelay(contentType: string, chunks: seq<Chunk>, acceptCharset: Option<string>,
                        defaultCharset: string): Relay
  {
    if CharsetKnown(contentType) then Relay(Writes(chunks), false)
    else match Crossing(chunks)
      case None => Relay(Writes(chunks), false)
      case Some(k) => RelayFrom(contentType, chunks, k, acceptCharset, defaultCharset)
  }

  /** The copy once read k is known to be the one that takes the text past 200 characters. */
  function RelayFrom(contentType: string, chunks: seq<Chunk>, k: nat, acceptCharset: Option<string>,
                     defaultCharset: string): Relay
    requires k < |chunks|
  {
    match ChosenCharset(Chars(Bytes(chunks[..k + 1])), acceptCharset, defaultCharset)
    case IndexOutOfBounds => Relay(Writes(chunks[..k]), true)
    case Normal(charset) => Relay(AnnouncedTrace(contentType, chunks, k, charset, |chunks|), false)
  }

  /** The inner loop `s += (char) buf[i]` over one read. */
  method AppendChars(s: string, chunk: Chunk) returns (r: string)
    ensures r == s + Chars(chunk)
  {
    r := s;
    var j := 0;
    while j < |chunk|
      invariant 0 <= j <= |chunk|
      invariant r == s + Chars(chunk[..j])
    {
      assert Chars(chunk[..j + 1]) == Chars(chunk[..j]) + [ByteToChar(chunk[j])];
      r := r + [ByteToChar(chunk[j])];
      j := j + 1;
    }
    assert chunk[..j] == chunk;
  }

  /**
   * The charset decision once enough text is collected: getCharset, else
   * calculateDefaultCharset, else the default. When it fails, and what it picks, is
   * stated by Charset.ChosenCharsetFailure and Charset.GetCharsetMeaning.
   */
  method DecideCharset(s: string, acceptCharset: Option<string>, defaultCharset: string) returns (r: Outcome<string>)
    ensures r == ChosenCharset(s, acceptCharset, defaultCharset)
  {
    var charset := GetCharset(s);
    if charset.None? {
      var guessed := CalculateDefaultCharset(acceptCharset);
      if guessed.IndexOutOfBounds? {
        return IndexOutOfBounds;
      }
      return Normal(if guessed.value.Some? then guessed.value.value else defaultCharset);
    }
    return Normal(charset.value);
  }

  /** The calls made by the time read i is written, once the charset was announced before read k. */
  function AnnouncedTrace(contentType: string, chunks: seq<Chunk>, k: nat, charset: string, i: nat): seq<Action>
    requires k <= i <= |chunks|
  {
    Writes(chunks[..k]) + CharsetActions(contentType, charset) + Writes(chunks[k..i])
  }

  /** Writing read i extends the writes of reads a..i-1. */
  lemma WritesSnoc(chunks: seq<Chunk>, a: nat, i: nat)
    requires a <= i < |chunks|
    ensures Writes(chunks[a..i + 1]) == Writes(chunks[a..i]) + [Write(chunks[i])]
  {
    assert chunks[a..i + 1] == chunks[a..i] + [chunks[i]];
    WritesAppend(chunks[a..i], [chunks[i]]);
  }

  lemma AnnouncedTraceSnoc(contentType: string, chunks: seq<Chunk>, k: nat, charset: string, i: nat)
    requires k <= i < |chunks|
    ensures AnnouncedTrace(contentType, chunks, k, charset, i + 1)
            == AnnouncedTrace(contentType, chunks, k, charset, i) + [Write(chunks[i])]
  {
    WritesSnoc(chunks, k, i);
  }

  /** Right after the announcement nothing of the crossing read is written yet. */
  lemma AnnouncedTraceEmpty(contentType: string, chunks: seq<Chunk>, k: nat, charset: string)
    requires k <= |chunks|
    ensures AnnouncedTrace(contentType, chunks, k, charset, k) == Writes(chunks[..k]) + CharsetActions(contentType, charset)
  {
    assert chunks[k..k] == [];
  }

  lemma WritesPrefixSnoc(chunks: seq<Chunk>, i: nat)
    requires i < |chunks|
    ensures Writes(chunks[..i + 1]) == Writes(chunks[..i]) + [Write(chunks[i])]
  {
    WritesSnoc(chunks, 0, i);
    assert chunks[0..i] == chunks[..i] && chunks[0..i + 1] == chunks[..i + 1];
  }

  /** The text collected after read i is the text of reads 0..i. */
  lemma CollectedText(chunks: seq<Chunk>, i: nat)
    requires i < |chunks|
    ensures Chars(Bytes(chunks[..i + 1])) == Chars(Bytes(chunks[..i])) + Chars(chunks[i])
  {
    assert chunks[..i + 1][..i] == chunks[..i];
    assert Bytes(chunks[..i + 1]) == Bytes(chunks[..i]) + chunks[i];
  }

  /**
   * The announcement once enough text is collected: the charset from getCharset,
   * else calculateDefaultCharset, else the default, then the rewritten
   * Content-Type and setCharacterEncoding.
   */
  method Announce(resp: ClientResponse, contentType: string, s: string, acceptCharset: Option<string>,
                  defaultCharset: string) returns (chosen: Outcome<string>)
    modifies resp
    ensures chosen == ChosenCharset(s, acceptCharset, defaultCharset)
    ensures resp.actions == old(resp.actions) + (if chosen.Normal? then CharsetActions(contentType, chosen.value) else [])
  {
    chosen := DecideCharset(s, acceptCharset, defaultCharset);
    if chosen.Normal? {
      resp.SetHeader("Content-Type", contentType + ";charset=" + chosen.value);
      resp.SetCharacterEncoding(chosen.value);
    }
  }

  /** With a declared charset, or at most 200 bytes, every read is written as it is. */
  lemma SniffedRelayPlain(contentType: string, chunks: seq<Chunk>, acceptCharset: Option<string>,
                          defaultCharset: string)
    requires CharsetKnown(contentType) || |Bytes(chunks)| <= SniffLength
    ensures SniffedRelay(contentType, chunks, acceptCharset, defaultCharset) == Relay(Writes(chunks), false)
  {
  }

  /** When no charset can be chosen at the crossing read, the copy stops before writing it. */
  lemma SniffedRelayCrashed(contentType: string, chunks: seq<Chunk>, acceptCharset: Option<string>,
                            defaultCharset: string, k: nat)
    requires !CharsetKnown(contentType) && Crossing(chunks) == Some(k) && k < |chunks|
    requires ChosenCharset(Chars(Bytes(chunks[..k + 1])), acceptCharset, defaultCharset) == IndexOutOfBounds
    ensures SniffedRelay(contentType, chunks, acceptCharset, defaultCharset) == Relay(Writes(chunks[..k]), true)
  {
    SniffedRelayAtCrossing(contentType, chunks, acceptCharset, defaultCharset, k);
  }

  lemma SniffedRelayAtCrossing(contentType: string, chunks: seq<Chunk>, acceptCharset: Option<string>,
                               defaultCharset: string, k: nat)
    requires !CharsetKnown(contentType) && Crossing(chunks) == Some(k) && k < |chunks|
    ensures SniffedRelay(contentType, chunks, acceptCharset, defaultCharset)
            == RelayFrom(contentType, chunks, k, acceptCharset, defaultCharset)
  {
  }

  lemma RelayFromAnnounced(contentType: string, chunks: seq<Chunk>, k: nat, acceptCharset: Option<string>,
                           defaultCharset: string, charset: string)
    requires k < |chunks|
    requires ChosenCharset(Chars(Bytes(chunks[..k + 1])), acceptCharset, defaultCharset) == Normal(charset)
    ensures RelayFrom(contentType, chunks, k, acceptCharset, defaultCharset)
            == Relay(AnnouncedTrace(contentType, chunks, k, charset, |chunks|), false)
  {
  }

  /** Otherwise the chosen charset is announced right before the crossing read is written. */
  lemma SniffedRelayAnnounced(contentType: string, chunks: seq<Chunk>, acceptCharset: Option<string>,
                              defaultCharset: string, k: nat, charset: string)
    requires !CharsetKnown(contentType) && Crossing(chunks) == Some(k) && k < |chunks|
    requires ChosenCharset(Chars(Bytes(chunks[..k + 1])), acceptCharset, defaultCharset) == Normal(charset)
    ensures SniffedRelay(contentType, chunks, acceptCharset, defaultCharset)
            == Relay(AnnouncedTrace(contentType, chunks, k, charset, |chunks|), false)
  {
    SniffedRelayAtCrossing(contentType, chunks, acceptCharset, defaultCharset, k);
    RelayFromAnnounced(contentType, chunks, k, acceptCharset, defaultCharset, charset);
  }

  /** The three ways the copy can go, as the loop sees them. */
  lemma SniffedRelayCases(contentType: string, chunks: seq<Chunk>, acceptCharset: Option<string>,
                          defaultCharset: string, k: nat)
    ensures CharsetKnown(contentType) || |Bytes(chunks)| <= SniffLength ==>
              SniffedRelay(contentType, chunks, acceptCharset, defaultCharset) == Relay(Writes(chunks), false)
    ensures !CharsetKnown(contentType) && Crossing(chunks) == Some(k)
            && ChosenCharset(Chars(Bytes(chunks[..k + 1])), acceptCharset, defaultCharset) == IndexOutOfBounds ==>
              SniffedRelay(contentType, chunks, acceptCharset, defaultCharset) == Relay(Writes(chunks[..k]), true)
    ensures !CharsetKnown(contentType) && Crossing(chunks) == Some(k)
            && ChosenCharset(Chars(Bytes(chunks[..k + 1])), acceptCharset, defaultCharset).Normal? ==>
              var charset := ChosenCharset(Chars(Bytes(chunks[..k + 1])), acceptCharset, defaultCharset).value;
              SniffedRelay(contentType, chunks, acceptCharset, defaultCharset)
              == Relay(AnnouncedTrace(contentType, chunks, k, charset, |chunks|), false)
  {
    if CharsetKnown(contentType) || |Bytes(chunks)| <= SniffLength {
      SniffedRelayPlain(contentType, chunks, acceptCharset, defaultCharset);
    } else if Crossing(chunks) == Some(k) {
      var chosen := ChosenCharset(Chars(Bytes(chunks[..k + 1])), acceptCharset, defaultCharset);
      if chosen.Normal? {
        SniffedRelayAnnounced(contentType, chunks, acceptCharset, defaultCharset, k, chosen.value);
      } else {
        SniffedRelayCrashed(contentType, chunks, acceptCharset, defaultCharset, k);
      }
    }
  }

  /** The loop's state once it has announced `charset` at read k. */
  ghost predicate AnnouncedState(contentType: string, chunks: seq<Chunk>, acceptCharset: Option<string>,
                                 defaultCharset: string, k: nat, charset: string)
  {
    !CharsetKnown(contentType) && Crossing(chunks) == Some(k) && k < |chunks|
    && ChosenCharset(Chars(Bytes(chunks[..k + 1])), acceptCharset, defaultCharset) == Normal(charset)
  }

  /** The calls on the response after reads 0..i-1, before or after the announcement. */
  ghost function CopiedTrace(contentType: string, chunks: seq<Chunk>, announcedAt: bool, k: nat, charset: string,
                             i: nat): seq<Action>
    requires i <= |chunks| && (announcedAt ==> k <= i)
  {
    if announcedAt then AnnouncedTrace(contentType, chunks, k, charset, i) else Writes(chunks[..i])
  }

  lemma CopiedTraceSnoc(contentType: string, chunks: seq<Chunk>, announcedAt: bool, k: nat, charset: string, i: nat)
    requires i < |chunks| && (announcedAt ==> k <= i)
    ensures CopiedTrace(contentType, chunks, announcedAt, k, charset, i + 1)
            == CopiedTrace(contentType, chunks, announcedAt, k, charset, i) + [Write(chunks[i])]
  {
    if announcedAt {
      AnnouncedTraceSnoc(contentType, chunks, k, charset, i);
    } else {
      WritesPrefixSnoc(chunks, i);
    }
  }

  /** The trace at the announcement: the writes so far, then the two calls. */
  lemma CopiedTraceAnnounce(contentType: string, chunks: seq<Chunk>, k: nat, charset: string)
    requires k < |chunks|
    ensures CopiedTrace(contentType, chunks, true, k, charset, k)
            == CopiedTrace(contentType, chunks, false, 0, "", k) + CharsetActions(contentType, charset)
  {
    AnnouncedTraceEmpty(contentType, chunks, k, charset);
  }

  /** Where the loop ends up after the last read: the copy without or with the announcement. */
  lemma SniffedRelayFinish(contentType: string, chunks: seq<Chunk>, acceptCharset: Option<string>,
                           defaultCharset: string, announcedAt: bool, k: nat, charset: string)
    requires !announcedAt ==> CharsetKnown(contentType) || |Bytes(chunks[..|chunks|])| <= SniffLength
    requires announcedAt ==> AnnouncedState(contentType, chunks, acceptCharset, defaultCharset, k, charset)
    ensures !SniffedRelay(contentType, chunks, acceptCharset, defaultCharset).crashed
    ensures SniffedRelay(contentType, chunks, acceptCharset, defaultCharset).actions
            == CopiedTrace(contentType, chunks, announcedAt, k, charset, |chunks|)
  {
    assert chunks[..|chunks|] == chunks;
    if announcedAt {
      SniffedRelayAnnounced(contentType, chunks, acceptCharset, defaultCharset, k, charset);
    } else {
      SniffedRelayPlain(contentType, chunks, acceptCharset, defaultCharset);
    }
  }

  /**
   * The sniffing branch of the loop body for read i: append its text and, once
   * more than 200 characters are collected, announce the charset (`sniffed` is
   * the outcome of choosing it, None while the text is still short).
   */
  method SniffRead(resp: ClientResponse, contentType: string, chunks: seq<Chunk>, i: nat, s: string,
                   acceptCharset: Option<string>, defaultCharset: string) returns (collected: string, sniffed: Option<Outcome<string>>)
    requires i < |chunks| && |Bytes(chunks[..i])| <= SniffLength && s == Chars(Bytes(chunks[..i]))
    modifies resp
    ensures collected == Chars(Bytes(chunks[..i + 1]))
    ensures sniffed.None? ==> |Bytes(chunks[..i + 1])| <= SniffLength && resp.actions == old(resp.actions)
    ensures sniffed.Some? ==>
              Crossing(chunks) == Some(i)
              && sniffed.value == ChosenCharset(Chars(Bytes(chunks[..i + 1])), acceptCharset, defaultCharset)
              && resp.actions == old(resp.actions)
                                 + (if sniffed.value.Normal? then CharsetActions(contentType, sniffed.value.value) else [])
  {
    collected := AppendChars(s, chunks[i]);
    CollectedText(chunks, i);
    sniffed := None;
    if |collected| > SniffLength {
      CrossingUnique(chunks, i);
      var chosen := Announce(resp, contentType, collected, acceptCharset, defaultCharset);
      sniffed := Some(chosen);
    }
  }

  /**
   * The loop's state before read i: while `first`, the text of the reads so far
   * (at most 200 characters unless the type names a charset) and their writes;
   * afterwards the announcement at read k and the writes since.
   */
  ghost predicate CopyState(contentType: string, chunks: seq<Chunk>, acceptCharset: Option<string>, defaultCharset: string,
                            i: nat, first: bool, s: string, k: nat, announced: string, trace: seq<Action>)
  {
    i <= |chunks|
    && (first ==> k == 0 && announced == "" && (CharsetKnown(contentType) || |Bytes(chunks[..i])| <= SniffLength))
    && (first && !CharsetKnown(contentType) ==> s == Chars(Bytes(chunks[..i])))
    && (!first ==> k < i && AnnouncedState(contentType, chunks, acceptCharset, defaultCharset, k, announced))
    && trace == CopiedTrace(contentType, chunks, !first, k, announced, i)
  }

  /**
   * One pass of the loop body for read i: sniff while `first` and no charset is
   * declared, then write the read. `added` are the calls made on `resp`; when
   * choosing the charset fails the pass stops before writing.
   */
  method CopyRead(resp: ClientResponse, contentType: string, chunks: seq<Chunk>, acceptCharset: Option<string>,
                  defaultCharset: string, isCharsetKnown: bool, i: nat, first: bool, s: string,
                  ghost k: nat, ghost announced: string, ghost trace: seq<Action>)
    returns (crashed: bool, first': bool, s': string, ghost k': nat, ghost announced': string, ghost added: seq<Action>)
    requires i < |chunks| && isCharsetKnown == CharsetKnown(contentType)
    requires CopyState(contentType, chunks, acceptCharset, defaultCharset, i, first, s, k, announced, trace)
    modifies resp
    ensures resp.actions == old(resp.actions) + added
    ensures crashed ==> added == [] && SniffedRelay(contentType, chunks, acceptCharset, defaultCharset) == Relay(trace, true)
    ensures !crashed ==> CopyState(contentType, chunks, acceptCharset, defaultCharset, i + 1, first', s', k', announced',
                                   trace + added)
  {
    first', s', k', announced' := first, s, k, announced;
    added := [];
    if first && !isCharsetKnown {
      var sniffed;
      s', sniffed := SniffRead(resp, contentType, chunks, i, s, acceptCharset, defaultCharset);
      if sniffed.Some? {
        if sniffed.value.IndexOutOfBounds? {
          SniffedRelayCrashed(contentType, chunks, acceptCharset, defaultCharset, i);
          return true, first', s', k', announced', added;
        }
        CopiedTraceAnnounce(contentType, chunks, i, sniffed.value.value);
        first', k', announced', added := false, i, sniffed.value.value, CharsetActions(contentType, sniffed.value.value);
      }
    }
    resp.Write(chunks[i]);
    CopiedTraceSnoc(contentType, chunks, !first', k', announced', i);
    AppendAssociates(trace, added, [Write(chunks[i])]);
    added := added + [Write(chunks[i])];
    crashed := false;
  }

  /** The sniffing loop of doHandleRequestCharsetRequired, writing through `resp`. */
  method CopySniffingCharset(resp: ClientResponse, contentType: string, chunks: seq<Chunk>,
                             acceptCharset: Option<string>, defaultCharset: string) returns (crashed: bool)
    modifies resp
    ensures resp.actions == old(resp.actions) + SniffedRelay(contentType, chunks, acceptCharset, defaultCharset).actions
    ensures crashed == SniffedRelay(contentType, chunks, acceptCharset, defaultCharset).crashed
  {
    var isCharsetKnown := CharsetKnown(contentType);
    var first := true;
    var s: string := "";
    ghost var start := resp.actions;
    ghost var k: nat := 0;
    ghost var announced: string := "";
    ghost var trace: seq<Action> := [];
    var i := 0;
    while i < |chunks|
      invariant CopyState(contentType, chunks, acceptCharset, defaultCharset, i, first, s, k, announced, trace)
      invariant resp.actions == start + trace
    {
      ghost var added;
      crashed, first, s, k, announced, added :=
        CopyRead(resp, contentType, chunks, acceptCharset, defaultCharset, isCharsetKnown, i, first, s, k, announced, trace);
      AppendAssociates(start, trace, added);
      if crashed {
        return;
      }
      trace := trace + added;
      i := i + 1;
    }
    SniffedRelayFinish(contentType, chunks, acceptCharset, defaultCharset, !first, k, announced);
    return false;
  }

  // ---------------------------------------------------------------------------
  // What the client receives
  // ---------------------------------------------------------------------------

  /** The bytes of the body as the client receives them: the payloads of the writes, in order. */
  function WrittenBytes(actions: seq<Action>): seq<byte>
    decreases |actions|
  {
    if |actions| == 0 then []
    else WrittenBytes(actions[..|actions| - 1])
         + (match actions[|actions| - 1] case Write(b) => b case _ => [])
  }

  lemma {:induction false} WrittenBytesAppend(a: seq<Action>, b: seq<Action>)
    ensures WrittenBytes(a + b) == WrittenBytes(a) + WrittenBytes(b)
    decreases |b|
  {
    if |b| > 0 {
      assert (a + b)[..|a + b| - 1] == a + b[..|b| - 1];
      WrittenBytesAppend(a, b[..|b| - 1]);
    } else {
      assert a + b == a;
    }
  }

  lemma {:induction false} WrittenBytesOfWrites(chunks: seq<Chunk>)
    ensures WrittenBytes(Writes(chunks)) == Bytes(chunks)
    decreases |chunks|
  {
    if |chunks| > 0 {
      var n := |chunks| - 1;
      assert Writes(chunks)[..n] == Writes(chunks[..n]);
      WrittenBytesOfWrites(chunks[..n]);
    }
  }

  predicate SetsContentType(a: Action) {
    a.SetHeader? && a.name == "Content-Type"
  }

  /** The announcement writes nothing and sets Content-Type once. */
  lemma AnnouncementContents(contentType: string, charset: string)
    ensures WrittenBytes(CharsetActions(contentType, charset)) == []
    ensures ContentTypeSets(CharsetActions(contentType, charset)) == 1
  {
    var a := CharsetActions(contentType, charset);
    assert a[..|a| - 1] == [a[0]] && [a[0]][..0] == [];
    assert WrittenBytes([a[0]]) == [];
    assert ContentTypeSets([a[0]]) == 1;
  }

  /** Writes around actions that write nothing carry the two parts of the body back to back. */
  lemma WrittenBytesAround(before: seq<Action>, middle: seq<Action>, after: seq<Action>)
    requires WrittenBytes(middle) == []
    ensures WrittenBytes(before + middle + after) == WrittenBytes(before) + WrittenBytes(after)
  {
    WrittenBytesAppend(before + middle, after);
    WrittenBytesAppend(before, middle);
    assert WrittenBytes(before) + [] == WrittenBytes(before);
  }

  /** With the announcement, the writes still carry the whole body. */
  lemma AnnouncedTraceBytes(contentType: string, chunks: seq<Chunk>, k: nat, charset: string)
    requires k <= |chunks|
    ensures WrittenBytes(AnnouncedTrace(contentType, chunks, k, charset, |chunks|)) == Bytes(chunks)
  {
    var before, after := chunks[..k], chunks[k..];
    SplitAt(chunks, k);
    AnnouncementContents(contentType, charset);
    calc {
      WrittenBytes(AnnouncedTrace(contentType, chunks, k, charset, |chunks|));
      WrittenBytes(Writes(before) + CharsetActions(contentType, charset) + Writes(after));
      { WrittenBytesAround(Writes(before), CharsetActions(contentType, charset), Writes(after)); }
      WrittenBytes(Writes(before)) + WrittenBytes(Writes(after));
      { WrittenBytesOfWrites(before); WrittenBytesOfWrites(after); }
      Bytes(before) + Bytes(after);
      { BytesAppend(before, after); }
      Bytes(chunks);
    }
  }

  /** With the announcement, Content-Type is set once. */
  lemma AnnouncedTraceSetsOnce(contentType: string, chunks: seq<Chunk>, k: nat, charset: string)
    requires k <= |chunks|
    ensures ContentTypeSets(AnnouncedTrace(contentType, chunks, k, charset, |chunks|)) == 1
  {
    var announce := CharsetActions(contentType, charset);
    var head := Writes(chunks[..k]) + announce;
    SplitAt(chunks, k);
    AnnouncementContents(contentType, charset);
    ContentTypeSetsOfWrites(chunks[..k]);
    ContentTypeSetsOfWrites(chunks[k..]);
    ContentTypeSetsAppend(Writes(chunks[..k]), announce);
    ContentTypeSetsAppend(head, Writes(chunks[k..]));
  }

  /** How many times the actions set the Content-Type header. */
  function ContentTypeSets(actions: seq<Action>): nat
    decreases |actions|
  {
    if |actions| == 0 then 0
    else ContentTypeSets(actions[..|actions| - 1])
         + (if SetsContentType(actions[|actions| - 1]) then 1 else 0)
  }

  lemma {:induction false} ContentTypeSetsAppend(a: seq<Action>, b: seq<Action>)
    ensures ContentTypeSets(a + b) == ContentTypeSets(a) + ContentTypeSets(b)
    decreases |b|
  {
    if |b| > 0 {
      assert (a + b)[..|a + b| - 1] == a + b[..|b| - 1];
      ContentTypeSetsAppend(a, b[..|b| - 1]);
    } else {
      assert a + b == a;
    }
  }

  lemma {:induction false} ContentTypeSetsOfWrites(chunks: seq<Chunk>)
    ensures ContentTypeSets(Writes(chunks)) == 0
    decreases |chunks|
  {
    if |chunks| > 0 {
      var n := |chunks| - 1;
      assert Writes(chunks)[..n] == Writes(chunks[..n]);
      ContentTypeSetsOfWrites(chunks[..n]);
    }
  }

  /**
   * Every byte read reaches the client once and in order; when choosing the
   * charset fails, exactly the bytes before the crossing read do.
   */
  lemma SniffedBytesForwarded(contentType: string, chunks: seq<Chunk>, acceptCharset: Option<string>,
                              defaultCharset: string)
    ensures var relay := SniffedRelay(contentType, chunks, acceptCharset, defaultCharset);
            !relay.crashed ==> WrittenBytes(relay.actions) == Bytes(chunks)
    ensures var relay := SniffedRelay(contentType, chunks, acceptCharset, defaultCharset);
            relay.crashed ==> Crossing(chunks).Some? && WrittenBytes(relay.actions) == Bytes(chunks[..Crossing(chunks).value])
  {
    WrittenBytesOfWrites(chunks);
    if !CharsetKnown(contentType) && Crossing(chunks).Some? {
      var k := Crossing(chunks).value;
      WrittenBytesOfWrites(chunks[..k]);
      SniffedRelayCases(contentType, chunks, acceptCharset, defaultCharset, k);
      var chosen := ChosenCharset(Chars(Bytes(chunks[..k + 1])), acceptCharset, defaultCharset);
      if chosen.Normal? {
        AnnouncedTraceBytes(contentType, chunks, k, chosen.value);
      }
    }
  }

  /**
   * Content-Type is rewritten at most once, and it is rewritten exactly when the
   * declared type names no charset, more than 200 bytes came, and choosing the
   * charset did not fail.
   */
  lemma SniffedContentTypeSetOnce(contentType: string, chunks: seq<Chunk>, acceptCharset: Option<string>,
                                  defaultCharset: string)
    ensures var relay := SniffedRelay(contentType, chunks, acceptCharset, defaultCharset);
            ContentTypeSets(relay.actions) <= 1
            && (ContentTypeSets(relay.actions) == 1
                <==> !CharsetKnown(contentType) && |Bytes(chunks)| > SniffLength && !relay.crashed)
  {
    ContentTypeSetsOfWrites(chunks);
    if !CharsetKnown(contentType) && Crossing(chunks).Some? {
      var k := Crossing(chunks).value;
      ContentTypeSetsOfWrites(chunks[..k]);
      SniffedRelayCases(contentType, chunks, acceptCharset, defaultCharset, k);
      var chosen := ChosenCharset(Chars(Bytes(chunks[..k + 1])), acceptCharset, defaultCharset);
      if chosen.Normal? {
        AnnouncedTraceSetsOnce(contentType, chunks, k, chosen.value);
      }
    }
  }

  /** The copy never touches the status: the client keeps the servlet's default. */
  lemma SniffedNeverSetsStatus(contentType: string, chunks: seq<Chunk>, acceptCharset: Option<string>,
                               defaultCharset: string)
    ensures var relay := SniffedRelay(contentType, chunks, acceptCharset, defaultCharset);
            forall a :: a in relay.actions ==> !a.SetStatus? && !a.SendError?
  {
    if CharsetKnown(contentType) || |Bytes(chunks)| <= SniffLength {
      SniffedRelayPlain(contentType, chunks, acceptCharset, defaultCharset);
    } else {
      var k := Crossing(chunks).value;
      var chosen := ChosenCharset(Chars(Bytes(chunks[..k + 1])), acceptCharset, defaultCharset);
      if chosen.Normal? {
        SniffedRelayAnnounced(contentType, chunks, acceptCharset, defaultCharset, k, chosen.value);
      } else {
        SniffedRelayCrashed(contentType, chunks, acceptCharset, defaultCharset, k);
      }
    }
  }

  /**
   * The usual case: an XML document without declared charset whose first read
   * holds more than 200 bytes and its prolog gets the prolog's charset announced
   * before any byte is written.
   */
  lemma SniffedCharsetFromProlog(contentType: string, chunks: seq<Chunk>, acceptCharset: Option<string>,
                                 defaultCharset: string, charset: string)
    requires !CharsetKnown(contentType)
    requires |chunks| > 0 && |chunks[0]| > SniffLength
    requires GetCharset(Chars(chunks[0])) == Some(charset)
    ensures SniffedRelay(contentType, chunks, acceptCharset, defaultCharset)
            == Relay(CharsetActions(contentType, charset) + Writes(chunks), false)
  {
    assert chunks[..1] == [chunks[0]];
    assert chunks[..0] == [];
    assert Bytes(chunks[..1]) == chunks[0];
    CrossingUnique(chunks, 0);
    assert chunks[0..] == chunks;
  }

  // ---------------------------------------------------------------------------
  // Proxy.close and the finally block
  // ---------------------------------------------------------------------------

  datatype IOError = IOError(message: string)

  /** A stream whose close() either succeeds or throws `failure`. */
  class Channel {
    var open: bool
    const failure: Option<IOError>

    constructor (failure: Option<IOError>)
      ensures open && this.failure == failure
    {
      open := true;
      this.failure := failure;
    }

    method Close() returns (thrown: Option<IOError>)
      modifies this
      ensures !open && thrown == failure
    {
      open := false;
      thrown := failure;
    }
  }

  /**
   * Proxy.close(stream, previousExceptions...): a null stream is skipped; the
   * result is the first of the previous exceptions whenever one was passed (even
   * a null one), otherwise what close() threw, if anything.
   */
  method CloseStream(stream: Channel?, previous: seq<Option<IOError>>) returns (r: Option<IOError>)
    modifies stream
    ensures stream != null ==> !stream.open
    ensures |previous| > 0 ==> r == previous[0]
    ensures |previous| == 0 ==> r == (if stream == null then None else stream.failure)
  {
    if stream != null {
      var thrown := stream.Close();
      if thrown.Some? {
        if |previous| > 0 {
          return previous[0];
        }
        return thrown;
      }
    }
    if |previous| > 0 {
      return previous[0];
    }
    return None;
  }

  /**
   * The finally block as written: close(streamFromServer), then
   * close(streamToClient, exc), whose varargs array always has one element, so
   * only the first stream's failure can ever be reported.
   */
  method CloseBoth(fromServer: Channel?, toClient: Channel?) returns (exc: Option<IOError>)
    modifies fromServer, toClient
    ensures fromServer != null ==> !fromServer.open
    ensures toClient != null ==> !toClient.open
    ensures exc == (if fromServer == null then None else fromServer.failure)
  {
    exc := CloseStream(fromServer, []);
    exc := CloseStream(toClient, [exc]);
  }

  /** A server stream that closes cleanly hides the failure of the client stream. */
  method CloseBothLosesClientFailure() returns (exc: Option<IOError>, clientFailure: Option<IOError>)
    ensures exc.None? && clientFailure.Some?
  {
    var fromServer := new Channel(None);
    var toClient := new Channel(Some(IOError("Broken pipe")));
    exc := CloseBoth(fromServer, toClient);
    clientFailure := toClient.failure;
  }

  /**
   * The finally block as evidently intended: both streams are closed and the
   * first failure is reported, whichever stream it came from.
   */
  method CloseBothReportingFirst(fromServer: Channel?, toClient: Channel?) returns (exc: Option<IOError>)
    modifies fromServer, toClient
    ensures fromServer != null ==> !fromServer.open
    ensures toClient != null ==> !toClient.open
    ensures fromServer != null && fromServer.failure.Some? ==> exc == fromServer.failure
    ensures (fromServer == null || fromServer.failure.None?) ==> exc == (if toClient == null then None else toClient.failure)
    ensures exc.None? <==> (fromServer == null || fromServer.failure.None?) && (toClient == null || toClient.failure.None?)
  {
    exc := CloseStream(fromServer, []);
    var second := CloseStream(toClient, []);
    if exc.None? {
      exc := second;
    }
  }

  // ---------------------------------------------------------------------------
  // doHandleRequestCharsetRequired
  // ---------------------------------------------------------------------------

  /** The body as doHandleRequestCharsetRequired relays it, by the stream choice. */
  function CharsetRequiredRelay(backend: BackendResponse, contentType: string, entity: Option<seq<byte>>,
                                chunks: seq<Chunk>, acceptCharset: Option<string>, defaultCharset: string): Relay
  {
    var encoding := ContentEncodingSpec(HeadersNamed(backend.headers, ContentEncodingHeader));
    match SelectTransfer(encoding, CharsetKnown(contentType))
    case Direct => Relay(DirectActions(backend.status, entity), false)
    case Sniffed(_) => SniffedRelay(contentType, chunks, acceptCharset, defaultCharset)
  }

  /** Whether doHandleRequestCharsetRequired opens (and therefore closes) the two streams. */
  predicate OpensStreams(backend: BackendResponse, contentType: string) {
    SelectTransfer(ContentEncodingSpec(HeadersNamed(backend.headers, ContentEncodingHeader)), CharsetKnown(contentType)).Sniffed?
  }

  /**
   * Proxy.doHandleRequestCharsetRequired for a response whose entity declares
   * `contentType`: an unknown Content-Encoding of a body without declared charset
   * goes to doHandleRequest with no stream opened; otherwise the body, read as
   * `chunks` from `fromServer`, is copied by the sniffing loop to `toClient`, and
   * both streams are closed whatever happened. `crashed` says that choosing the
   * charset threw, which the method does not catch.
   */
  method DoHandleRequestCharsetRequired(resp: ClientResponse, backend: BackendResponse, contentType: string,
                                        entity: Option<seq<byte>>, chunks: seq<Chunk>,
                                        acceptCharset: Option<string>, defaultCharset: string,
                                        fromServer: Channel, toClient: Channel)
    returns (crashed: bool, closeError: Option<IOError>)
    modifies resp, fromServer, toClient
    ensures resp.actions == old(resp.actions)
                            + CharsetRequiredRelay(backend, contentType, entity, chunks, acceptCharset, defaultCharset).actions
    ensures crashed == CharsetRequiredRelay(backend, contentType, entity, chunks, acceptCharset, defaultCharset).crashed
    ensures !OpensStreams(backend, contentType) ==>
              closeError.None? && fromServer.open == old(fromServer.open) && toClient.open == old(toClient.open)
    ensures OpensStreams(backend, contentType) ==>
              !fromServer.open && !toClient.open && closeError == fromServer.failure
  {
    var isCharsetKnown := CharsetKnown(contentType);
    var contentEncoding := GetContentEncoding(HeadersNamed(backend.headers, ContentEncodingHeader));
    var transfer := SelectTransfer(contentEncoding, isCharsetKnown);
    if transfer.Direct? {
      DoHandleRequest(resp, backend.status, entity);
      closeError := CloseBoth(null, null);
      return false, closeError;
    }
    crashed := CopySniffingCharset(resp, contentType, chunks, acceptCharset, defaultCharset);
    closeError := CloseBoth(fromServer, toClient);
  }
}
