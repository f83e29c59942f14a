/**
 * The helpers doHandleRequestCharsetRequired relies on: Proxy.getCharset (the
 * encoding="..." attribute of an XML prolog), calculateDefaultCharset (the first
 * entry of the Accept-Charset request header), getContentEncoding, and the choice
 * of stream wrappers made from the Content-Encoding and the declared content type.
 */
module Charset {
  import opened Common
  import opened Strings
  import opened Responses

  // ---------------------------------------------------------------------------
  // getCharset: the pattern encoding=(['"])([A-Za-z]([A-Za-z0-9._]|-)*)
  // ---------------------------------------------------------------------------

  predicate IsQuote(c: char) {
    c == '\'' || c == '"'
  }

  /** The first character of a charset name: an ASCII letter. */
  predicate CharsetStart(c: char) {
    'A' <= c <= 'Z' || 'a' <= c <= 'z'
  }

  /** Any later character of a charset name: a letter, a digit, '.', '_' or '-'. */
  predicate CharsetChar(c: char) {
    CharsetStart(c) || '0' <= c <= '9' || c == '.' || c == '_' || c == '-'
  }

  const EncodingAttribute: string := "encoding="

  /** The pattern matches at index i: "encoding=", a quote, then a letter. */
  predicate EncodingAt(s: string, i: nat) {
    i + 11 <= |s| && s[i..i + 9] == EncodingAttribute && IsQuote(s[i + 9]) && CharsetStart(s[i + 10])
  }

  /** The greedy `([A-Za-z0-9._]|-)*` part: the longest prefix of charset characters. */
  function CharsetRun(t: string): (r: string)
    ensures |r| <= |t| && r == t[..|r|]
    ensures forall k :: 0 <= k < |r| ==> CharsetChar(r[k])
    ensures |r| == |t| || !CharsetChar(t[|r|])
    decreases |t|
  {
    if |t| > 0 && CharsetChar(t[0]) then [t[0]] + CharsetRun(t[1..]) else []
  }

  /** Matcher.find from index i on, then the text after the quote of the match. */
  function FindEncoding(s: string, i: nat): Option<string>
    decreases |s| - i
  {
    if i + 11 > |s| then None
    else if EncodingAt(s, i) then Some(CharsetRun(s[i + 10..]))
    else FindEncoding(s, i + 1)
  }

  /**
   * Proxy.getCharset: the charset of the leftmost match. The match's text holds
   * exactly one quote, so element 1 of its split on quotes is the name after it.
   */
  function GetCharset(header: string): Option<string> {
    FindEncoding(header, 0)
  }

  /** The search from i reports no match exactly when there is none at or after i. */
  lemma {:induction false} FindEncodingNone(s: string, i: nat)
    ensures FindEncoding(s, i).None? <==> forall j :: i <= j ==> !EncodingAt(s, j)
    decreases |s| - i
  {
    if i + 11 > |s| {
      forall j | i <= j ensures !EncodingAt(s, j) { }
    } else if !EncodingAt(s, i) {
      FindEncodingNone(s, i + 1);
    }
  }

  /** A match the search from i reports is the leftmost one at or after i. */
  lemma {:induction false} FindEncodingSome(s: string, i: nat)
    requires FindEncoding(s, i).Some?
    ensures exists k :: i <= k && EncodingAt(s, k) && FindEncoding(s, i).value == CharsetRun(s[k + 10..])
                        && forall j :: i <= j < k ==> !EncodingAt(s, j)
    decreases |s| - i
  {
    if EncodingAt(s, i) {
      assert FindEncoding(s, i).value == CharsetRun(s[i + 10..]);
    } else {
      FindEncodingSome(s, i + 1);
      var k :| i + 1 <= k && EncodingAt(s, k) && FindEncoding(s, i + 1).value == CharsetRun(s[k + 10..])
               && forall j :: i + 1 <= j < k ==> !EncodingAt(s, j);
      assert forall j :: i <= j < k ==> !EncodingAt(s, j);
    }
  }

  /** The search from i finds the leftmost match at or after i, or reports that there is none. */
  lemma FindEncodingLeftmost(s: string, i: nat)
    ensures FindEncoding(s, i).None? <==> forall j :: i <= j ==> !EncodingAt(s, j)
    ensures FindEncoding(s, i).Some? ==>
              exists k :: i <= k && EncodingAt(s, k) && FindEncoding(s, i).value == CharsetRun(s[k + 10..])
                          && forall j :: i <= j < k ==> !EncodingAt(s, j)
  {
    FindEncodingNone(s, i);
    if FindEncoding(s, i).Some? {
      FindEncodingSome(s, i);
    }
  }

  /** The match at i is the leftmost one. */
  predicate LeftmostMatch(s: string, i: nat) {
    EncodingAt(s, i) && forall j: nat :: j < i ==> !EncodingAt(s, j)
  }

  /** `c` stands right after the quote at match i and cannot be extended by another charset character. */
  predicate WholeNameAt(s: string, i: nat, c: string) {
    i + 10 + |c| <= |s| && s[i + 10..i + 10 + |c|] == c
    && (i + 10 + |c| == |s| || !CharsetChar(s[i + 10 + |c|]))
  }

  /** The run taken at a match: non-empty, starting with a letter, and as long as possible. */
  lemma RunAtMatch(s: string, i: nat)
    requires EncodingAt(s, i)
    ensures |CharsetRun(s[i + 10..])| > 0 && CharsetStart(CharsetRun(s[i + 10..])[0])
    ensures WholeNameAt(s, i, CharsetRun(s[i + 10..]))
  {
    var t := s[i + 10..];
    var c := CharsetRun(t);
    assert CharsetChar(t[0]);
    assert s[i + 10..i + 10 + |c|] == t[..|c|];
    assert i + 10 + |c| < |s| ==> s[i + 10 + |c|] == t[|c|];
  }

  /**
   * What getCharset returns: null exactly when nothing matches; otherwise a name
   * that starts with a letter, holds only charset characters (so no quote), and
   * is the whole run of such characters after the leftmost encoding=' or encoding=".
   */
  lemma GetCharsetMeaning(s: string)
    ensures GetCharset(s).None? <==> forall j: nat :: !EncodingAt(s, j)
    ensures GetCharset(s).Some? ==>
              var c := GetCharset(s).value;
              |c| > 0 && CharsetStart(c[0]) && (forall k :: 0 <= k < |c| ==> CharsetChar(c[k]) && !IsQuote(c[k]))
              && exists i: nat :: LeftmostMatch(s, i) && WholeNameAt(s, i, c)
  {
    FindEncodingLeftmost(s, 0);
    if GetCharset(s).Some? {
      var c := GetCharset(s).value;
      var i: nat :| EncodingAt(s, i) && c == CharsetRun(s[i + 10..])
                    && forall j :: 0 <= j < i ==> !EncodingAt(s, j);
      RunAtMatch(s, i);
      assert LeftmostMatch(s, i) && WholeNameAt(s, i, c);
    }
  }

  /** A typical XML prolog names its charset in double quotes. */
  lemma GetCharsetOfProlog()
    ensures GetCharset("encoding=\"UTF-8\"?>") == Some("UTF-8")
  {
    var s := "encoding=\"UTF-8\"?>";
    assert s[0..9] == EncodingAttribute;
    assert EncodingAt(s, 0);
    assert s[10..] == "UTF-8\"?>";
    assert CharsetRun("\"?>") == [];
    assert CharsetRun("8\"?>") == "8" by { assert "8\"?>"[1..] == "\"?>"; }
    assert CharsetRun("-8\"?>") == "-8" by { assert "-8\"?>"[1..] == "8\"?>"; }
    assert CharsetRun("F-8\"?>") == "F-8" by { assert "F-8\"?>"[1..] == "-8\"?>"; }
    assert CharsetRun("TF-8\"?>") == "TF-8" by { assert "TF-8\"?>"[1..] == "F-8\"?>"; }
    assert CharsetRun("UTF-8\"?>") == "UTF-8" by { assert "UTF-8\"?>"[1..] == "TF-8\"?>"; }
  }

  // ---------------------------------------------------------------------------
  // calculateDefaultCharset
  // ---------------------------------------------------------------------------

  /**
   * Proxy.calculateDefaultCharset: no Accept-Charset header gives null; otherwise
   * element 0 of its split on ",", which fails for a header made only of commas.
   */
  function CalculateDefaultCharset(acceptCharset: Option<string>): Outcome<Option<string>>
  {
    match acceptCharset
    case None => Normal(None)
    case Some(a) =>
      match FirstField(a, ',')
      case IndexOutOfBounds => IndexOutOfBounds
      case Normal(c) => Normal(Some(c))
  }

  /**
   * The guess is the first listed charset, with its quality parameter if it has one,
   * and the guess fails exactly for a non-empty header made of commas only.
   */
  lemma DefaultCharsetIsFirstListed(first: string, rest: string)
    requires first != "" && ',' !in first
    ensures CalculateDefaultCharset(Some(first + "," + rest)) == Normal(Some(first))
    ensures CalculateDefaultCharset(Some(first)) == Normal(Some(first))
  {
    FirstFieldOfPrefixed(first, rest, ',');
    FirstFieldWhole(first, ',');
  }

  lemma DefaultCharsetFails(a: string)
    ensures CalculateDefaultCharset(Some(a)) == IndexOutOfBounds
            <==> |a| > 0 && forall i :: 0 <= i < |a| ==> a[i] == ','
  {
    FirstFieldIsTextBeforeSep(a, ',');
  }

  /**
   * The charset finally put in the response: the one found in the text read so
   * far, else the Accept-Charset guess, else the configured default.
   */
  function ChosenCharset(text: string, acceptCharset: Option<string>, defaultCharset: string): Outcome<string>
  {
    match GetCharset(text)
    case Some(c) => Normal(c)
    case None =>
      match CalculateDefaultCharset(acceptCharset)
      case IndexOutOfBounds => IndexOutOfBounds
      case Normal(None) => Normal(defaultCharset)
      case Normal(Some(c)) => Normal(c)
  }

  /** The choice fails only when the document names no charset and Accept-Charset is commas only. */
  lemma ChosenCharsetFailure(text: string, acceptCharset: Option<string>, defaultCharset: string)
    ensures ChosenCharset(text, acceptCharset, defaultCharset) == IndexOutOfBounds
            <==> GetCharset(text).None? && acceptCharset.Some?
                 && |acceptCharset.value| > 0 && forall i :: 0 <= i < |acceptCharset.value| ==> acceptCharset.value[i] == ','
    ensures GetCharset(text).Some? ==> ChosenCharset(text, acceptCharset, defaultCharset) == Normal(GetCharset(text).value)
    ensures GetCharset(text).None? && acceptCharset.None? ==> ChosenCharset(text, acceptCharset, defaultCharset) == Normal(defaultCharset)
  {
    if acceptCharset.Some? {
      DefaultCharsetFails(acceptCharset.value);
    }
  }

  // ---------------------------------------------------------------------------
  // getContentEncoding and the choice of streams
  // ---------------------------------------------------------------------------

  const ContentEncodingHeader: string := "Content-Encoding"

  /** The value of the first Content-Encoding header, if any. */
  function ContentEncodingSpec(headers: seq<Header>): Option<string>
  {
    match FirstHeaderNamed(headers, ContentEncodingHeader)
    case None => None
    case Some(h) => Some(h.value)
  }

  /** Proxy.getContentEncoding: the loop returning the value of the first header named Content-Encoding. */
  method GetContentEncoding(headers: seq<Header>) returns (r: Option<string>)
    ensures r == ContentEncodingSpec(headers)
  {
    var i := 0;
    while i < |headers|
      invariant 0 <= i <= |headers|
      invariant FirstHeaderNamed(headers[i..], ContentEncodingHeader) == FirstHeaderNamed(headers, ContentEncodingHeader)
    {
      assert headers[i..][1..] == headers[i + 1..];
      if EqualsIgnoreCase(ContentEncodingHeader, headers[i].name) {
        assert EqualsIgnoreCase(headers[i].name, ContentEncodingHeader);
        return Some(headers[i].value);
      }
      i := i + 1;
    }
    return None;
  }

  /**
   * The method is handed getHeaders("Content-Encoding"), which already keeps only
   * those headers, so the second name test changes nothing: the result is the
   * first Content-Encoding header of the whole response.
   */
  lemma {:induction false} ContentEncodingOfSelected(headers: seq<Header>)
    ensures ContentEncodingSpec(HeadersNamed(headers, ContentEncodingHeader)) == ContentEncodingSpec(headers)
    decreases |headers|
  {
    if |headers| > 0 {
      ContentEncodingOfSelected(headers[1..]);
      if EqualsIgnoreCase(headers[0].name, ContentEncodingHeader) {
        assert HeadersNamed(headers, ContentEncodingHeader)[0] == headers[0];
      } else {
        assert HeadersNamed(headers, ContentEncodingHeader) == HeadersNamed(headers[1..], ContentEncodingHeader);
      }
    }
  }

  /**
   * isCharsetKnown: the declared content type mentions "charset" (after
   * toLowerCase), anywhere.
   */
  predicate CharsetKnown(contentType: string) {
    Contains(LowerString(contentType), "charset")
  }

  /**
   * The stream wrappers. Deflater names the source's DeflaterInputStream and
   * DeflaterOutputStream pair: the input side deflates (compresses) the
   * backend's bytes rather than inflating them.
   */
  datatype Codec = Identity | Gzip | Deflater

  /** Copy through the sniffing loop with the given wrappers, or hand over to doHandleRequest. */
  datatype Transfer = Sniffed(codec: Codec) | Direct

  /** The if-chain of doHandleRequestCharsetRequired that picks the streams. */
  function SelectTransfer(contentEncoding: Option<string>, charsetKnown: bool): Transfer
  {
    if contentEncoding.None? || charsetKnown then Sniffed(Identity)
    else if EqualsIgnoreCase("gzip", contentEncoding.value) || EqualsIgnoreCase("x-gzip", contentEncoding.value) then Sniffed(Gzip)
    else if EqualsIgnoreCase("deflate", contentEncoding.value) then Sniffed(Deflater)
    else Direct
  }

  predicate KnownCoding(contentEncoding: string) {
    EqualsIgnoreCase("gzip", contentEncoding) || EqualsIgnoreCase("x-gzip", contentEncoding)
    || EqualsIgnoreCase("deflate", contentEncoding)
  }

  /**
   * Only an unknown encoding of a body without declared charset bypasses the
   * sniffing loop, and a body is decoded only when its charset is unknown.
   */
  lemma TransferChoice(contentEncoding: Option<string>, charsetKnown: bool)
    ensures SelectTransfer(contentEncoding, charsetKnown).Direct?
            <==> contentEncoding.Some? && !charsetKnown && !KnownCoding(contentEncoding.value)
    ensures SelectTransfer(contentEncoding, charsetKnown) != Sniffed(Identity)
            ==> contentEncoding.Some? && !charsetKnown
    ensures charsetKnown ==> SelectTransfer(contentEncoding, charsetKnown) == Sniffed(Identity)
  {
  }

  /** The encoding names are compared ignoring case. */
  lemma TransferIgnoresCase(e1: string, e2: string, charsetKnown: bool)
    requires EqualsIgnoreCase(e1, e2)
    ensures SelectTransfer(Some(e1), charsetKnown) == SelectTransfer(Some(e2), charsetKnown)
  {
  }
}
