/**
 * The proxy's content-type predicates (Proxy.testLegalContentType,
 * isCharsetRequiredForContentType, isFormContentType). Each looks only at the
 * part of the Content-Type before the first ";", taken with Java's String.split,
 * so a content type made only of ";" makes element 0 of the split fail.
 *
 * `entries` is the configured requireCharsetContentTypes list, in order.
 */
module ContentTypes {
  import opened Common
  import opened Strings

  /** What testLegalContentType decides: let the request through, or throw IllegalArgumentException. */
  datatype Legality = Permitted | NotPermitted

  /**
   * testLegalContentType: a request without a content type passes; otherwise it is
   * refused exactly when no configured entry differs (case-sensitively) from its
   * type, which includes an empty configuration.
   */
  function LegalContentTypeSpec(contentType: Option<string>, entries: seq<string>): Outcome<Legality>
  {
    match contentType
    case None => Normal(Permitted)
    case Some(ct) =>
      match FirstField(ct, ';')
      case IndexOutOfBounds => IndexOutOfBounds
      case Normal(t) =>
        if exists i :: 0 <= i < |entries| && entries[i] != t then Normal(Permitted) else Normal(NotPermitted)
  }

  /** Proxy.testLegalContentType with its loop that returns at the first entry differing from the type. */
  method TestLegalContentType(contentType: Option<string>, entries: seq<string>) returns (r: Outcome<Legality>)
    ensures r == LegalContentTypeSpec(contentType, entries)
  {
    if contentType.None? {
      return Normal(Permitted);
    }
    var first := FirstField(contentType.value, ';');
    if first.IndexOutOfBounds? {
      return IndexOutOfBounds;
    }
    var t := first.value;
    var i := 0;
    while i < |entries|
      invariant 0 <= i <= |entries|
      invariant forall j :: 0 <= j < i ==> entries[j] == t
    {
      if entries[i] != t {
        return Normal(Permitted);
      }
      i := i + 1;
    }
    r := Normal(NotPermitted);
  }

  /** With nothing configured, every request with a (well-formed) content type is refused. */
  lemma LegalContentTypeEmptyConfiguration(ct: string)
    requires FirstField(ct, ';').Normal?
    ensures LegalContentTypeSpec(Some(ct), []) == Normal(NotPermitted)
  {
  }

  /** Two different configured entries mean no request is ever refused. */
  lemma LegalContentTypeTwoDistinctEntries(contentType: Option<string>, entries: seq<string>, a: nat, b: nat)
    requires a < |entries| && b < |entries| && entries[a] != entries[b]
    ensures LegalContentTypeSpec(contentType, entries) != Normal(NotPermitted)
  {
    if contentType.Some? && FirstField(contentType.value, ';').Normal? {
      var t := FirstField(contentType.value, ';').value;
      if entries[a] != t {
        assert 0 <= a < |entries| && entries[a] != t;
      } else {
        assert 0 <= b < |entries| && entries[b] != t;
      }
    }
  }

  /**
   * The refusal is about the type alone: "type;anything" is refused exactly when
   * every entry is that type.
   */
  lemma LegalContentTypeOfType(t: string, params: string, entries: seq<string>)
    requires t != "" && ';' !in t
    ensures LegalContentTypeSpec(Some(t + ";" + params), entries) == Normal(NotPermitted)
            <==> forall i :: 0 <= i < |entries| ==> entries[i] == t
  {
    FirstFieldOfPrefixed(t, params, ';');
  }

  /** A content type made of ";" only makes element 0 of the split fail. */
  lemma LegalContentTypeSemicolons(n: nat)
    requires n > 0
    ensures LegalContentTypeSpec(Some(seq(n, _ => ';')), []) == IndexOutOfBounds
  {
    FirstFieldIsTextBeforeSep(seq(n, _ => ';'), ';');
  }

  /**
   * isCharsetRequiredForContentType: false without a content type, otherwise
   * whether some entry equals the type ignoring case.
   */
  function CharsetRequiredSpec(contentType: Option<string>, entries: seq<string>): Outcome<bool>
  {
    match contentType
    case None => Normal(false)
    case Some(ct) =>
      match FirstField(ct, ';')
      case IndexOutOfBounds => IndexOutOfBounds
      case Normal(t) => Normal(exists i :: 0 <= i < |entries| && EqualsIgnoreCase(entries[i], t))
  }

  /** Proxy.isCharsetRequiredForContentType with its loop that returns at the first matching entry. */
  method IsCharsetRequiredForContentType(contentType: Option<string>, entries: seq<string>) returns (r: Outcome<bool>)
    ensures r == CharsetRequiredSpec(contentType, entries)
  {
    if contentType.None? {
      return Normal(false);
    }
    var first := FirstField(contentType.value, ';');
    if first.IndexOutOfBounds? {
      return IndexOutOfBounds;
    }
    var t := first.value;
    var i := 0;
    while i < |entries|
      invariant 0 <= i <= |entries|
      invariant forall j :: 0 <= j < i ==> !EqualsIgnoreCase(entries[j], t)
    {
      if EqualsIgnoreCase(entries[i], t) {
        return Normal(true);
      }
      i := i + 1;
    }
    r := Normal(false);
  }

  /** The two predicates disagree on purpose: a type no entry matches, even ignoring case, is never refused. */
  lemma NotCharsetRequiredIsPermitted(contentType: Option<string>, entries: seq<string>)
    requires |entries| > 0
    requires CharsetRequiredSpec(contentType, entries) == Normal(false)
    ensures LegalContentTypeSpec(contentType, entries) == Normal(Permitted)
  {
    if contentType.Some? {
      var t := FirstField(contentType.value, ';').value;
      assert !EqualsIgnoreCase(entries[0], t);
      assert entries[0] != t;
    }
  }

  /** The charset check ignores the parameters after ";" and the case of the type. */
  lemma CharsetRequiredOfType(t: string, params: string, entries: seq<string>)
    requires t != "" && ';' !in t
    ensures CharsetRequiredSpec(Some(t + ";" + params), entries)
            == Normal(exists i :: 0 <= i < |entries| && EqualsIgnoreCase(entries[i], t))
  {
    FirstFieldOfPrefixed(t, params, ';');
  }

  const FormUrlEncoded: string := "application/x-www-form-urlencoded"

  /**
   * Proxy.isFormContentType: the type before ";", trimmed, is
   * application/x-www-form-urlencoded ignoring case.
   */
  function IsFormContentType(contentType: Option<string>): Outcome<bool>
  {
    match contentType
    case None => Normal(false)
    case Some(ct) =>
      match FirstField(ct, ';')
      case IndexOutOfBounds => IndexOutOfBounds
      case Normal(t) => Normal(EqualsIgnoreCase(FormUrlEncoded, Trim(t)))
  }

  /**
   * Only the trimmed type decides whether a request counts as a form post: the
   * parameters after ";" never matter, and neither does the letter case.
   */
  lemma FormContentTypeOfType(t: string, p1: string, p2: string)
    requires t != "" && ';' !in t
    ensures IsFormContentType(Some(t + ";" + p1)) == Normal(EqualsIgnoreCase(FormUrlEncoded, Trim(t)))
    ensures IsFormContentType(Some(t + ";" + p1)) == IsFormContentType(Some(t + ";" + p2))
    ensures IsFormContentType(Some(t + ";" + p1)) == IsFormContentType(Some(t))
  {
    FirstFieldOfPrefixed(t, p1, ';');
    FirstFieldOfPrefixed(t, p2, ';');
    FirstFieldWhole(t, ';');
  }
}
