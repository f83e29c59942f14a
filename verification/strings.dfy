/**
 * The java.lang.String and commons-lang StringUtils operations the proxy relies on,
 * restricted to a literal one-character separator (the only form the proxy uses).
 */
module Strings {
  import opened Common

  // ---------------------------------------------------------------------------
  // Characters, prefixes, containment
  // ---------------------------------------------------------------------------

  /** ASCII lower-casing: the part of Java's case folding this model covers. */
  function Lower(c: char): char {
    if 'A' <= c <= 'Z' then (c as int + 32) as char else c
  }

  /** String.equalsIgnoreCase, with ASCII case folding. */
  predicate EqualsIgnoreCase(a: string, b: string) {
    |a| == |b| && forall i :: 0 <= i < |a| ==> Lower(a[i]) == Lower(b[i])
  }

  /** String.toLowerCase, with ASCII case folding. */
  function LowerString(s: string): string {
    seq(|s|, i requires 0 <= i < |s| => Lower(s[i]))
  }

  predicate StartsWith(s: string, prefix: string) {
    |prefix| <= |s| && s[..|prefix|] == prefix
  }

  predicate EndsWith(s: string, suffix: string) {
    |suffix| <= |s| && s[|s| - |suffix|..] == suffix
  }

  /** String.contains: `t` occurs somewhere in `s`. */
  predicate Contains(s: string, t: string)
    decreases |s|
  {
    StartsWith(s, t) || (|s| > 0 && Contains(s[1..], t))
  }

  lemma {:induction false} ContainsAt(s: string, t: string, i: nat)
    requires i + |t| <= |s| && s[i..i + |t|] == t
    ensures Contains(s, t)
    decreases i
  {
    if i > 0 {
      assert s[1..][i - 1..i - 1 + |t|] == s[i..i + |t|];
      ContainsAt(s[1..], t, i - 1);
    }
  }

  /** String.trim: drops every leading and trailing character at or below U+0020. */
  function Trim(s: string): (r: string)
    ensures |r| <= |s|
  {
    TrimEnd(TrimStart(s))
  }

  function TrimStart(s: string): (r: string)
    ensures |r| <= |s|
    ensures r == [] || r[0] > ' '
  {
    if |s| > 0 && s[0] <= ' ' then TrimStart(s[1..]) else s
  }

  function TrimEnd(s: string): (r: string)
    ensures |r| <= |s|
    ensures r == [] || r[|r| - 1] > ' '
  {
    if |s| > 0 && s[|s| - 1] <= ' ' then TrimEnd(s[..|s| - 1]) else s
  }

  // ---------------------------------------------------------------------------
  // Splitting and joining
  // ---------------------------------------------------------------------------

  /** Every piece of `s` between occurrences of `sep`, empty pieces included. */
  function Pieces(s: string, sep: char): (r: seq<string>)
    ensures |r| >= 1
    decreases |s|
  {
    if |s| == 0 then [""]
    else
      var rest := Pieces(s[1..], sep);
      if s[0] == sep then [""] + rest
      else [[s[0]] + rest[0]] + rest[1..]
  }

  /** The pieces joined back with the separator between them. */
  function Join(parts: seq<string>, sep: char): string
  {
    if |parts| == 0 then ""
    else if |parts| == 1 then parts[0]
    else parts[0] + [sep] + Join(parts[1..], sep)
  }

  /** Joining the pieces of a string restores the string. */
  lemma {:induction false} JoinPieces(s: string, sep: char)
    ensures Join(Pieces(s, sep), sep) == s
    decreases |s|
  {
    if |s| > 0 {
      var rest := Pieces(s[1..], sep);
      JoinPieces(s[1..], sep);
      if s[0] != sep && |rest| > 1 {
        assert Join(rest, sep) == rest[0] + [sep] + Join(rest[1..], sep);
        assert Join(Pieces(s, sep), sep) == [s[0]] + rest[0] + [sep] + Join(rest[1..], sep);
      }
      assert s == [s[0]] + s[1..];
    }
  }

  /** No piece contains the separator. */
  lemma {:induction false} PiecesAvoidSep(s: string, sep: char)
    ensures forall p :: p in Pieces(s, sep) ==> sep !in p
    decreases |s|
  {
    if |s| > 0 {
      PiecesAvoidSep(s[1..], sep);
      var rest := Pieces(s[1..], sep);
      assert rest[0] in rest;
      forall p | p in rest[1..] ensures p in rest { }
    }
  }

  /** A separator-free prefix glues onto the first piece of what follows it. */
  lemma {:induction false} PiecesAfterPrefix(a: string, b: string, sep: char)
    requires sep !in a
    ensures Pieces(a + b, sep) == [a + Pieces(b, sep)[0]] + Pieces(b, sep)[1..]
    decreases |a|
  {
    if |a| > 0 {
      assert a[0] in a;
      assert (a + b)[0] == a[0] && (a + b)[1..] == a[1..] + b;
      PiecesAfterPrefix(a[1..], b, sep);
      var rest := Pieces(a[1..] + b, sep);
      var pb := Pieces(b, sep);
      assert |a + b| > 0;
      assert Pieces(a + b, sep) == [[a[0]] + rest[0]] + rest[1..];
      assert rest[0] == a[1..] + pb[0];
      assert rest[1..] == pb[1..];
      assert [a[0]] + (a[1..] + pb[0]) == a + pb[0];
    } else {
      var pb := Pieces(b, sep);
      assert a + b == b && a + pb[0] == pb[0];
      assert pb == [pb[0]] + pb[1..];
    }
  }

  /** Splitting the join of separator-free parts gives the parts back. */
  lemma {:induction false} PiecesJoin(parts: seq<string>, sep: char)
    requires |parts| >= 1
    requires forall p :: p in parts ==> sep !in p
    ensures Pieces(Join(parts, sep), sep) == parts
    decreases |parts|
  {
    assert parts[0] in parts;
    if |parts| == 1 {
      PiecesAfterPrefix(parts[0], "", sep);
      assert parts[0] + "" == parts[0];
    } else {
      forall p | p in parts[1..] ensures sep !in p { assert p in parts; }
      PiecesJoin(parts[1..], sep);
      var tail := Join(parts[1..], sep);
      PiecesAfterPrefix(parts[0], [sep] + tail, sep);
      PiecesSepPrefix(tail, sep);
      assert Join(parts, sep) == parts[0] + ([sep] + tail);
      assert Pieces([sep] + tail, sep) == [""] + parts[1..];
      assert parts[0] + "" == parts[0];
      assert parts == [parts[0]] + parts[1..];
    }
  }

  /** Appending one separator appends one empty piece. */
  lemma {:induction false} PiecesTrailingSep(s: string, sep: char)
    ensures Pieces(s + [sep], sep) == Pieces(s, sep) + [""]
    decreases |s|
  {
    if |s| > 0 {
      assert (s + [sep])[1..] == s[1..] + [sep];
      PiecesTrailingSep(s[1..], sep);
    } else {
      assert Pieces([sep], sep) == [""] + Pieces([], sep);
    }
  }

  /** A separator right after a prefix starts a new piece. */
  lemma PiecesSepPrefix(t: string, sep: char)
    ensures Pieces([sep] + t, sep) == [""] + Pieces(t, sep)
  {
    assert ([sep] + t)[1..] == t;
  }

  /** Drops the empty strings at the end of a list (Java's String.split with limit 0). */
  function DropTrailingEmpty(xs: seq<string>): (r: seq<string>)
    ensures |r| <= |xs| && r == xs[..|r|]
    ensures |r| > 0 ==> r[|r| - 1] != ""
    ensures forall k :: |r| <= k < |xs| ==> xs[k] == ""
  {
    if |xs| > 0 && xs[|xs| - 1] == "" then DropTrailingEmpty(xs[..|xs| - 1]) else xs
  }

  /** A non-empty element in front protects the rest from being dropped past it. */
  lemma {:induction false} DropTrailingEmptyCons(x: string, xs: seq<string>)
    requires x != ""
    ensures DropTrailingEmpty([x] + xs) == [x] + DropTrailingEmpty(xs)
    decreases |xs|
  {
    if |xs| > 0 && xs[|xs| - 1] == "" {
      assert ([x] + xs)[..|xs|] == [x] + xs[..|xs| - 1];
      DropTrailingEmptyCons(x, xs[..|xs| - 1]);
    }
  }

  /**
   * Java's String.split on a one-character literal separator: when the separator
   * does not occur the whole string is the single result, otherwise every piece
   * is kept except the empty ones at the end.
   */
  function Split(s: string, sep: char): seq<string>
  {
    if sep !in s then [s] else DropTrailingEmpty(Pieces(s, sep))
  }

  /** The list without its empty strings, order kept (the `filter` loop's result). */
  function NonEmpty(xs: seq<string>): seq<string>
  {
    if |xs| == 0 then []
    else NonEmpty(xs[..|xs| - 1]) + (if xs[|xs| - 1] == "" then [] else [xs[|xs| - 1]])
  }

  /** Exactly the non-empty elements survive NonEmpty, and nothing else appears. */
  lemma {:induction false} NonEmptyMembers(xs: seq<string>)
    ensures forall x :: x in NonEmpty(xs) <==> x in xs && x != ""
    decreases |xs|
  {
    if |xs| > 0 {
      NonEmptyMembers(xs[..|xs| - 1]);
      assert xs == xs[..|xs| - 1] + [xs[|xs| - 1]];
      forall x ensures x in xs <==> x in xs[..|xs| - 1] || x == xs[|xs| - 1] {
      }
    }
  }

  /** NonEmpty distributes over concatenation. */
  lemma {:induction false} NonEmptyAppend(a: seq<string>, b: seq<string>)
    ensures NonEmpty(a + b) == NonEmpty(a) + NonEmpty(b)
    decreases |b|
  {
    if |b| == 0 {
      assert a + b == a;
    } else {
      assert (a + b)[..|a + b| - 1] == a + b[..|b| - 1];
      NonEmptyAppend(a, b[..|b| - 1]);
    }
  }

  lemma NonEmptySingle(x: string)
    ensures NonEmpty([x]) == if x == "" then [] else [x]
  {
    assert [x][..0] == [];
  }

  /**
   * commons-lang StringUtils.split(str, char): the pieces between separators,
   * adjacent separators treated as one, leading and trailing ones ignored.
   */
  function SplitDropEmpty(s: string, sep: char): seq<string>
  {
    NonEmpty(Pieces(s, sep))
  }

  /** Splitting around a separator splits each side on its own. */
  lemma {:induction false} PiecesAroundSep(a: string, b: string, sep: char)
    ensures Pieces(a + [sep] + b, sep) == Pieces(a, sep) + Pieces(b, sep)
    decreases |a|
  {
    if |a| == 0 {
      assert a + [sep] + b == [sep] + b;
      PiecesSepPrefix(b, sep);
    } else {
      var s := a + [sep] + b;
      assert s[0] == a[0] && s[1..] == a[1..] + [sep] + b;
      PiecesAroundSep(a[1..], b, sep);
      var pa := Pieces(a[1..], sep);
      var rest := Pieces(s[1..], sep);
      assert rest == pa + Pieces(b, sep);
      if a[0] != sep {
        assert rest[0] == pa[0];
        assert rest[1..] == pa[1..] + Pieces(b, sep);
      }
    }
  }

  /** A string without the separator is its own single piece. */
  lemma PiecesWhole(s: string, sep: char)
    requires sep !in s
    ensures Pieces(s, sep) == [s]
  {
    PiecesAfterPrefix(s, "", sep);
    assert s + "" == s;
  }

  /** A list of empty strings has nothing left once filtered. */
  lemma {:induction false} NonEmptyOfEmpties(xs: seq<string>)
    requires forall k :: 0 <= k < |xs| ==> xs[k] == ""
    ensures NonEmpty(xs) == []
    decreases |xs|
  {
    if |xs| > 0 {
      NonEmptyOfEmpties(xs[..|xs| - 1]);
    }
  }

  /**
   * Filtering the empty strings out of Java's String.split gives what
   * StringUtils.split gives: the non-empty pieces.
   */
  lemma NonEmptySplit(s: string, sep: char)
    ensures NonEmpty(Split(s, sep)) == SplitDropEmpty(s, sep)
  {
    var ps := Pieces(s, sep);
    if sep !in s {
      PiecesWhole(s, sep);
    } else {
      var d := DropTrailingEmpty(ps);
      assert ps == d + ps[|d|..];
      NonEmptyAppend(d, ps[|d|..]);
      NonEmptyOfEmpties(ps[|d|..]);
      assert NonEmpty(d) + [] == NonEmpty(d);
    }
  }

  /** The non-empty segments of "a/b" are those of a followed by those of b. */
  lemma SplitDropEmptyAroundSep(a: string, b: string, sep: char)
    ensures SplitDropEmpty(a + [sep] + b, sep) == SplitDropEmpty(a, sep) + SplitDropEmpty(b, sep)
  {
    PiecesAroundSep(a, b, sep);
    NonEmptyAppend(Pieces(a, sep), Pieces(b, sep));
  }

  /**
   * Element 0 of Java's `s.split(sep)`, or IndexOutOfBounds when that array is
   * empty (a string made of separators only).
   */
  function FirstField(s: string, sep: char): Outcome<string>
  {
    var parts := Split(s, sep);
    if |parts| == 0 then IndexOutOfBounds else Normal(parts[0])
  }

  /** Every piece is empty exactly when the string consists of separators only. */
  lemma {:induction false} PiecesAllEmpty(s: string, sep: char)
    ensures (forall k :: 0 <= k < |Pieces(s, sep)| ==> Pieces(s, sep)[k] == "")
            <==> (forall i :: 0 <= i < |s| ==> s[i] == sep)
    decreases |s|
  {
    if |s| > 0 {
      PiecesAllEmpty(s[1..], sep);
      var rest := Pieces(s[1..], sep);
      if s[0] == sep {
        assert Pieces(s, sep) == [""] + rest;
        if forall i :: 0 <= i < |s[1..]| ==> s[1..][i] == sep {
          forall i | 0 <= i < |s| ensures s[i] == sep {
            if i > 0 { assert s[i] == s[1..][i - 1]; }
          }
        }
        if forall i :: 0 <= i < |s| ==> s[i] == sep {
          forall i | 0 <= i < |s[1..]| ensures s[1..][i] == sep {
            assert s[1..][i] == s[i + 1];
          }
        }
        forall k | 0 <= k < |rest| ensures Pieces(s, sep)[k + 1] == rest[k] { }
        if forall k :: 0 <= k < |Pieces(s, sep)| ==> Pieces(s, sep)[k] == "" {
          forall k | 0 <= k < |rest| ensures rest[k] == "" {
            assert Pieces(s, sep)[k + 1] == rest[k];
          }
        }
      } else {
        assert Pieces(s, sep)[0] != "";
      }
    }
  }

  /**
   * `s.split(sep)[0]` throws exactly when `s` is a non-empty run of separators;
   * otherwise it is the text before the first separator (all of `s` when there is none).
   */
  lemma FirstFieldIsTextBeforeSep(s: string, sep: char)
    ensures FirstField(s, sep) == IndexOutOfBounds
            <==> |s| > 0 && forall i :: 0 <= i < |s| ==> s[i] == sep
    ensures FirstField(s, sep).Normal? ==>
              FirstField(s, sep).value == Pieces(s, sep)[0]
              && sep !in FirstField(s, sep).value
              && StartsWith(s, FirstField(s, sep).value)
  {
    var ps := Pieces(s, sep);
    PiecesAllEmpty(s, sep);
    PiecesAvoidSep(s, sep);
    assert ps[0] in ps;
    JoinPieces(s, sep);
    if |ps| > 1 {
      assert Join(ps, sep) == ps[0] + [sep] + Join(ps[1..], sep);
    }
    assert StartsWith(s, ps[0]);
    if sep !in s {
      PiecesAfterPrefix(s, "", sep);
      assert s + "" == s;
      if |s| > 0 { assert s[0] in s; }
    } else {
      var i :| 0 <= i < |s| && s[i] == sep;
      assert |s| > 0;
    }
  }

  /** The first field of a string that starts with a separator-free word and then a separator. */
  lemma FirstFieldOfPrefixed(word: string, rest: string, sep: char)
    requires word != "" && sep !in word
    ensures FirstField(word + [sep] + rest, sep) == Normal(word)
  {
    var s := word + [sep] + rest;
    assert s == word + ([sep] + rest);
    PiecesAfterPrefix(word, [sep] + rest, sep);
    PiecesSepPrefix(rest, sep);
    assert Pieces([sep] + rest, sep)[0] == "";
    assert Pieces(s, sep)[0] == word + "";
    assert word + "" == word;
    assert s[|word|] == sep;
    FirstFieldIsTextBeforeSep(s, sep);
    assert s[0] == word[0] && word[0] in word;
  }

  /** With no separator in it, the first field is the whole string. */
  lemma FirstFieldWhole(s: string, sep: char)
    requires sep !in s
    ensures FirstField(s, sep) == Normal(s)
  {
  }

  // ---------------------------------------------------------------------------
  // replaceAll("//", "/")
  // ---------------------------------------------------------------------------

  /** One left-to-right pass replacing each non-overlapping "//" by "/". */
  function ReplaceDoubleSlash(s: string): string
    decreases |s|
  {
    if |s| >= 2 && s[0] == '/' && s[1] == '/' then "/" + ReplaceDoubleSlash(s[2..])
    else if |s| == 0 then ""
    else [s[0]] + ReplaceDoubleSlash(s[1..])
  }

  /** The pass keeps the first character's slash-ness. */
  lemma ReplaceDoubleSlashHead(s: string)
    ensures |ReplaceDoubleSlash(s)| > 0 <==> |s| > 0
    ensures |s| > 0 ==> ReplaceDoubleSlash(s)[0] == s[0]
  {
  }

  /** After the pass a "//" survives only where the input had "///". */
  lemma {:induction false} ReplaceDoubleSlashLeavesNoDouble(s: string)
    ensures !Contains(s, "///") ==> !Contains(ReplaceDoubleSlash(s), "//")
    decreases |s|
  {
    var r := ReplaceDoubleSlash(s);
    if Contains(s, "///") {
    } else if |s| >= 2 && s[0] == '/' && s[1] == '/' {
      var t := s[2..];
      assert !StartsWith(s, "///");
      if |t| > 0 {
        assert s[..3] == [s[0], s[1], s[2]];
        assert t[0] == s[2] != '/';
      }
      NotContainsTail(s, "///", 2);
      ReplaceDoubleSlashLeavesNoDouble(t);
      ReplaceDoubleSlashHead(t);
      assert r == "/" + ReplaceDoubleSlash(t);
      assert r[1..] == ReplaceDoubleSlash(t);
      assert !StartsWith(r, "//");
    } else if |s| > 0 {
      var t := s[1..];
      NotContainsTail(s, "///", 1);
      ReplaceDoubleSlashLeavesNoDouble(t);
      ReplaceDoubleSlashHead(t);
      assert r == [s[0]] + ReplaceDoubleSlash(t);
      assert r[1..] == ReplaceDoubleSlash(t);
      if s[0] == '/' && |t| > 0 {
        assert t[0] != '/';
        assert r[1] == ReplaceDoubleSlash(t)[0];
      }
      assert |r| < 2 || r[0] != '/' || r[1] != '/';
      assert |r| >= 2 ==> r[..2] == [r[0], r[1]];
    }
  }

  /** A string without "//" passes through unchanged. */
  lemma {:induction false} ReplaceDoubleSlashIdentity(s: string)
    ensures !Contains(s, "//") ==> ReplaceDoubleSlash(s) == s
    decreases |s|
  {
    if !Contains(s, "//") && |s| > 0 {
      assert !StartsWith(s, "//");
      assert |s| < 2 || s[..2] == [s[0], s[1]];
      NotContainsTail(s, "//", 1);
      ReplaceDoubleSlashIdentity(s[1..]);
      assert s == [s[0]] + s[1..];
    }
  }

  lemma {:induction false} NotContainsTail(s: string, t: string, k: nat)
    requires k <= |s| && !Contains(s, t)
    ensures !Contains(s[k..], t)
    decreases k
  {
    if k > 0 {
      assert s[1..][k - 1..] == s[k..];
      NotContainsTail(s[1..], t, k - 1);
    }
  }

  /** The pass never changes the non-empty segments of a path. */
  lemma ReplaceDoubleSlashKeepsSegments(s: string)
    ensures SplitDropEmpty(ReplaceDoubleSlash(s), '/') == SplitDropEmpty(s, '/')
  {
    ReplaceDoubleSlashPieces(s);
    var p, q := Pieces(s, '/'), Pieces(ReplaceDoubleSlash(s), '/');
    assert p == [p[0]] + p[1..];
    assert q == [q[0]] + q[1..];
    NonEmptyAppend([p[0]], p[1..]);
    NonEmptyAppend([q[0]], q[1..]);
  }

  lemma {:induction false} ReplaceDoubleSlashPieces(s: string)
    ensures Pieces(ReplaceDoubleSlash(s), '/')[0] == Pieces(s, '/')[0]
    ensures NonEmpty(Pieces(ReplaceDoubleSlash(s), '/')[1..]) == NonEmpty(Pieces(s, '/')[1..])
    decreases |s|
  {
    if |s| == 0 {
    } else if s[0] == '/' {
      var t := if |s| >= 2 && s[1] == '/' then s[2..] else s[1..];
      assert ReplaceDoubleSlash(s) == "/" + ReplaceDoubleSlash(t);
      ReplaceDoubleSlashPieces(t);
      var q := Pieces(ReplaceDoubleSlash(t), '/');
      var p := Pieces(t, '/');
      PiecesSepPrefix(ReplaceDoubleSlash(t), '/');
      assert Pieces(ReplaceDoubleSlash(s), '/') == [""] + q;
      assert ([""] + q)[1..] == q;
      assert q == [q[0]] + q[1..];
      assert p == [p[0]] + p[1..];
      NonEmptyAppend([q[0]], q[1..]);
      NonEmptyAppend([p[0]], p[1..]);
      if |s| >= 2 && s[1] == '/' {
        assert s == "/" + ("/" + t);
        PiecesSepPrefix("/" + t, '/');
        PiecesSepPrefix(t, '/');
        assert Pieces(s, '/')[1..] == [""] + p;
        NonEmptyAppend([""], p);
        NonEmptySingle("");
      } else {
        assert s == "/" + t;
        PiecesSepPrefix(t, '/');
        assert Pieces(s, '/')[1..] == p;
      }
    } else {
      var t := s[1..];
      ReplaceDoubleSlashPieces(t);
      assert ReplaceDoubleSlash(s) == [s[0]] + ReplaceDoubleSlash(t);
      assert ReplaceDoubleSlash(s)[1..] == ReplaceDoubleSlash(t);
    }
  }

  // ---------------------------------------------------------------------------
  // Decimal text of a non-negative int (String.valueOf)
  // ---------------------------------------------------------------------------

  function DigitChar(d: nat): char
    requires d < 10
  {
    ('0' as int + d) as char
  }

  predicate IsDigit(c: char) {
    '0' <= c <= '9'
  }

  predicate AllDigits(s: string) {
    forall i :: 0 <= i < |s| ==> IsDigit(s[i])
  }

  /** String.valueOf(n) for n >= 0. */
  function DecimalText(n: nat): (r: string)
    ensures |r| > 0 && AllDigits(r)
  {
    if n < 10 then [DigitChar(n)] else DecimalText(n / 10) + [DigitChar(n % 10)]
  }

  /** Integer.parseInt on a string of decimal digits. */
  function DecimalValue(s: string): nat
    requires AllDigits(s)
  {
    if |s| == 0 then 0
    else 10 * DecimalValue(s[..|s| - 1]) + (s[|s| - 1] as int - '0' as int)
  }

  /** Reading back the decimal text of a number gives the number. */
  lemma {:induction false} DecimalRoundTrip(n: nat)
    ensures DecimalValue(DecimalText(n)) == n
  {
    if n >= 10 {
      DecimalRoundTrip(n / 10);
      var s := DecimalText(n);
      assert s[..|s| - 1] == DecimalText(n / 10);
    }
  }
}
