/**
 * The JavaScript string operations the application relies on, stated on
 * `seq<char>`: `trim`, `indexOf`/`includes`, `split` with a non-empty
 * separator, `Array.prototype.join`, and the decimal rendering of an
 * integer in a template literal.
 */
module JsString {
  import opened Wrappers

  /**
   * The ECMAScript WhiteSpace and LineTerminator code points, what `trim`
   * removes: tab, line feed, vertical tab, form feed, carriage return
   * (0x9 to 0xD), space, no-break space, the Unicode space separators, the
   * line and paragraph separators, and the byte order mark.
   */
  const WhitespaceChars: set<char> := {
    '\t', '\n', '\U{B}', '\U{C}', '\r', ' ', '\U{A0}', '\U{1680}',
    '\U{2000}', '\U{2001}', '\U{2002}', '\U{2003}', '\U{2004}', '\U{2005}',
    '\U{2006}', '\U{2007}', '\U{2008}', '\U{2009}', '\U{200A}',
    '\U{2028}', '\U{2029}', '\U{202F}', '\U{205F}', '\U{3000}', '\U{FEFF}'
  }

  predicate IsWhitespace(c: char) {
    c in WhitespaceChars
  }

  /** Every character of `s` is whitespace. */
  predicate AllWhitespace(s: string)
    decreases |s|
  {
    s == [] || (IsWhitespace(s[0]) && AllWhitespace(s[1..]))
  }

  lemma {:induction false} AllWhitespaceConcat(a: string, b: string)
    ensures AllWhitespace(a + b) <==> AllWhitespace(a) && AllWhitespace(b)
    decreases |a|
  {
    if a != [] {
      assert (a + b)[0] == a[0] && (a + b)[1..] == a[1..] + b;
      AllWhitespaceConcat(a[1..], b);
    } else {
      assert a + b == b;
    }
  }

  /** Drops the leading whitespace: the result is a suffix of `s`. */
  function TrimStart(s: string): (r: string)
    ensures |r| <= |s| && r == s[|s| - |r|..]
    ensures AllWhitespace(s[..|s| - |r|])
    ensures r == [] || !IsWhitespace(r[0])
    decreases |s|
  {
    if s != [] && IsWhitespace(s[0]) then
      var r := TrimStart(s[1..]);
      assert s[..|s| - |r|] == [s[0]] + s[1..][..|s| - 1 - |r|];
      AllWhitespaceConcat([s[0]], s[1..][..|s| - 1 - |r|]);
      r
    else s
  }

  /** Drops the trailing whitespace: the result is a prefix of `s`. */
  function TrimEnd(s: string): (r: string)
    ensures |r| <= |s| && r == s[..|r|]
    ensures AllWhitespace(s[|r|..])
    ensures r == [] || !IsWhitespace(r[|r| - 1])
    decreases |s|
  {
    if s != [] && IsWhitespace(s[|s| - 1]) then
      var r := TrimEnd(s[..|s| - 1]);
      assert s[|r|..] == s[..|s| - 1][|r|..] + [s[|s| - 1]];
      AllWhitespaceConcat(s[..|s| - 1][|r|..], [s[|s| - 1]]);
      r
    else s
  }

  /**
   * `s.trim()`: `s` with its leading and trailing whitespace removed. The
   * result is empty exactly when `s` is all whitespace; otherwise neither
   * of its ends is whitespace.
   */
  function Trim(s: string): (r: string)
    ensures exists i :: Surrounds(s, i, r)
    ensures r == [] <==> AllWhitespace(s)
    ensures r != [] ==> !IsWhitespace(r[0]) && !IsWhitespace(r[|r| - 1])
  {
    var t := TrimStart(s);
    var r := TrimEnd(t);
    TrimSplit(s, |s| - |t|, t, r);
    r
  }

  /** `r` is `s` without the whitespace `s[..i]` before it and the whitespace after it. */
  predicate Surrounds(s: string, i: int, r: string) {
    0 <= i <= |s| - |r| && r == s[i..i + |r|] && AllWhitespace(s[..i]) && AllWhitespace(s[i + |r|..])
  }

  /** The facts behind `Trim`, from the contracts of `TrimStart` (giving `i` and `t`) and `TrimEnd` (giving `r`). */
  lemma TrimSplit(s: string, i: nat, t: string, r: string)
    requires i <= |s| && t == s[i..] && AllWhitespace(s[..i]) && (t == [] || !IsWhitespace(t[0]))
    requires |r| <= |t| && r == t[..|r|] && AllWhitespace(t[|r|..]) && (r == [] || !IsWhitespace(r[|r| - 1]))
    ensures r == s[i..i + |r|] && AllWhitespace(s[i + |r|..])
    ensures Surrounds(s, i, r)
    ensures r == [] <==> AllWhitespace(s)
    ensures r != [] ==> !IsWhitespace(r[0])
  {
    assert s[i + |r|..] == t[|r|..];
    assert s == s[..i] + t;
    AllWhitespaceConcat(s[..i], t);
    if r == [] {
      assert t == t[|r|..];
    } else {
      assert r[0] == t[0];
    }
  }

  /** JavaScript falsiness of `s.trim()`: the string holds nothing but whitespace. */
  predicate IsBlank(s: string) {
    Trim(s) == []
  }

  predicate OccursAt(s: string, sub: string, i: int) {
    0 <= i && i + |sub| <= |s| && s[i..i + |sub|] == sub
  }

  lemma OccursAtTail(s: string, sub: string, i: int)
    requires s != [] && i >= 0
    ensures OccursAt(s[1..], sub, i) <==> OccursAt(s, sub, i + 1)
  {
    if 0 <= i && i + |sub| <= |s| - 1 {
      assert s[1..][i..i + |sub|] == s[i + 1..i + 1 + |sub|];
    }
  }

  /** `s.indexOf(sub)`, with `None` for -1: a left-to-right search. */
  function IndexOf(s: string, sub: string): (r: Option<nat>)
    ensures r.Some? ==> OccursAt(s, sub, r.value)
    decreases |s|
  {
    if |s| < |sub| then None
    else if s[..|sub|] == sub then Some(0)
    else
      match IndexOf(s[1..], sub)
      case None => None
      case Some(k) => Some(k + 1)
  }

  /** The search finds the first occurrence, and reports none only when there is none. */
  lemma {:induction false} IndexOfFindsFirst(s: string, sub: string)
    ensures IndexOf(s, sub).Some? ==> forall j :: 0 <= j < IndexOf(s, sub).value ==> !OccursAt(s, sub, j)
    ensures IndexOf(s, sub).None? ==> forall j :: !OccursAt(s, sub, j)
    decreases |s|
  {
    if |s| >= |sub| && s[..|sub|] != sub {
      IndexOfFindsFirst(s[1..], sub);
      assert !OccursAt(s, sub, 0);
      forall j | j > 0 ensures OccursAt(s, sub, j) <==> OccursAt(s[1..], sub, j - 1) {
        OccursAtTail(s, sub, j - 1);
      }
    }
  }

  /** `s.includes(sub)`. */
  predicate Includes(s: string, sub: string) {
    IndexOf(s, sub).Some?
  }

  lemma IncludesIff(s: string, sub: string)
    ensures Includes(s, sub) <==> exists i :: OccursAt(s, sub, i)
  {
    IndexOfFindsFirst(s, sub);
  }

  /** `parts.join(sep)`. */
  function Join(parts: seq<string>, sep: string): string
    decreases |parts|
  {
    if |parts| == 0 then ""
    else if |parts| == 1 then parts[0]
    else parts[0] + sep + Join(parts[1..], sep)
  }

  /**
   * `s.split(sep)` for a non-empty separator: the pieces between the
   * occurrences of `sep` found left to right, each search resuming after
   * the previous occurrence.
   */
  function Split(s: string, sep: string): (parts: seq<string>)
    requires sep != []
    ensures parts != []
    decreases |s|
  {
    match IndexOf(s, sep)
    case None => [s]
    case Some(i) => [s[..i]] + Split(s[i + |sep|..], sep)
  }

  /**
   * Non-overlapping occurrences of `sep` in `s`, counted by a left-to-right
   * scan that skips over every occurrence it meets.
   */
  function CountOccurrences(s: string, sep: string): nat
    requires sep != []
    decreases |s|
  {
    if |s| < |sep| then 0
    else if s[..|sep|] == sep then 1 + CountOccurrences(s[|sep|..], sep)
    else CountOccurrences(s[1..], sep)
  }

  /** Joining the pieces of a split with the separator gives back the string. */
  lemma {:induction false} JoinSplit(s: string, sep: string)
    requires sep != []
    ensures Join(Split(s, sep), sep) == s
    decreases |s|
  {
    match IndexOf(s, sep)
    case None =>
    case Some(i) =>
      var rest := s[i + |sep|..];
      JoinSplit(rest, sep);
      var tail := Split(rest, sep);
      assert Split(s, sep) == [s[..i]] + tail;
      assert s == s[..i] + sep + rest;
  }

  /** No piece of a split contains the separator. */
  lemma {:induction false} SplitPiecesExcludeSeparator(s: string, sep: string, k: nat)
    requires sep != []
    requires k < |Split(s, sep)|
    ensures !Includes(Split(s, sep)[k], sep)
    decreases |s|
  {
    IndexOfFindsFirst(s, sep);
    match IndexOf(s, sep)
    case None =>
      IncludesIff(s, sep);
    case Some(i) =>
      if k == 0 {
        var p := s[..i];
        IncludesIff(p, sep);
        forall j | OccursAt(p, sep, j) ensures OccursAt(s, sep, j) {
          assert s[j..j + |sep|] == p[j..j + |sep|];
        }
      } else {
        SplitPiecesExcludeSeparator(s[i + |sep|..], sep, k - 1);
      }
  }

  lemma OccursInPrefix(t: string, s: string, sep: string, j: nat)
    requires |t| <= |s| && s[..|t|] == t && j + |sep| <= |t|
    ensures OccursAt(t, sep, j) <==> OccursAt(s, sep, j)
  {
    assert t[j..j + |sep|] == s[j..j + |sep|];
  }

  /** A first occurrence in a prefix is the first occurrence in the whole string. */
  lemma IndexOfFromPrefix(t: string, s: string, sep: string, i: nat)
    requires |t| <= |s| && s[..|t|] == t && i + |sep| <= |t|
    requires IndexOf(t, sep) == Some(i)
    ensures IndexOf(s, sep) == Some(i)
  {
    IndexOfFindsFirst(t, sep);
    IndexOfFindsFirst(s, sep);
    OccursInPrefix(t, s, sep, i);
    assert IndexOf(s, sep).Some?;
    var m := IndexOf(s, sep).value;
    assert m <= i;
    OccursInPrefix(t, s, sep, m);
  }

  /** A first occurrence in the whole string that fits in a prefix is the first occurrence there. */
  lemma IndexOfToPrefix(t: string, s: string, sep: string, i: nat)
    requires |t| <= |s| && s[..|t|] == t && i + |sep| <= |t|
    requires IndexOf(s, sep) == Some(i)
    ensures IndexOf(t, sep) == Some(i)
  {
    IndexOfFindsFirst(t, sep);
    IndexOfFindsFirst(s, sep);
    OccursInPrefix(t, s, sep, i);
    assert IndexOf(t, sep).Some?;
    var m := IndexOf(t, sep).value;
    assert m <= i;
    OccursInPrefix(t, s, sep, m);
  }

  /**
   * The search is left to right: every piece but the last ends where the
   * first occurrence of `sep` in the piece followed by `sep` begins, so no
   * occurrence starts inside a piece.
   */
  lemma {:induction false} SplitPiecesEndAtFirstOccurrence(s: string, sep: string, k: nat)
    requires sep != []
    requires k < |Split(s, sep)| - 1
    ensures IndexOf(Split(s, sep)[k] + sep, sep) == Some(|Split(s, sep)[k]|)
    decreases |s|
  {
    match IndexOf(s, sep)
    case None =>
    case Some(i) =>
      if k == 0 {
        assert Split(s, sep)[0] == s[..i];
        assert s[..i + |sep|] == s[..i] + sep;
        IndexOfToPrefix(s[..i] + sep, s, sep, i);
      } else {
        assert Split(s, sep) == [s[..i]] + Split(s[i + |sep|..], sep);
        SplitPiecesEndAtFirstOccurrence(s[i + |sep|..], sep, k - 1);
      }
  }

  /**
   * The pieces of a split are the only ones that join back to the string
   * with every piece but the last ending at its first occurrence of `sep`
   * and the last free of `sep`.
   */
  lemma {:induction false} SplitUnique(s: string, sep: string, parts: seq<string>)
    requires sep != [] && parts != []
    requires Join(parts, sep) == s
    requires forall k :: 0 <= k < |parts| - 1 ==> IndexOf(parts[k] + sep, sep) == Some(|parts[k]|)
    requires !Includes(parts[|parts| - 1], sep)
    ensures parts == Split(s, sep)
    decreases |parts|
  {
    if |parts| > 1 {
      var t := parts[0] + sep;
      var rest := Join(parts[1..], sep);
      assert s == t + rest;
      assert s[..|t|] == t;
      IndexOfFromPrefix(t, s, sep, |parts[0]|);
      assert s[|parts[0]| + |sep|..] == rest;
      assert s[..|parts[0]|] == parts[0];
      SplitUnique(rest, sep, parts[1..]);
      assert parts == [parts[0]] + parts[1..];
    }
  }

  lemma {:induction false} CountWithoutOccurrence(s: string, sep: string)
    requires sep != []
    requires IndexOf(s, sep) == None
    ensures CountOccurrences(s, sep) == 0
    decreases |s|
  {
    if |s| >= |sep| {
      IndexOfFindsFirst(s, sep);
      assert !OccursAt(s, sep, 0);
      OccursAtNotFirst(s, sep);
      CountWithoutOccurrence(s[1..], sep);
    }
  }

  lemma OccursAtNotFirst(s: string, sep: string)
    requires sep != [] && |s| >= |sep| && s[..|sep|] != sep
    ensures IndexOf(s[1..], sep).None? ==> IndexOf(s, sep).None?
    ensures IndexOf(s[1..], sep).Some? ==> IndexOf(s, sep) == Some(IndexOf(s[1..], sep).value + 1)
  {
  }

  lemma {:induction false} CountAfterFirstOccurrence(s: string, sep: string, i: nat)
    requires sep != []
    requires IndexOf(s, sep) == Some(i)
    ensures CountOccurrences(s, sep) == 1 + CountOccurrences(s[i + |sep|..], sep)
    decreases i
  {
    assert OccursAt(s, sep, i);
    if s[..|sep|] == sep {
      assert i == 0;
    } else {
      assert CountOccurrences(s, sep) == CountOccurrences(s[1..], sep);
      OccursAtNotFirst(s, sep);
      assert IndexOf(s[1..], sep) == Some(i - 1);
      CountAfterFirstOccurrence(s[1..], sep, i - 1);
      assert s[1..][i - 1 + |sep|..] == s[i + |sep|..];
    }
  }

  /** A split yields one piece more than there are non-overlapping occurrences. */
  lemma {:induction false} SplitLength(s: string, sep: string)
    requires sep != []
    ensures |Split(s, sep)| == CountOccurrences(s, sep) + 1
    decreases |s|
  {
    match IndexOf(s, sep)
    case None =>
      CountWithoutOccurrence(s, sep);
    case Some(i) =>
      CountAfterFirstOccurrence(s, sep, i);
      SplitLength(s[i + |sep|..], sep);
  }

  /** The number of times `c` occurs in `s`. */
  function CountChar(s: string, c: char): nat {
    if s == [] then 0 else (if s[0] == c then 1 else 0) + CountChar(s[1..], c)
  }

  lemma {:induction false} CountCharConcat(a: string, b: string, c: char)
    ensures CountChar(a + b, c) == CountChar(a, c) + CountChar(b, c)
  {
    if a != [] {
      assert (a + b)[0] == a[0] && (a + b)[1..] == a[1..] + b;
      CountCharConcat(a[1..], b, c);
    } else {
      assert a + b == b;
    }
  }

  predicate IsDigit(c: char) {
    '0' as int <= c as int <= '9' as int
  }

  function DigitChar(d: nat): (c: char)
    requires d < 10
    ensures IsDigit(c) && c as int - '0' as int == d
  {
    (('0' as int) + d) as char
  }

  /** A decimal numeral without superfluous leading zeros: `0`, or digits not starting with `0`. */
  predicate IsNumeral(s: string) {
    s != [] && (forall i :: 0 <= i < |s| ==> IsDigit(s[i])) && (s[0] == '0' ==> |s| == 1)
  }

  /** The decimal digits of `n`, most significant first, without leading zeros. */
  function NatToString(n: nat): (r: string)
    ensures IsNumeral(r)
    ensures r[0] == '0' ==> n == 0
    decreases n
  {
    if n < 10 then [DigitChar(n)] else NatToString(n / 10) + [DigitChar(n % 10)]
  }

  /**
   * The decimal rendering of an integer: a minus sign for a negative one,
   * then its numeral. It agrees with JavaScript's `${n}` only for integers
   * of magnitude at most 2^53; beyond that JavaScript prints the shortest
   * digits that round-trip to the same double, and from 1e21 on it uses
   * exponent notation.
   */
  function IntToString(n: int): (r: string)
    ensures n >= 0 ==> IsNumeral(r)
    ensures n < 0 ==> |r| > 1 && r[0] == '-' && IsNumeral(r[1..]) && r[1] != '0'
  {
    if n < 0 then "-" + NatToString(-n) else NatToString(n)
  }

  function DigitValue(c: char): nat
    requires IsDigit(c)
  {
    c as int - '0' as int
  }

  /** The value of a string of decimal digits, most significant first. */
  function DigitsValue(s: string): nat
    requires forall i :: 0 <= i < |s| ==> IsDigit(s[i])
  {
    if s == [] then 0 else 10 * DigitsValue(s[..|s| - 1]) + DigitValue(s[|s| - 1])
  }

  /** Reads back an integer written as a numeral, with a minus sign before a non-zero one when negative. */
  function ParseInt(s: string): Option<int> {
    if s != [] && s[0] == '-' then
      if IsNumeral(s[1..]) && s[1..][0] != '0' then Some(0 - DigitsValue(s[1..]) as int) else None
    else if IsNumeral(s) then Some(DigitsValue(s))
    else None
  }

  lemma {:induction false} NatToStringValue(n: nat)
    ensures DigitsValue(NatToString(n)) == n
    decreases n
  {
    if n >= 10 {
      NatToStringValue(n / 10);
      var r := NatToString(n);
      assert r[..|r| - 1] == NatToString(n / 10);
    }
  }

  /** The decimal rendering of an integer reads back as that integer. */
  lemma IntToStringRoundTrip(n: int)
    ensures ParseInt(IntToString(n)) == Some(n)
  {
    if n < 0 {
      NatToStringValue(-n);
      assert IntToString(n)[1..] == NatToString(-n);
    } else {
      NatToStringValue(n);
    }
  }

  lemma {:induction false} NumeralPositive(s: string)
    requires IsNumeral(s) && s[0] != '0'
    ensures DigitsValue(s) > 0
    decreases |s|
  {
    if |s| > 1 {
      NumeralPositive(s[..|s| - 1]);
    }
  }

  /** A numeral is the rendering of its value: there is only one way to write a number. */
  lemma {:induction false} NumeralCanonical(s: string)
    requires IsNumeral(s)
    ensures s == NatToString(DigitsValue(s))
    decreases |s|
  {
    var n := DigitsValue(s);
    var p := s[..|s| - 1];
    var d := DigitValue(s[|s| - 1]);
    assert n == 10 * DigitsValue(p) + d;
    if |s| == 1 {
      assert p == [];
      assert DigitChar(n) == s[0];
    } else {
      NumeralPositive(p);
      NumeralCanonical(p);
      assert n / 10 == DigitsValue(p) && n % 10 == d;
      assert DigitChar(d) == s[|s| - 1];
      assert s == p + [s[|s| - 1]];
    }
  }

  /** Whatever parses to an integer is that integer's rendering, so parsing is the inverse of rendering. */
  lemma ParseIntCanonical(s: string, n: int)
    requires ParseInt(s) == Some(n)
    ensures s == IntToString(n)
  {
    if s[0] == '-' {
      NumeralCanonical(s[1..]);
      NumeralPositive(s[1..]);
      assert s == "-" + s[1..];
    } else {
      NumeralCanonical(s);
    }
  }
}
