/**
 * The string primitives of the .NET base library that the column engine relies on:
 * `char.IsWhiteSpace`, `string.IsNullOrWhiteSpace`, `Trim`, ordinal case-insensitive
 * comparison and search, `Split(char)` and decimal formatting of counters.
 */
module Strings {

  /** `char.IsWhiteSpace`: the Unicode space, line and paragraph separators plus U+0009..U+000D and U+0085. */
  predicate IsWhiteSpace(c: char) {
    || ('\U{0009}' <= c <= '\U{000D}')
    || c == ' ' || c == '\U{0085}' || c == '\U{00A0}' || c == '\U{1680}'
    || ('\U{2000}' <= c <= '\U{200A}')
    || c == '\U{2028}' || c == '\U{2029}' || c == '\U{202F}' || c == '\U{205F}' || c == '\U{3000}'
  }

  /** `string.IsNullOrWhiteSpace` on a non-null string: empty, or white space only. */
  predicate IsBlank(s: string) {
    forall i :: 0 <= i < |s| ==> IsWhiteSpace(s[i])
  }

  /** `TrimStart()`: drops the leading white space. */
  function TrimStart(s: string): (r: string)
    ensures |r| <= |s| && r == s[|s| - |r|..]
    ensures forall i :: 0 <= i < |s| - |r| ==> IsWhiteSpace(s[i])
    ensures r == [] || !IsWhiteSpace(r[0])
  {
    if s != [] && IsWhiteSpace(s[0]) then TrimStart(s[1..]) else s
  }

  /** `TrimEnd()`: drops the trailing white space. */
  function TrimEnd(s: string): (r: string)
    ensures |r| <= |s| && r == s[..|r|]
    ensures forall i :: |r| <= i < |s| ==> IsWhiteSpace(s[i])
    ensures r == [] || !IsWhiteSpace(r[|r| - 1])
  {
    if s != [] && IsWhiteSpace(s[|s| - 1]) then TrimEnd(s[..|s| - 1]) else s
  }

  /** `Trim()`: drops white space at both ends; the result is empty exactly for blank input. */
  function Trim(s: string): (r: string)
    ensures |r| <= |s|
    ensures r == [] <==> IsBlank(s)
    ensures r != [] ==> !IsWhiteSpace(r[0]) && !IsWhiteSpace(r[|r| - 1])
    ensures forall c :: c in r ==> c in s
    ensures exists lo, hi :: 0 <= lo <= hi <= |s| && r == s[lo..hi] && IsBlank(s[..lo]) && IsBlank(s[hi..])
  {
    var a := TrimStart(s);
    TrimStartBlank(s);
    var r := TrimEnd(a);
    assert r != [] ==> r[0] == a[0];
    assert forall c :: c in r ==> c in a;
    TrimBounds(s);
    r
  }

  /** The trimmed text is a slice of `s` with only white space before and after it. */
  lemma TrimBounds(s: string)
    ensures exists lo, hi :: 0 <= lo <= hi <= |s| && TrimEnd(TrimStart(s)) == s[lo..hi]
              && IsBlank(s[..lo]) && IsBlank(s[hi..])
  {
    var lo, hi := TrimSlice(s);
  }

  /** Witnesses for `TrimBounds`. */
  lemma TrimSlice(s: string) returns (lo: nat, hi: nat)
    ensures lo <= hi <= |s| && TrimEnd(TrimStart(s)) == s[lo..hi]
    ensures IsBlank(s[..lo]) && IsBlank(s[hi..])
  {
    lo, hi := TrimPlace(s);
    TrimOutside(s, lo, hi);
    BlankPrefix(s, lo);
    BlankSuffix(s, hi);
  }

  /** The trimmed text starts where the leading white space ends. */
  lemma TrimPlace(s: string) returns (lo: int, hi: int)
    ensures 0 <= lo <= hi <= |s| && TrimEnd(TrimStart(s)) == s[lo..hi]
    ensures lo == |s| - |TrimStart(s)|
  {
    var a := TrimStart(s);
    var t := TrimEnd(a);
    lo := |s| - |a|;
    hi := lo + |t|;
    PrefixOfSuffix(s, a, t);
  }

  /** A prefix of a suffix of `s` is a slice of `s`. */
  lemma PrefixOfSuffix(s: string, a: string, t: string)
    requires |a| <= |s| && a == s[|s| - |a|..]
    requires |t| <= |a| && t == a[..|t|]
    ensures t == s[|s| - |a|..|s| - |a| + |t|]
  {
  }

  /** The characters around the trimmed text are white space. */
  lemma TrimOutside(s: string, lo: int, hi: int)
    requires 0 <= lo <= hi <= |s| && TrimEnd(TrimStart(s)) == s[lo..hi]
    requires lo == |s| - |TrimStart(s)|
    ensures forall i :: 0 <= i < lo ==> IsWhiteSpace(s[i])
    ensures forall i :: hi <= i < |s| ==> IsWhiteSpace(s[i])
  {
    var a := TrimStart(s);
    assert a == s[lo..];
    assert forall i :: hi <= i < |s| ==> s[i] == a[i - lo];
  }

  /** A prefix of white-space characters is blank. */
  lemma BlankPrefix(s: string, n: nat)
    requires n <= |s|
    requires forall i :: 0 <= i < n ==> IsWhiteSpace(s[i])
    ensures IsBlank(s[..n])
  {
  }

  /** A suffix of white-space characters is blank. */
  lemma BlankSuffix(s: string, n: nat)
    requires n <= |s|
    requires forall i :: n <= i < |s| ==> IsWhiteSpace(s[i])
    ensures IsBlank(s[n..])
  {
    assert forall i :: 0 <= i < |s| - n ==> s[n..][i] == s[n + i];
  }

  /** Trimming the start leaves nothing exactly when the string is blank. */
  lemma TrimStartBlank(s: string)
    ensures TrimStart(s) == [] <==> IsBlank(s)
  {
    var a := TrimStart(s);
    if a != [] {
      assert s[|s| - |a|] == a[0];
    }
  }

  lemma TrimStartOfTrimmed(s: string)
    requires s == [] || !IsWhiteSpace(s[0])
    ensures TrimStart(s) == s
  {
  }

  lemma TrimEndOfTrimmed(s: string)
    requires s == [] || !IsWhiteSpace(s[|s| - 1])
    ensures TrimEnd(s) == s
  {
  }

  /** Trimming a trimmed string changes nothing. */
  lemma TrimIdempotent(s: string)
    ensures Trim(Trim(s)) == Trim(s)
  {
    var t := Trim(s);
    TrimEndOfTrimmed(t);
    TrimStartOfTrimmed(t);
  }

  /** The per-character fold used by ordinal case-insensitive comparison (ASCII letters only). */
  function UpperAscii(c: char): char {
    if 'a' <= c <= 'z' then (c as int - 32) as char else c
  }

  function Fold(s: string): (r: string)
    ensures |r| == |s| && forall i :: 0 <= i < |s| ==> r[i] == UpperAscii(s[i])
  {
    seq(|s|, i requires 0 <= i < |s| => UpperAscii(s[i]))
  }

  /** `a.Equals(b, StringComparison.OrdinalIgnoreCase)`. */
  predicate EqualsIgnoreCase(a: string, b: string) {
    Fold(a) == Fold(b)
  }

  /** Two characters that are equal, or an ASCII lower-case letter and its upper-case form. */
  predicate SameIgnoringCase(x: char, y: char) {
    || x == y
    || ('a' <= x <= 'z' && y as int == x as int - 32)
    || ('a' <= y <= 'z' && x as int == y as int - 32)
  }

  /** Folding makes two characters equal exactly when they are the same up to ASCII case. */
  lemma UpperAsciiEqual(x: char, y: char)
    ensures UpperAscii(x) == UpperAscii(y) <==> SameIgnoringCase(x, y)
  {
    if 'a' <= x <= 'z' && !('a' <= y <= 'z') && UpperAscii(x) == UpperAscii(y) {
      assert y as int == x as int - 32;
    }
    if 'a' <= y <= 'z' && !('a' <= x <= 'z') && UpperAscii(x) == UpperAscii(y) {
      assert x as int == y as int - 32;
    }
  }

  /**
   * Ordinal case-insensitive equality: the same length, and at each position the same
   * character up to ASCII case.
   */
  lemma EqualsIgnoreCaseByChars(a: string, b: string)
    ensures EqualsIgnoreCase(a, b) <==>
              |a| == |b| && forall i :: 0 <= i < |a| ==> SameIgnoringCase(a[i], b[i])
  {
    forall i | 0 <= i < |a| && i < |b|
      ensures Fold(a)[i] == Fold(b)[i] <==> SameIgnoringCase(a[i], b[i])
    {
      UpperAsciiEqual(a[i], b[i]);
    }
    if |a| == |b| && forall i :: 0 <= i < |a| ==> SameIgnoringCase(a[i], b[i]) {
      assert Fold(a) == Fold(b);
    }
  }

  /** True when `p` occurs in `s` at some position. */
  predicate IsInfix(p: string, s: string)
    decreases |s|
  {
    p <= s || (s != [] && IsInfix(p, s[1..]))
  }

  /** `s.Contains(p, StringComparison.OrdinalIgnoreCase)`. */
  predicate ContainsIgnoreCase(s: string, p: string) {
    IsInfix(Fold(p), Fold(s))
  }

  /** `s.Split(sep)` without options: the pieces between separators, empty pieces included. */
  function Split(s: string, sep: char): (r: seq<string>)
    ensures |r| >= 1
    ensures forall k :: 0 <= k < |r| ==> sep !in r[k]
    ensures Join(r, sep) == s
    decreases |s|
  {
    if s == [] then [""]
    else
      var rest := Split(s[1..], sep);
      if s[0] == sep then
        assert ([""] + rest)[1..] == rest;
        [""] + rest
      else
        var r := [[s[0]] + rest[0]] + rest[1..];
        assert r[1..] == rest[1..];
        r
  }

  /** `string.Join(sep, parts)`: the pieces with one separator between neighbours. */
  function Join(parts: seq<string>, sep: char): string {
    if parts == [] then ""
    else if |parts| == 1 then parts[0]
    else parts[0] + [sep] + Join(parts[1..], sep)
  }

  /** The filter that `StringSplitOptions.RemoveEmptyEntries` applies to the pieces. */
  function NonEmpty(parts: seq<string>): (r: seq<string>)
    ensures forall k :: 0 <= k < |r| ==> r[k] != [] && r[k] in parts
    ensures forall k :: 0 <= k < |parts| && parts[k] != [] ==> parts[k] in r
  {
    if parts == [] then []
    else if parts[0] == [] then NonEmpty(parts[1..])
    else [parts[0]] + NonEmpty(parts[1..])
  }

  /** The filter keeps every non-empty piece, in the order of the pieces. */
  lemma {:induction false} NonEmptyAppend(parts: seq<string>, p: string)
    ensures NonEmpty(parts + [p]) == NonEmpty(parts) + (if p == [] then [] else [p])
  {
    if parts == [] {
      assert parts + [p] == [p];
    } else {
      assert (parts + [p])[1..] == parts[1..] + [p];
      NonEmptyAppend(parts[1..], p);
    }
  }

  /** The leading characters of `s` before the first `sep`. */
  function TakeUntil(s: string, sep: char): (r: string)
    ensures r <= s && sep !in r
    ensures |r| < |s| ==> s[|r|] == sep
  {
    if s == [] || s[0] == sep then [] else [s[0]] + TakeUntil(s[1..], sep)
  }

  /** `s` without its leading run of `sep`. */
  function DropLeading(s: string, sep: char): (r: string)
    ensures |r| <= |s| && r == s[|s| - |r|..]
    ensures forall i :: 0 <= i < |s| - |r| ==> s[i] == sep
    ensures r == [] || r[0] != sep
  {
    if s != [] && s[0] == sep then DropLeading(s[1..], sep) else s
  }

  lemma {:induction false} SplitHead(s: string, sep: char)
    ensures Split(s, sep)[0] == TakeUntil(s, sep)
    decreases |s|
  {
    if s != [] && s[0] != sep {
      SplitHead(s[1..], sep);
    }
  }

  /**
   * Splitting with empty pieces removed: nothing survives exactly when `s` is made of
   * separators only, and otherwise the first survivor is the first run of non-separators.
   */
  lemma {:induction false} FirstNonEmptyPiece(s: string, sep: char)
    ensures NonEmpty(Split(s, sep)) == [] <==> forall i :: 0 <= i < |s| ==> s[i] == sep
    ensures NonEmpty(Split(s, sep)) != [] ==>
              NonEmpty(Split(s, sep))[0] == TakeUntil(DropLeading(s, sep), sep)
    decreases |s|
  {
    if s == [] {
    } else if s[0] == sep {
      FirstNonEmptyPiece(s[1..], sep);
      assert NonEmpty(Split(s, sep)) == NonEmpty(Split(s[1..], sep));
      if forall i :: 0 <= i < |s| - 1 ==> s[1..][i] == sep {
        assert forall i :: 0 <= i < |s| ==> s[i] == sep by {
          forall i | 0 <= i < |s| ensures s[i] == sep {
            if i > 0 { assert s[i] == s[1..][i - 1]; }
          }
        }
      }
    } else {
      var rest := Split(s[1..], sep);
      SplitHead(s[1..], sep);
      assert Split(s, sep)[0] == [s[0]] + rest[0];
      assert NonEmpty(Split(s, sep))[0] == [s[0]] + rest[0];
    }
  }

  /** Decimal digits. */
  predicate IsDigit(c: char) {
    '0' <= c <= '9'
  }

  predicate AllDigits(s: string) {
    forall i :: 0 <= i < |s| ==> IsDigit(s[i])
  }

  /** The value of a string of decimal digits (the inverse of formatting). */
  function DigitsValue(s: string): nat
    requires AllDigits(s)
  {
    if s == [] then 0 else DigitsValue(s[..|s| - 1]) * 10 + (s[|s| - 1] as int - '0' as int)
  }

  /** `n.ToString()` for a non-negative integer: shortest decimal form. */
  function NatToString(n: nat): (r: string)
    ensures r != [] && AllDigits(r) && DigitsValue(r) == n
    ensures |r| == 1 <==> n < 10
    ensures n >= 10 ==> r[0] != '0'
  {
    var d := ['0' + (n % 10) as char];
    if n < 10 then d
    else
      var r := NatToString(n / 10) + d;
      assert r[..|r| - 1] == NatToString(n / 10);
      r
  }

  lemma {:induction false} NatToStringLength(n: nat, k: nat)
    requires n < Power10(k) && k >= 1
    ensures |NatToString(n)| <= k
  {
    if n >= 10 {
      NatToStringLength(n / 10, k - 1);
    }
  }

  function Power10(k: nat): nat {
    if k == 0 then 1 else 10 * Power10(k - 1)
  }

  /** Left-pads `s` with '0' up to `width` characters, as the custom formats "yyyy" and "MM" do. */
  function PadZeros(s: string, width: nat): (r: string)
    requires AllDigits(s)
    ensures AllDigits(r) && |r| == if |s| >= width then |s| else width
    ensures r[|r| - |s|..] == s
    ensures DigitsValue(r) == DigitsValue(s)
    decreases width - |s|
  {
    if |s| >= width then s
    else
      var r := PadZeros(['0'] + s, width);
      LeadingZero(s);
      r
  }

  lemma {:induction false} LeadingZero(s: string)
    requires AllDigits(s)
    ensures AllDigits(['0'] + s) && DigitsValue(['0'] + s) == DigitsValue(s)
    decreases |s|
  {
    if s != [] {
      var t := ['0'] + s;
      assert t[..|t| - 1] == ['0'] + s[..|s| - 1];
      LeadingZero(s[..|s| - 1]);
    }
  }
}
