/**
 * The business helpers of the spreadsheet service: job-value cleaning, job-column
 * detection and period extraction. Reading and writing files are not part of this module;
 * the consolidation receives their results as parameters.
 */
module ExcelService {
  import opened Wrappers
  import opened Strings
  import opened Values

  /** `DateTime.TryParse` under the current culture: deterministic, otherwise unknown. */
  type DateParser = string -> Option<CalendarDate>

  predicate AllDashes(s: string) {
    forall i :: 0 <= i < |s| ==> s[i] == '-'
  }

  /**
   * `CleanJobValue`: blank input gives ""; otherwise the first non-empty `-`-separated
   * fragment, trimmed; an input made of dashes only has no such fragment and is returned
   * as it is.
   */
  function CleanJobValue(raw: Option<string>): (r: string)
    ensures raw.None? || IsBlank(raw.value) ==> r == ""
    ensures raw.Some? && !IsBlank(raw.value) && AllDashes(raw.value) ==> r == raw.value
    ensures raw.Some? && !AllDashes(raw.value) ==>
              r == Trim(TakeUntil(DropLeading(raw.value, '-'), '-'))
    ensures '-' in r ==> raw.Some? && AllDashes(raw.value) && r == raw.value
  {
    if raw.None? || IsBlank(raw.value) then ""
    else
      var parts := NonEmpty(Split(raw.value, '-'));
      FirstNonEmptyPiece(raw.value, '-');
      if |parts| > 0 then Trim(parts[0]) else raw.value
  }

  /** Without a dash in it, a non-blank value is only trimmed. */
  lemma CleanJobValueWithoutDash(s: string)
    requires !IsBlank(s) && '-' !in s
    ensures CleanJobValue(Some(s)) == Trim(s)
  {
    assert s[0] != '-';
    assert DropLeading(s, '-') == s;
    TakeUntilWithoutSep(s, '-');
  }

  lemma {:induction false} TakeUntilWithoutSep(s: string, sep: char)
    requires sep !in s
    ensures TakeUntil(s, sep) == s
    decreases |s|
  {
    if s != [] {
      TakeUntilWithoutSep(s[1..], sep);
    }
  }

  /** Cleaning a cleaned value changes nothing. */
  lemma CleanJobValueIdempotent(raw: Option<string>)
    ensures CleanJobValue(Some(CleanJobValue(raw))) == CleanJobValue(raw)
  {
    var r := CleanJobValue(raw);
    if IsBlank(r) {
    } else if '-' in r {
      assert AllDashes(r);
    } else {
      CleanJobValueWithoutDash(r);
      assert r == Trim(TakeUntil(DropLeading(raw.value, '-'), '-'));
      TrimIdempotent(TakeUntil(DropLeading(raw.value, '-'), '-'));
    }
  }

  /**
   * `IsJobColumn`: a non-blank header containing both "Tipo" and "Trabajo", ignoring case.
   */
  predicate IsJobColumn(header: string) {
    !IsBlank(header) && ContainsIgnoreCase(header, "Tipo") && ContainsIgnoreCase(header, "Trabajo")
  }

  lemma {:induction false} InfixCharsOccur(p: string, s: string, k: nat)
    requires k < |p| && IsInfix(p, s)
    ensures p[k] in s
    decreases |s|
  {
    if p <= s {
      assert s[k] == p[k];
    } else {
      InfixCharsOccur(p, s[1..], k);
    }
  }

  /** A character of `p` that `s` lacks rules out every occurrence of `p` in `s`. */
  lemma AbsentCharExcludes(p: string, s: string, k: nat)
    requires k < |p| && p[k] !in s
    ensures !IsInfix(p, s)
  {
    if IsInfix(p, s) {
      InfixCharsOccur(p, s, k);
    }
  }

  /** The blank test is implied by the two fragment tests: they alone decide a job column. */
  lemma IsJobColumnByFragments(header: string)
    ensures IsJobColumn(header) <==>
              ContainsIgnoreCase(header, "Tipo") && ContainsIgnoreCase(header, "Trabajo")
  {
    if ContainsIgnoreCase(header, "Tipo") {
      assert Fold("Tipo")[0] == 'T';
      InfixCharsOccur(Fold("Tipo"), Fold(header), 0);
      var i :| 0 <= i < |header| && Fold(header)[i] == 'T';
      assert !IsWhiteSpace(header[i]);
    }
  }

  lemma {:induction false} InfixAt(p: string, s: string, k: nat)
    requires k + |p| <= |s| && s[k..k + |p|] == p
    ensures IsInfix(p, s)
    decreases k
  {
    if k == 0 {
      assert p <= s;
    } else {
      assert s[1..][k - 1..k - 1 + |p|] == p;
      InfixAt(p, s[1..], k - 1);
    }
  }

  /** A case-insensitive occurrence of `p` at position `k` of `s`. */
  lemma ContainsAt(s: string, p: string, k: nat)
    requires k + |p| <= |s| && EqualsIgnoreCase(s[k..k + |p|], p)
    ensures ContainsIgnoreCase(s, p)
  {
    assert Fold(s)[k..k + |p|] == Fold(s[k..k + |p|]);
    InfixAt(Fold(p), Fold(s), k);
  }

  lemma JobColumnExampleSpaced()
    ensures IsJobColumn("Tipo de Trabajo")
  {
    var h := "Tipo de Trabajo";
    assert !IsWhiteSpace(h[0]);
    assert h[0..4] == "Tipo";
    ContainsAt(h, "Tipo", 0);
    assert h[8..15] == "Trabajo";
    ContainsAt(h, "Trabajo", 8);
  }

  lemma JobColumnExampleUpper()
    ensures IsJobColumn("TIPO_TRABAJO")
  {
    var h := "TIPO_TRABAJO";
    assert !IsWhiteSpace(h[0]);
    assert Fold(h[0..4]) == Fold("Tipo");
    ContainsAt(h, "Tipo", 0);
    assert Fold(h[5..12]) == Fold("Trabajo");
    ContainsAt(h, "Trabajo", 5);
  }

  lemma JobColumnExampleAlone()
    ensures !IsJobColumn("Trabajo")
  {
    var h := "Trabajo";
    assert Fold("Tipo")[1] == 'I' && 'I' !in Fold(h);
    AbsentCharExcludes(Fold("Tipo"), Fold(h), 1);
  }

  // ---------------------------------------------------------------------------------------
  // The date pattern  (\d{4}[-/]\d{1,2}[-/]\d{1,2})|(\d{1,2}[-/]\d{1,2}[-/]\d{4})
  // with ASCII digits. `MatchAt` tries the alternatives and the lengths of the `{1,2}`
  // groups in the order of a backtracking matcher: left alternative first, two digits
  // before one.
  // ---------------------------------------------------------------------------------------

  predicate IsSep(c: char) {
    c == '-' || c == '/'
  }

  predicate DigitAt(s: string, i: int) {
    0 <= i < |s| && IsDigit(s[i])
  }

  predicate SepAt(s: string, i: int) {
    0 <= i < |s| && IsSep(s[i])
  }

  predicate FourDigitsAt(s: string, i: int) {
    DigitAt(s, i) && DigitAt(s, i + 1) && DigitAt(s, i + 2) && DigitAt(s, i + 3)
  }

  /** Length taken by a final greedy `\d{1,2}` at `i`, or 0. */
  function GreedyOneOrTwo(s: string, i: int): nat {
    if DigitAt(s, i) && DigitAt(s, i + 1) then 2 else if DigitAt(s, i) then 1 else 0
  }

  /** Length of a match of the year-first alternative starting at `i`. */
  function YearFirstAt(s: string, i: nat): Option<nat> {
    if !(FourDigitsAt(s, i) && SepAt(s, i + 4)) then None
    else if DigitAt(s, i + 5) && DigitAt(s, i + 6) && SepAt(s, i + 7) && DigitAt(s, i + 8) then
      Some(8 + GreedyOneOrTwo(s, i + 8))
    else if DigitAt(s, i + 5) && SepAt(s, i + 6) && DigitAt(s, i + 7) then
      Some(7 + GreedyOneOrTwo(s, i + 7))
    else None
  }

  /** Length of a match of the year-last alternative starting at `i`. */
  function YearLastAt(s: string, i: nat): Option<nat> {
    if DigitAt(s, i) && DigitAt(s, i + 1) && SepAt(s, i + 2)
       && DigitAt(s, i + 3) && DigitAt(s, i + 4) && SepAt(s, i + 5) && FourDigitsAt(s, i + 6) then Some(10)
    else if DigitAt(s, i) && DigitAt(s, i + 1) && SepAt(s, i + 2)
       && DigitAt(s, i + 3) && SepAt(s, i + 4) && FourDigitsAt(s, i + 5) then Some(9)
    else if DigitAt(s, i) && SepAt(s, i + 1)
       && DigitAt(s, i + 2) && DigitAt(s, i + 3) && SepAt(s, i + 4) && FourDigitsAt(s, i + 5) then Some(9)
    else if DigitAt(s, i) && SepAt(s, i + 1)
       && DigitAt(s, i + 2) && SepAt(s, i + 3) && FourDigitsAt(s, i + 4) then Some(8)
    else None
  }

  function MatchAt(s: string, i: nat): Option<nat> {
    var a := YearFirstAt(s, i);
    if a.Some? then a else YearLastAt(s, i)
  }

  /** Start and length of the first (leftmost) match at or after `i`. */
  function FirstMatchFrom(s: string, i: nat): Option<(nat, nat)>
    decreases |s| - i
  {
    if i >= |s| then None
    else
      var m := MatchAt(s, i);
      if m.Some? then Some((i, m.value)) else FirstMatchFrom(s, i + 1)
  }

  /** `Regex.Match(text, pattern)`: the matched text, when the match succeeds. */
  function FirstMatch(s: string): Option<string> {
    match FirstMatchFrom(s, 0)
    case None => None
    case Some((i, n)) => if i + n <= |s| then Some(s[i..i + n]) else None
  }

  // A declarative reading of the pattern, independent of the matcher above.

  predicate Digits(m: string, from: int, len: int) {
    0 <= from && from + len <= |m| && forall k :: from <= k < from + len ==> IsDigit(m[k])
  }

  /** `m` has the shape year, separator, `a` digits, separator, `b` digits. */
  predicate YearFirstShape(m: string, a: int, b: int) {
    1 <= a <= 2 && 1 <= b <= 2 && |m| == 6 + a + b && Digits(m, 0, 4) && IsSep(m[4]) && Digits(m, 5, a) && IsSep(m[5 + a]) && Digits(m, 6 + a, b)
  }

  /** `m` has the shape `a` digits, separator, `b` digits, separator, year. */
  predicate YearLastShape(m: string, a: int, b: int) {
    1 <= a <= 2 && 1 <= b <= 2 && |m| == 6 + a + b && Digits(m, 0, a) && IsSep(m[a]) && Digits(m, a + 1, b) && IsSep(m[a + b + 1]) && Digits(m, a + b + 2, 4)
  }

  predicate MatchesPattern(m: string) {
    exists a, b | 1 <= a <= 2 && 1 <= b <= 2 :: YearFirstShape(m, a, b) || YearLastShape(m, a, b)
  }

  /** The `len` characters of `s` from position `k` match the pattern. */
  predicate PatternAt(s: string, k: nat, len: nat) {
    k + len <= |s| && MatchesPattern(s[k..k + len])
  }

  /** What `MatchAt` reports is a match of the pattern. */
  lemma MatchAtSound(s: string, i: nat)
    requires MatchAt(s, i).Some?
    ensures i + MatchAt(s, i).value <= |s| && MatchesPattern(s[i..i + MatchAt(s, i).value])
  {
    var n := MatchAt(s, i).value;
    var m := s[i..i + n];
    if YearFirstAt(s, i).Some? {
      var a := if DigitAt(s, i + 5) && DigitAt(s, i + 6) && SepAt(s, i + 7) && DigitAt(s, i + 8) then 2 else 1;
      var b := n - 6 - a;
      assert YearFirstShape(m, a, b);
    } else {
      var a, b;
      if n == 10 {
        a, b := 2, 2;
      } else if n == 8 {
        a, b := 1, 1;
      } else if DigitAt(s, i) && DigitAt(s, i + 1) && SepAt(s, i + 2) && DigitAt(s, i + 3) && SepAt(s, i + 4) && FourDigitsAt(s, i + 5) {
        a, b := 2, 1;
      } else {
        a, b := 1, 2;
      }
      assert YearLastShape(m, a, b);
    }
  }

  /**
   * Wherever the pattern matches, `MatchAt` reports a match, and one at least as long: the
   * greedy `\d{1,2}` takes the longest match from that start.
   */
  lemma MatchAtComplete(s: string, i: nat, n: nat)
    requires i + n <= |s| && MatchesPattern(s[i..i + n])
    ensures MatchAt(s, i).Some? && n <= MatchAt(s, i).value
  {
    var m := s[i..i + n];
    var a, b :| 1 <= a <= 2 && 1 <= b <= 2 && (YearFirstShape(m, a, b) || YearLastShape(m, a, b));
    assert forall k :: 0 <= k < n ==> m[k] == s[i + k];
    if YearFirstShape(m, a, b) {
      assert IsDigit(m[0]) && IsDigit(m[1]) && IsDigit(m[2]) && IsDigit(m[3]) && IsSep(m[4]) && IsDigit(m[5]);
      assert FourDigitsAt(s, i) && SepAt(s, i + 4) && DigitAt(s, i + 5);
      if a == 1 {
        assert IsSep(m[6]) && IsDigit(m[7]);
        assert SepAt(s, i + 6) && DigitAt(s, i + 7);
      } else {
        assert IsDigit(m[6]) && IsSep(m[7]) && IsDigit(m[8]);
        assert DigitAt(s, i + 6) && SepAt(s, i + 7) && DigitAt(s, i + 8);
      }
    } else {
      assert IsDigit(m[0]);
      if a == 2 {
        assert IsDigit(m[1]) && IsSep(m[2]) && IsDigit(m[3]);
        if b == 2 {
          assert IsDigit(m[4]) && IsSep(m[5]);
          assert IsDigit(m[6]) && IsDigit(m[7]) && IsDigit(m[8]) && IsDigit(m[9]);
          assert DigitAt(s, i) && DigitAt(s, i + 1) && SepAt(s, i + 2) && DigitAt(s, i + 3);
          assert DigitAt(s, i + 4) && SepAt(s, i + 5) && FourDigitsAt(s, i + 6);
        } else {
          assert IsSep(m[4]) && IsDigit(m[5]) && IsDigit(m[6]) && IsDigit(m[7]) && IsDigit(m[8]);
          assert DigitAt(s, i) && DigitAt(s, i + 1) && SepAt(s, i + 2) && DigitAt(s, i + 3);
          assert SepAt(s, i + 4) && FourDigitsAt(s, i + 5);
        }
      } else {
        assert IsSep(m[1]) && IsDigit(m[2]);
        if b == 2 {
          assert IsDigit(m[3]) && IsSep(m[4]);
          assert IsDigit(m[5]) && IsDigit(m[6]) && IsDigit(m[7]) && IsDigit(m[8]);
          assert DigitAt(s, i) && SepAt(s, i + 1) && DigitAt(s, i + 2) && DigitAt(s, i + 3);
          assert SepAt(s, i + 4) && FourDigitsAt(s, i + 5);
        } else {
          assert IsSep(m[3]) && IsDigit(m[4]) && IsDigit(m[5]) && IsDigit(m[6]) && IsDigit(m[7]);
          assert DigitAt(s, i) && SepAt(s, i + 1) && DigitAt(s, i + 2);
          assert SepAt(s, i + 3) && FourDigitsAt(s, i + 4);
        }
      }
    }
  }

  /**
   * The match is the leftmost-longest one: it matches the pattern, no earlier position
   * starts any match, and no longer match starts where it does; without a match, no part of
   * `s` matches.
   */
  lemma {:induction false} FirstMatchFromLeftmost(s: string, i: nat)
    ensures FirstMatchFrom(s, i).Some? ==>
              var (j, n) := FirstMatchFrom(s, i).value;
              i <= j && PatternAt(s, j, n) && (forall k: nat, len: nat :: i <= k < j ==> !PatternAt(s, k, len))
              && forall len: nat :: PatternAt(s, j, len) ==> len <= n
    ensures FirstMatchFrom(s, i).None? ==> forall k: nat, len: nat :: i <= k ==> !PatternAt(s, k, len)
    decreases |s| - i
  {
    if i >= |s| {
      forall k: nat, len: nat | i <= k ensures !PatternAt(s, k, len) {
        if k + len <= |s| {
          assert s[k..k + len] == [];
        }
      }
    } else if MatchAt(s, i).Some? {
      MatchAtSound(s, i);
      forall len: nat | PatternAt(s, i, len) ensures len <= MatchAt(s, i).value {
        MatchAtComplete(s, i, len);
      }
    } else {
      FirstMatchFromLeftmost(s, i + 1);
      forall len: nat ensures !PatternAt(s, i, len) {
        if PatternAt(s, i, len) {
          MatchAtComplete(s, i, len);
        }
      }
    }
  }

  /**
   * `FirstMatch` gives the longest text that matches the pattern at the leftmost position
   * where any text does, and fails only without one.
   */
  lemma FirstMatchLeftmost(s: string)
    ensures FirstMatch(s).Some? ==>
              exists j: nat :: PatternAt(s, j, |FirstMatch(s).value|) && s[j..j + |FirstMatch(s).value|] == FirstMatch(s).value
                && (forall k: nat, len: nat :: k < j ==> !PatternAt(s, k, len))
                && forall len: nat :: PatternAt(s, j, len) ==> len <= |FirstMatch(s).value|
    ensures FirstMatch(s).None? ==> forall k: nat, len: nat :: !PatternAt(s, k, len)
  {
    FirstMatchFromLeftmost(s, 0);
  }

  /** `ExtractPeriodSmart`: the period "yyyyMM" of a cell value, or "". */
  function ExtractPeriodSmart(raw: Option<Value>, parse: DateParser): (r: string)
    ensures r == "" || (|r| == 6 && AllDigits(r))
    ensures raw.None? ==> r == ""
    ensures raw.Some? && raw.value.DateTime? ==> r == YearMonth(raw.value.date)
    ensures raw.Some? && !raw.value.DateTime? && IsBlank(ToText(raw.value)) ==> r == ""
    ensures raw.Some? && !raw.value.DateTime? && r != "" ==>
              var t := Trim(ToText(raw.value));
              || (parse(t).Some? && r == YearMonth(parse(t).value))
              || (parse(t).None? && FirstMatch(t).Some? && parse(FirstMatch(t).value).Some?
                  && r == YearMonth(parse(FirstMatch(t).value).value))
    ensures raw.Some? && !raw.value.DateTime? && !IsBlank(ToText(raw.value)) ==>
              var t := Trim(ToText(raw.value));
              && (parse(t).Some? ==> r == YearMonth(parse(t).value))
              && (parse(t).None? && FirstMatch(t).Some? && parse(FirstMatch(t).value).Some? ==>
                    r == YearMonth(parse(FirstMatch(t).value).value))
              && (parse(t).None? && (FirstMatch(t).None? || parse(FirstMatch(t).value).None?) ==> r == "")
  {
    match raw
    case None => ""
    case Some(v) =>
      if v.DateTime? then YearMonth(v.date)
      else
        var text := ToText(v);
        if IsBlank(text) then ""
        else
          var t := Trim(text);
          var direct := parse(t);
          if direct.Some? then YearMonth(direct.value)
          else
            var m := FirstMatch(t);
            if m.Some? && parse(m.value).Some? then YearMonth(parse(m.value).value) else ""
  }

  /** When the whole trimmed text is the match, the fallback parse repeats the failed one. */
  lemma FallbackNeedsSurroundingText(text: string, parse: DateParser)
    requires parse(Trim(text)).None? && FirstMatch(Trim(text)) == Some(Trim(text))
    ensures ExtractPeriodSmart(Some(Text(text)), parse) == ""
  {
  }

  lemma PatternStartsWithDigit(s: string, k: nat, len: nat)
    requires PatternAt(s, k, len)
    ensures IsDigit(s[k])
  {
    var m := s[k..k + len];
    var a, b :| 1 <= a <= 2 && 1 <= b <= 2 && (YearFirstShape(m, a, b) || YearLastShape(m, a, b));
    assert m[0] == s[k];
  }

  /** A text without digits never yields a period by the fallback. */
  lemma NoDigitsNoFallback(s: string)
    requires forall i :: 0 <= i < |s| ==> !IsDigit(s[i])
    ensures FirstMatch(s) == None
  {
    forall k: nat, len: nat ensures !PatternAt(s, k, len) {
      if PatternAt(s, k, len) {
        PatternStartsWithDigit(s, k, len);
      }
    }
    FirstMatchLeftmost(s);
  }

  /** Every match starts with a digit, so a position without one is skipped. */
  lemma SkipNonDigit(s: string, i: nat)
    requires i < |s| && !IsDigit(s[i])
    ensures FirstMatchFrom(s, i) == FirstMatchFrom(s, i + 1)
  {
  }

  /** A run of non-digits is skipped as a whole. */
  lemma {:induction false} SkipNonDigits(s: string, i: nat, j: nat)
    requires i <= j <= |s|
    requires forall k :: i <= k < j ==> !IsDigit(s[k])
    ensures FirstMatchFrom(s, i) == FirstMatchFrom(s, j)
    decreases j - i
  {
    if i < j {
      SkipNonDigit(s, i);
      SkipNonDigits(s, i + 1, j);
    }
  }

  /** The date of the example text is matched where it starts. */
  lemma EmbeddedDateAt()
    ensures FirstMatchFrom("Invoice 2023-07-15 paid", 8) == Some((8, 10))
  {
    var s := "Invoice 2023-07-15 paid";
    assert s[8] == '2' && s[9] == '0' && s[10] == '2' && s[11] == '3' && s[12] == '-';
    assert s[13] == '0' && s[14] == '7' && s[15] == '-' && s[16] == '1' && s[17] == '5';
    assert FourDigitsAt(s, 8) && SepAt(s, 12);
    assert DigitAt(s, 13) && DigitAt(s, 14) && SepAt(s, 15) && DigitAt(s, 16) && DigitAt(s, 17);
    assert GreedyOneOrTwo(s, 16) == 2;
    assert MatchAt(s, 8) == Some(10);
  }

  lemma EmbeddedDateStart()
    ensures FirstMatchFrom("Invoice 2023-07-15 paid", 0) == Some((8, 10))
  {
    var s := "Invoice 2023-07-15 paid";
    EmbeddedDateAt();
    assert s[..8] == "Invoice ";
    assert forall k :: 0 <= k < 8 ==> !IsDigit(s[k]) by {
      forall k | 0 <= k < 8
        ensures !IsDigit(s[k])
      {
        assert s[k] == "Invoice "[k];
      }
    }
    SkipNonDigits(s, 0, 8);
  }

  /** The leftmost match inside a longer text is the embedded date. */
  lemma EmbeddedDateMatch()
    ensures FirstMatch("Invoice 2023-07-15 paid") == Some("2023-07-15")
  {
    EmbeddedDateStart();
    assert "Invoice 2023-07-15 paid"[8..18] == "2023-07-15";
  }

  lemma YearMonthExample()
    ensures YearMonth(Date(2023, 7, 15)) == "202307"
  {
    assert NatToString(2) == "2";
    assert NatToString(20) == "20";
    assert NatToString(202) == "202";
    assert NatToString(2023) == "2023";
    assert PadZeros("2023", 4) == "2023";
    assert NatToString(7) == "7";
    assert PadZeros("7", 2) == PadZeros("07", 2) == "07";
  }

  lemma PeriodExampleEmbedded(parse: DateParser)
    requires parse("Invoice 2023-07-15 paid") == None
    requires parse("2023-07-15") == Some(Date(2023, 7, 15))
    ensures ExtractPeriodSmart(Some(Text("Invoice 2023-07-15 paid")), parse) == "202307"
  {
    var s := "Invoice 2023-07-15 paid";
    assert !IsBlank(s) by { assert !IsWhiteSpace(s[0]); }
    TrimStartOfTrimmed(s);
    TrimEndOfTrimmed(s);
    assert Trim(s) == s;
    EmbeddedDateMatch();
    YearMonthExample();
  }

  lemma PeriodExampleNoDate(parse: DateParser)
    requires parse("no date here") == None
    ensures ExtractPeriodSmart(Some(Text("no date here")), parse) == ""
    ensures ExtractPeriodSmart(Some(Text("")), parse) == ""
    ensures ExtractPeriodSmart(None, parse) == ""
  {
    var n := "no date here";
    assert !IsBlank(n) by { assert !IsWhiteSpace(n[0]); }
    TrimStartOfTrimmed(n);
    TrimEndOfTrimmed(n);
    assert Trim(n) == n;
    NoDigitsNoFallback(n);
  }
}
