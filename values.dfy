/**
 * Cell values and rows as the spreadsheet reader hands them to the engine, and the
 * insertion-ordered output rows the engine builds.
 */
module Values {
  import opened Wrappers
  import opened Strings

  datatype Date = Date(year: int, month: int, day: int)

  /**
   * The calendar range of a .NET `DateTime`, bounded field by field: day 31 is allowed in
   * every month, a superset of the real dates that is harmless here because only the year
   * and the month of a date are ever used.
   */
  type CalendarDate = d: Date | 1 <= d.year <= 9999 && 1 <= d.month <= 12 && 1 <= d.day <= 31
    witness Date(1, 1, 1)

  /**
   * A cell value. `ToString()` of a number or a date depends on the current culture, so the
   * text it gives is carried with the value (`shown`); `Blank` is the reader's `DBNull`.
   */
  datatype Value =
    | Text(s: string)
    | Number(shown: string)
    | DateTime(date: CalendarDate, shown: string)
    | Blank

  /** `object.ToString()` of a cell value. */
  function ToText(v: Value): string {
    match v
    case Text(s) => s
    case Number(shown) => shown
    case DateTime(_, shown) => shown
    case Blank => ""
  }

  /**
   * `date.ToString("yyyyMM")`: six digits, a zero-padded four-digit year then a zero-padded
   * two-digit month, from which year and month read back.
   */
  function YearMonth(d: CalendarDate): (r: string)
    ensures |r| == 6 && AllDigits(r)
    ensures DigitsValue(r[..4]) == d.year && DigitsValue(r[4..]) == d.month
  {
    NatToStringLength(d.year, 4);
    NatToStringLength(d.month, 2);
    var y := PadZeros(NatToString(d.year), 4);
    var m := PadZeros(NatToString(d.month), 2);
    assert (y + m)[..4] == y && (y + m)[4..] == m;
    y + m
  }

  /** A row: header/value pairs in column order (a reader row, or an output row being built). */
  type Row = seq<(string, Value)>

  function Keys(row: Row): (r: seq<string>)
    ensures |r| == |row| && forall i :: 0 <= i < |row| ==> r[i] == row[i].0
  {
    seq(|row|, i requires 0 <= i < |row| => row[i].0)
  }

  predicate DistinctKeys(row: Row) {
    forall i, j :: 0 <= i < j < |row| ==> row[i].0 != row[j].0
  }

  /** Position of the first entry whose key is exactly `k`, or -1. */
  function IndexOf(row: Row, k: string): (r: int)
    ensures -1 <= r < |row|
    ensures r >= 0 ==> row[r].0 == k && forall j :: 0 <= j < r ==> row[j].0 != k
    ensures r < 0 ==> forall j :: 0 <= j < |row| ==> row[j].0 != k
  {
    if row == [] then -1
    else if row[0].0 == k then 0
    else
      var t := IndexOf(row[1..], k);
      if t < 0 then -1 else t + 1
  }

  /** `row.TryGetValue(k, out v)` on an ordinal dictionary. */
  function Lookup(row: Row, k: string): Option<Value> {
    var i := IndexOf(row, k);
    if i < 0 then None else Some(row[i].1)
  }

  /** `row.Keys.FirstOrDefault(key => key.Equals(k, StringComparison.OrdinalIgnoreCase))`. */
  function FirstKeyIgnoreCase(row: Row, k: string): (r: Option<string>)
    ensures r.None? <==> forall j :: 0 <= j < |row| ==> !EqualsIgnoreCase(row[j].0, k)
    ensures r.Some? ==>
              exists j :: 0 <= j < |row| && row[j].0 == r.value && EqualsIgnoreCase(r.value, k)
                && forall i :: 0 <= i < j ==> !EqualsIgnoreCase(row[i].0, k)
  {
    if row == [] then None
    else if EqualsIgnoreCase(row[0].0, k) then Some(row[0].0)
    else
      var t := FirstKeyIgnoreCase(row[1..], k);
      if t.Some? then
        var j :| 0 <= j < |row| - 1 && row[1..][j].0 == t.value && EqualsIgnoreCase(t.value, k)
                 && forall i :: 0 <= i < j ==> !EqualsIgnoreCase(row[1..][i].0, k);
        assert forall i :: 0 <= i < j + 1 ==> !EqualsIgnoreCase(row[i].0, k) by {
          forall i | 0 <= i < j + 1 ensures !EqualsIgnoreCase(row[i].0, k) {
            if i > 0 { assert row[i] == row[1..][i - 1]; }
          }
        }
        t
      else t
  }

  /** `out[k] = v` on an insertion-ordered dictionary: update in place, or append a new key. */
  function Put(out: Row, k: string, v: Value): Row {
    var i := IndexOf(out, k);
    if i >= 0 then out[i := (k, v)] else out + [(k, v)]
  }

  /** Writing a key leaves the other keys' values and the key order alone. */
  lemma PutLookup(out: Row, k: string, v: Value, k': string)
    ensures Lookup(Put(out, k, v), k') == if k' == k then Some(v) else Lookup(out, k')
    ensures Keys(Put(out, k, v)) == if k in Keys(out) then Keys(out) else Keys(out) + [k]
  {
    var i := IndexOf(out, k);
    var r := Put(out, k, v);
    if i >= 0 {
      assert k in Keys(out) by { assert Keys(out)[i] == k; }
      assert Keys(r) == Keys(out);
      if k' != k {
        var j := IndexOf(out, k');
        var j' := IndexOf(r, k');
        if j >= 0 { assert r[j].0 == k'; }
        if j' >= 0 { assert out[j'].0 == k'; }
        assert j == j';
      }
    } else {
      assert k !in Keys(out);
      assert Keys(r) == Keys(out) + [k];
      if k' != k {
        var j := IndexOf(out, k');
        var j' := IndexOf(r, k');
        if j' >= 0 && j' < |out| { assert out[j'].0 == k'; }
        if j >= 0 { assert r[j].0 == k'; }
        assert j == j' || (j < 0 && j' < 0);
      } else {
        assert r[|out|].0 == k;
        assert IndexOf(r, k) == |out|;
      }
    }
  }

  lemma PutDistinct(out: Row, k: string, v: Value)
    requires DistinctKeys(out)
    ensures DistinctKeys(Put(out, k, v))
  {
  }
}
