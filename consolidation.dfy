/**
 * The row transformation shared by the full export and the preview: each row a reader gives
 * for a file becomes an output row holding the optional period entries, then one entry per
 * selected column.
 */
module Consolidation {
  import opened Wrappers
  import opened Strings
  import opened Values
  import opened Columns
  import opened Registry
  import opened ExcelService

  /**
   * The value a selected column writes for one row of one file: the default of a custom
   * column; otherwise the row's value under the header the column maps for that file, with
   * job cleaning when asked for and the column is a job column; "" when the file is not
   * mapped or the row lacks the header.
   */
  function ColumnValue(c: ColumnState, file: string, row: Row, cleanJob: bool): Value {
    if c.custom then Text(c.defaultValue)
    else
      var found := if file in c.mappings then Lookup(row, c.mappings[file]) else None;
      match found
      case None => Text("")
      case Some(v) => if cleanJob && IsJobColumn(c.header) then Text(CleanJobValue(Some(ToText(v)))) else v
  }

  /** The period computed from the row's value under the key equal to `name` ignoring case. */
  function PeriodOf(row: Row, name: string, parse: DateParser): string {
    match FirstKeyIgnoreCase(row, name)
    case None => ExtractPeriodSmart(None, parse)
    case Some(k) => ExtractPeriodSmart(Lookup(row, k), parse)
  }

  /** The entries written before any column: the two periods, when periods are generated. */
  function PeriodEntries(row: Row, generatePeriods: bool, parse: DateParser): Row {
    if generatePeriods then
      [("PeriodoL", Text(PeriodOf(row, "Fecha_Leg", parse))), ("PeriodoA", Text(PeriodOf(row, "Fecha_Asig", parse)))]
    else []
  }

  /** The selected columns, in order. */
  function Selected(cols: seq<ColumnState>): (r: seq<ColumnState>)
    ensures forall c :: c in r <==> c in cols && c.selected
  {
    if cols == [] then []
    else
      var pre := Selected(cols[..|cols| - 1]);
      var c := cols[|cols| - 1];
      assert forall x :: x in cols <==> x in cols[..|cols| - 1] || x == c;
      if c.selected then pre + [c] else pre
  }

  /** `out` with one entry written per column of `cols`, in order. */
  function FillColumns(out: Row, cols: seq<ColumnState>, file: string, row: Row, cleanJob: bool): Row {
    if cols == [] then out
    else
      var c := cols[|cols| - 1];
      Put(FillColumns(out, cols[..|cols| - 1], file, row, cleanJob), c.header, ColumnValue(c, file, row, cleanJob))
  }

  /** The output row built for one row of one file. */
  function TransformRow(file: string, row: Row, cols: seq<ColumnState>, generatePeriods: bool,
                        cleanJob: bool, parse: DateParser): Row {
    FillColumns(PeriodEntries(row, generatePeriods, parse), Selected(cols), file, row, cleanJob)
  }

  /** The last column of `cols` named exactly `k`. */
  function LastNamed(cols: seq<ColumnState>, k: string): (r: Option<ColumnState>)
    ensures r.Some? ==> r.value in cols && r.value.header == k
    ensures r.None? <==> forall i :: 0 <= i < |cols| ==> cols[i].header != k
  {
    if cols == [] then None
    else if cols[|cols| - 1].header == k then Some(cols[|cols| - 1])
    else
      var r := LastNamed(cols[..|cols| - 1], k);
      assert forall x :: x in cols[..|cols| - 1] ==> x in cols;
      assert forall i :: 0 <= i < |cols| - 1 ==> cols[i] == cols[..|cols| - 1][i];
      r
  }

  /** The last selected column of `cols` named exactly `k`. */
  function LastSelectedNamed(cols: seq<ColumnState>, k: string): Option<ColumnState> {
    if cols == [] then None
    else
      var c := cols[|cols| - 1];
      if c.selected && c.header == k then Some(c) else LastSelectedNamed(cols[..|cols| - 1], k)
  }

  lemma {:induction false} LastNamedSelected(cols: seq<ColumnState>, k: string)
    ensures LastNamed(Selected(cols), k) == LastSelectedNamed(cols, k)
  {
    if cols != [] {
      var pre := cols[..|cols| - 1];
      LastNamedSelected(pre, k);
      var c := cols[|cols| - 1];
      if c.selected {
        assert Selected(cols) == Selected(pre) + [c];
        assert (Selected(pre) + [c])[..|Selected(pre)|] == Selected(pre);
      }
    }
  }

  /**
   * Writing the columns in order: the keys already present keep their place and new ones are
   * appended once; the value under a key is that of the last column with that name, or the
   * old value when no column has it.
   */
  lemma FillColumnsProperties(out: Row, cols: seq<ColumnState>, file: string, row: Row,
                              cleanJob: bool, k: string)
    requires DistinctKeys(out)
    ensures DistinctKeys(FillColumns(out, cols, file, row, cleanJob))
    ensures Keys(out) <= Keys(FillColumns(out, cols, file, row, cleanJob))
    ensures k in Keys(FillColumns(out, cols, file, row, cleanJob)) <==>
              k in Keys(out) || exists i :: 0 <= i < |cols| && cols[i].header == k
    ensures Lookup(FillColumns(out, cols, file, row, cleanJob), k) ==
              match LastNamed(cols, k)
              case Some(c) => Some(ColumnValue(c, file, row, cleanJob))
              case None => Lookup(out, k)
    ensures Keys(FillColumns(out, cols, file, row, cleanJob)) == AppendMissing(Keys(out), Headers(cols))
  {
    FillColumnsKeys(out, cols, file, row, cleanJob);
    FillColumnsDistinct(out, cols, file, row, cleanJob);
    FillColumnsHasKey(out, cols, file, row, cleanJob, k);
    FillColumnsLookup(out, cols, file, row, cleanJob, k);
  }

  /**
   * `ks` followed by the names of `hs` that are not there yet, each once, in the order of
   * their first appearance (names compared exactly).
   */
  function AppendMissing(ks: seq<string>, hs: seq<string>): seq<string> {
    if hs == [] then ks
    else
      var acc := AppendMissing(ks, hs[..|hs| - 1]);
      if hs[|hs| - 1] in acc then acc else acc + [hs[|hs| - 1]]
  }

  /** The key order of a filled row: the old keys, then each new column name where it first occurs. */
  lemma {:induction false} FillColumnsKeys(out: Row, cols: seq<ColumnState>, file: string, row: Row,
                                           cleanJob: bool)
    ensures Keys(FillColumns(out, cols, file, row, cleanJob)) == AppendMissing(Keys(out), Headers(cols))
  {
    if cols != [] {
      var pre := cols[..|cols| - 1];
      var c := cols[|cols| - 1];
      FillColumnsKeys(out, pre, file, row, cleanJob);
      assert Headers(cols)[..|cols| - 1] == Headers(pre);
      PutLookup(FillColumns(out, pre, file, row, cleanJob), c.header, ColumnValue(c, file, row, cleanJob), c.header);
    }
  }

  /** The keys of a filled row: each once, the old ones first, then the new names. */
  lemma {:induction false} FillColumnsDistinct(out: Row, cols: seq<ColumnState>, file: string, row: Row,
                                               cleanJob: bool)
    requires DistinctKeys(out)
    ensures DistinctKeys(FillColumns(out, cols, file, row, cleanJob))
    ensures Keys(out) <= Keys(FillColumns(out, cols, file, row, cleanJob))
  {
    if cols != [] {
      var c := cols[|cols| - 1];
      var acc := FillColumns(out, cols[..|cols| - 1], file, row, cleanJob);
      FillColumnsDistinct(out, cols[..|cols| - 1], file, row, cleanJob);
      PutLookup(acc, c.header, ColumnValue(c, file, row, cleanJob), c.header);
      PutDistinct(acc, c.header, ColumnValue(c, file, row, cleanJob));
    }
  }

  /** A filled row has a key exactly when the old row or some column has it. */
  lemma FillColumnsHasKey(out: Row, cols: seq<ColumnState>, file: string, row: Row,
                          cleanJob: bool, k: string)
    ensures k in Keys(FillColumns(out, cols, file, row, cleanJob)) <==>
              k in Keys(out) || exists i :: 0 <= i < |cols| && cols[i].header == k
  {
    FillColumnsKeys(out, cols, file, row, cleanJob);
    AppendMissingHas(Keys(out), Headers(cols), k);
    if k in Headers(cols) {
      var i :| 0 <= i < |cols| && Headers(cols)[i] == k;
      assert cols[i].header == k;
    }
  }

  /** Appending the missing names adds exactly the names of `hs`. */
  lemma {:induction false} AppendMissingHas(ks: seq<string>, hs: seq<string>, x: string)
    ensures x in AppendMissing(ks, hs) <==> x in ks || x in hs
  {
    if hs != [] {
      AppendMissingHas(ks, hs[..|hs| - 1], x);
      assert hs == hs[..|hs| - 1] + [hs[|hs| - 1]];
    }
  }

  /** The value under a key of a filled row: the last column so named wins. */
  lemma {:induction false} FillColumnsLookup(out: Row, cols: seq<ColumnState>, file: string, row: Row,
                                             cleanJob: bool, k: string)
    ensures Lookup(FillColumns(out, cols, file, row, cleanJob), k) ==
              match LastNamed(cols, k)
              case Some(c) => Some(ColumnValue(c, file, row, cleanJob))
              case None => Lookup(out, k)
  {
    if cols != [] {
      var pre := cols[..|cols| - 1];
      var c := cols[|cols| - 1];
      FillColumnsLookup(out, pre, file, row, cleanJob, k);
      PutLookup(FillColumns(out, pre, file, row, cleanJob), c.header, ColumnValue(c, file, row, cleanJob), k);
    }
  }

  /**
   * An output row has each key once. Its keys are the two period keys when periods are
   * generated, placed first, and the names of the selected columns. The value under a name
   * is the value of the last selected column so named, and the period entries hold the
   * periods computed from the row.
   */
  lemma TransformRowProperties(file: string, row: Row, cols: seq<ColumnState>, generatePeriods: bool,
                               cleanJob: bool, parse: DateParser, k: string)
    ensures DistinctKeys(TransformRow(file, row, cols, generatePeriods, cleanJob, parse))
    ensures Keys(PeriodEntries(row, generatePeriods, parse)) <= Keys(TransformRow(file, row, cols, generatePeriods, cleanJob, parse))
    ensures k in Keys(TransformRow(file, row, cols, generatePeriods, cleanJob, parse)) <==>
              (generatePeriods && (k == "PeriodoL" || k == "PeriodoA")) ||
              (exists i :: 0 <= i < |cols| && cols[i].selected && cols[i].header == k)
    ensures Lookup(TransformRow(file, row, cols, generatePeriods, cleanJob, parse), k) ==
              match LastSelectedNamed(cols, k)
              case Some(c) => Some(ColumnValue(c, file, row, cleanJob))
              case None =>
                if generatePeriods && k == "PeriodoL" then Some(Text(PeriodOf(row, "Fecha_Leg", parse)))
                else if generatePeriods && k == "PeriodoA" then Some(Text(PeriodOf(row, "Fecha_Asig", parse)))
                else None
    ensures Keys(TransformRow(file, row, cols, generatePeriods, cleanJob, parse)) ==
              AppendMissing(if generatePeriods then ["PeriodoL", "PeriodoA"] else [], Headers(Selected(cols)))
  {
    TransformRowDistinct(file, row, cols, generatePeriods, cleanJob, parse);
    TransformRowKeys(file, row, cols, generatePeriods, cleanJob, parse);
    TransformRowHasKey(file, row, cols, generatePeriods, cleanJob, parse, k);
    TransformRowLookup(file, row, cols, generatePeriods, cleanJob, parse, k);
  }

  /** An output row has each key once, and the period keys among them. */
  lemma TransformRowDistinct(file: string, row: Row, cols: seq<ColumnState>, generatePeriods: bool,
                             cleanJob: bool, parse: DateParser)
    ensures DistinctKeys(TransformRow(file, row, cols, generatePeriods, cleanJob, parse))
    ensures Keys(PeriodEntries(row, generatePeriods, parse)) <= Keys(TransformRow(file, row, cols, generatePeriods, cleanJob, parse))
  {
    var out := PeriodEntries(row, generatePeriods, parse);
    assert Keys(out) == if generatePeriods then ["PeriodoL", "PeriodoA"] else [];
    FillColumnsDistinct(out, Selected(cols), file, row, cleanJob);
  }

  /** The keys of an output row: the period keys when periods are on, and the selected headers. */
  lemma TransformRowHasKey(file: string, row: Row, cols: seq<ColumnState>, generatePeriods: bool,
                           cleanJob: bool, parse: DateParser, k: string)
    ensures k in Keys(TransformRow(file, row, cols, generatePeriods, cleanJob, parse)) <==>
              (generatePeriods && (k == "PeriodoL" || k == "PeriodoA")) ||
              (exists i :: 0 <= i < |cols| && cols[i].selected && cols[i].header == k)
  {
    var out := PeriodEntries(row, generatePeriods, parse);
    assert Keys(out) == if generatePeriods then ["PeriodoL", "PeriodoA"] else [];
    FillColumnsHasKey(out, Selected(cols), file, row, cleanJob, k);
    SelectedHeader(cols, k);
  }

  /** The value under a key of an output row: the last selected column so named, else the period. */
  lemma TransformRowLookup(file: string, row: Row, cols: seq<ColumnState>, generatePeriods: bool,
                           cleanJob: bool, parse: DateParser, k: string)
    ensures Lookup(TransformRow(file, row, cols, generatePeriods, cleanJob, parse), k) ==
              match LastSelectedNamed(cols, k)
              case Some(c) => Some(ColumnValue(c, file, row, cleanJob))
              case None =>
                if generatePeriods && k == "PeriodoL" then Some(Text(PeriodOf(row, "Fecha_Leg", parse)))
                else if generatePeriods && k == "PeriodoA" then Some(Text(PeriodOf(row, "Fecha_Asig", parse)))
                else None
  {
    FillColumnsLookup(PeriodEntries(row, generatePeriods, parse), Selected(cols), file, row, cleanJob, k);
    LastNamedSelected(cols, k);
    PeriodEntriesLookup(row, generatePeriods, parse, k);
  }

  /** The value under a key of the period entries. */
  lemma PeriodEntriesLookup(row: Row, generatePeriods: bool, parse: DateParser, k: string)
    ensures Lookup(PeriodEntries(row, generatePeriods, parse), k) ==
              if generatePeriods && k == "PeriodoL" then Some(Text(PeriodOf(row, "Fecha_Leg", parse)))
              else if generatePeriods && k == "PeriodoA" then Some(Text(PeriodOf(row, "Fecha_Asig", parse)))
              else None
  {
    var out := PeriodEntries(row, generatePeriods, parse);
    if generatePeriods {
      assert out[0].0 == "PeriodoL" && out[1].0 == "PeriodoA";
      if k != "PeriodoL" && k != "PeriodoA" {
        assert IndexOf(out, k) < 0;
      }
    }
  }

  /** The key order of an output row: the period keys first, then the selected headers. */
  lemma TransformRowKeys(file: string, row: Row, cols: seq<ColumnState>, generatePeriods: bool,
                         cleanJob: bool, parse: DateParser)
    ensures Keys(TransformRow(file, row, cols, generatePeriods, cleanJob, parse)) ==
              AppendMissing(if generatePeriods then ["PeriodoL", "PeriodoA"] else [], Headers(Selected(cols)))
  {
    var out := PeriodEntries(row, generatePeriods, parse);
    FillColumnsKeys(out, Selected(cols), file, row, cleanJob);
    assert Keys(out) == if generatePeriods then ["PeriodoL", "PeriodoA"] else [];
  }

  /** A selected column is named `k` exactly when some column of `cols` is selected and so named. */
  lemma SelectedHeader(cols: seq<ColumnState>, k: string)
    ensures (exists i :: 0 <= i < |Selected(cols)| && Selected(cols)[i].header == k) <==>
            (exists i :: 0 <= i < |cols| && cols[i].selected && cols[i].header == k)
  {
    var sel := Selected(cols);
    if exists i :: 0 <= i < |sel| && sel[i].header == k {
      var i :| 0 <= i < |sel| && sel[i].header == k;
      var j := SelectedSource(cols, sel[i]);
      assert cols[j].selected && cols[j].header == k;
    }
    if exists i :: 0 <= i < |cols| && cols[i].selected && cols[i].header == k {
      var i :| 0 <= i < |cols| && cols[i].selected && cols[i].header == k;
      var t := SelectedTarget(cols, cols[i]);
      assert sel[t].header == k;
    }
  }

  /** Where a selected column sits in `cols`. */
  lemma SelectedSource(cols: seq<ColumnState>, c: ColumnState) returns (j: nat)
    requires c in Selected(cols) || (c in cols && c.selected)
    ensures j < |cols| && cols[j] == c && c.selected
  {
    j :| 0 <= j < |cols| && cols[j] == c;
  }

  /** Where a selected column of `cols` sits in `Selected(cols)`. */
  lemma SelectedTarget(cols: seq<ColumnState>, c: ColumnState) returns (j: nat)
    requires c in cols && c.selected
    ensures j < |Selected(cols)| && Selected(cols)[j] == c
  {
    var sel := Selected(cols);
    j :| 0 <= j < |sel| && sel[j] == c;
  }

  /** One output row per reader row of the file, in order. */
  function FileRows(file: string, rows: seq<Row>, cols: seq<ColumnState>, generatePeriods: bool,
                    cleanJob: bool, parse: DateParser): seq<Row> {
    if rows == [] then []
    else
      FileRows(file, rows[..|rows| - 1], cols, generatePeriods, cleanJob, parse)
        + [TransformRow(file, rows[|rows| - 1], cols, generatePeriods, cleanJob, parse)]
  }

  /** Every output row of the export: file after file, and row after row within a file. */
  function Consolidate(files: seq<string>, readRows: string -> seq<Row>, cols: seq<ColumnState>,
                       generatePeriods: bool, cleanJob: bool, parse: DateParser): seq<Row> {
    if files == [] then []
    else
      var f := files[|files| - 1];
      Consolidate(files[..|files| - 1], readRows, cols, generatePeriods, cleanJob, parse)
        + FileRows(f, readRows(f), cols, generatePeriods, cleanJob, parse)
  }

  /** The rows of the first files are the first rows of the export. */
  lemma {:induction false} ConsolidatePrefix(files: seq<string>, n: nat, readRows: string -> seq<Row>,
                                             cols: seq<ColumnState>, generatePeriods: bool, cleanJob: bool,
                                             parse: DateParser)
    requires n <= |files|
    ensures Consolidate(files[..n], readRows, cols, generatePeriods, cleanJob, parse)
              <= Consolidate(files, readRows, cols, generatePeriods, cleanJob, parse)
  {
    if n < |files| {
      ConsolidatePrefix(files[..|files| - 1], n, readRows, cols, generatePeriods, cleanJob, parse);
      assert files[..|files| - 1][..n] == files[..n];
    } else {
      assert files[..n] == files;
    }
  }

  /** The first `n` elements of `s`, or all of them; none when `n` is not positive. */
  function Take<T>(s: seq<T>, n: int): (r: seq<T>)
    ensures r <= s
    ensures |r| == if n <= 0 then 0 else if |s| <= n then |s| else n
  {
    if n <= 0 then [] else if |s| <= n then s else s[..n]
  }

  lemma TakeOfPrefix<T>(a: seq<T>, b: seq<T>, n: int)
    requires a <= b && (|a| >= n || a == b)
    ensures Take(a, n) == Take(b, n)
  {
  }

  /** A prefix shorter than the cap is kept whole. */
  lemma TakeShort<T>(s: seq<T>, n: int)
    requires |Take(s, n)| < n
    ensures Take(s, n) == s && |s| < n
  {
  }

  /** Builds the output row for one reader row: the period entries, then each active column. */
  method BuildRow(file: string, rowData: Row, active: seq<ColumnState>, generatePeriods: bool,
                  cleanJob: bool, parse: DateParser) returns (newRow: Row)
    ensures newRow == FillColumns(PeriodEntries(rowData, generatePeriods, parse), active, file, rowData, cleanJob)
  {
    newRow := [];
    if generatePeriods {
      newRow := Put(newRow, "PeriodoL", Text(PeriodOf(rowData, "Fecha_Leg", parse)));
      newRow := Put(newRow, "PeriodoA", Text(PeriodOf(rowData, "Fecha_Asig", parse)));
    }
    ghost var start := newRow;
    PeriodEntriesByPut(rowData, generatePeriods, parse);
    var i := 0;
    while i < |active|
      invariant 0 <= i <= |active|
      invariant newRow == FillColumns(start, active[..i], file, rowData, cleanJob)
    {
      var col := active[i];
      newRow := Put(newRow, col.header, ColumnValue(col, file, rowData, cleanJob));
      assert active[..i + 1][..i] == active[..i];
      i := i + 1;
    }
    assert active[..i] == active;
  }

  /** Writing the two periods into an empty dictionary gives the period entries. */
  lemma PeriodEntriesByPut(row: Row, generatePeriods: bool, parse: DateParser)
    ensures generatePeriods ==>
              Put(Put([], "PeriodoL", Text(PeriodOf(row, "Fecha_Leg", parse))), "PeriodoA", Text(PeriodOf(row, "Fecha_Asig", parse)))
              == PeriodEntries(row, generatePeriods, parse)
  {
    if generatePeriods {
      var first := Put([], "PeriodoL", Text(PeriodOf(row, "Fecha_Leg", parse)));
      assert first == [("PeriodoL", Text(PeriodOf(row, "Fecha_Leg", parse)))];
      assert IndexOf(first, "PeriodoA") < 0;
    }
  }

  /** One more file appends its output rows after those of the files before it. */
  lemma ConsolidateStep(files: seq<string>, i: nat, readRows: string -> seq<Row>, cols: seq<ColumnState>,
                        generatePeriods: bool, cleanJob: bool, parse: DateParser)
    requires i < |files|
    ensures Consolidate(files[..i + 1], readRows, cols, generatePeriods, cleanJob, parse)
            == Consolidate(files[..i], readRows, cols, generatePeriods, cleanJob, parse)
               + FileRows(files[i], readRows(files[i]), cols, generatePeriods, cleanJob, parse)
  {
    assert files[..i + 1][..i] == files[..i];
  }

  /** One more source row appends its output row after those of the rows before it. */
  lemma FileRowsStep(file: string, rows: seq<Row>, j: nat, cols: seq<ColumnState>,
                     generatePeriods: bool, cleanJob: bool, parse: DateParser)
    requires j < |rows|
    ensures FileRows(file, rows[..j + 1], cols, generatePeriods, cleanJob, parse)
            == FileRows(file, rows[..j], cols, generatePeriods, cleanJob, parse)
               + [TransformRow(file, rows[j], cols, generatePeriods, cleanJob, parse)]
  {
    assert rows[..j + 1][..j] == rows[..j];
  }

  /** Appending the output row of the next source row extends the rows built so far by one. */
  lemma AppendStep(rows: seq<Row>, file: string, rawData: seq<Row>, j: nat, cols: seq<ColumnState>,
                   generatePeriods: bool, cleanJob: bool, parse: DateParser, newRow: Row)
    requires j < |rawData|
    requires newRow == FillColumns(PeriodEntries(rawData[j], generatePeriods, parse), Selected(cols), file, rawData[j], cleanJob)
    ensures rows + FileRows(file, rawData[..j], cols, generatePeriods, cleanJob, parse) + [newRow]
            == rows + FileRows(file, rawData[..j + 1], cols, generatePeriods, cleanJob, parse)
  {
    FileRowsStep(file, rawData, j, cols, generatePeriods, cleanJob, parse);
  }

  /** The output rows of a prefix of the source rows are a prefix of the output rows. */
  lemma {:induction false} FileRowsPrefix(file: string, rows: seq<Row>, j: nat, cols: seq<ColumnState>,
                       generatePeriods: bool, cleanJob: bool, parse: DateParser)
    requires j <= |rows|
    ensures FileRows(file, rows[..j], cols, generatePeriods, cleanJob, parse)
            <= FileRows(file, rows, cols, generatePeriods, cleanJob, parse)
    decreases |rows|
  {
    if j < |rows| {
      FileRowsPrefix(file, rows[..|rows| - 1], j, cols, generatePeriods, cleanJob, parse);
      assert rows[..|rows| - 1][..j] == rows[..j];
    } else {
      assert rows[..j] == rows;
    }
  }

  /** The inner loop of the export: appends the output rows of one file's reader rows to `rows`. */
  method AppendFileRows(rows: seq<Row>, path: string, rawData: seq<Row>, active: seq<ColumnState>,
                        ghost cols: seq<ColumnState>, generatePeriods: bool, cleanJob: bool, parse: DateParser)
    returns (result: seq<Row>)
    requires active == Selected(cols)
    ensures result == rows + FileRows(path, rawData, cols, generatePeriods, cleanJob, parse)
  {
    result := rows;
    var j := 0;
    while j < |rawData|
      invariant 0 <= j <= |rawData|
      invariant result == rows + FileRows(path, rawData[..j], cols, generatePeriods, cleanJob, parse)
    {
      var newRow := BuildRow(path, rawData[j], active, generatePeriods, cleanJob, parse);
      AppendStep(rows, path, rawData, j, cols, generatePeriods, cleanJob, parse, newRow);
      result := result + [newRow];
      j := j + 1;
    }
    assert rawData[..j] == rawData;
  }

  /**
   * The inner loop of the preview: appends the output rows of one file's reader rows to
   * `rows` until `maxRows` rows are built.
   */
  method AppendCapped(rows: seq<Row>, path: string, rawData: seq<Row>, active: seq<ColumnState>,
                      ghost cols: seq<ColumnState>, generatePeriods: bool, cleanJob: bool,
                      parse: DateParser, maxRows: int)
    returns (result: seq<Row>)
    requires active == Selected(cols) && |rows| < maxRows
    ensures result == Take(rows + FileRows(path, rawData, cols, generatePeriods, cleanJob, parse), maxRows)
  {
    result := rows;
    var rowCount := |rows|;
    var j := 0;
    while j < |rawData|
      invariant 0 <= j <= |rawData| && rowCount == |result|
      invariant result == rows + FileRows(path, rawData[..j], cols, generatePeriods, cleanJob, parse)
      invariant |result| <= maxRows
    {
      if rowCount >= maxRows {
        break;
      }
      var newRow := BuildRow(path, rawData[j], active, generatePeriods, cleanJob, parse);
      AppendStep(rows, path, rawData, j, cols, generatePeriods, cleanJob, parse, newRow);
      result := result + [newRow];
      rowCount := rowCount + 1;
      j := j + 1;
    }
    FileRowsPrefix(path, rawData, j, cols, generatePeriods, cleanJob, parse);
    assert j == |rawData| ==> rawData[..j] == rawData;
    TakeOfPrefix(result, rows + FileRows(path, rawData, cols, generatePeriods, cleanJob, parse), maxRows);
  }

  /**
   * The preview: the first `maxRows` rows of the export, built by the same per-row code. It
   * opens files in order only while fewer than `maxRows` rows are built, so it reads no file
   * once the cap is reached and none at all when `maxRows` is not positive (`readFiles`
   * records the files it read).
   */
  method GeneratePreview(filePaths: seq<string>, columns: seq<ColumnItem>, generatePeriods: bool,
                         cleanJob: bool, maxRows: int, readRows: string -> seq<Row>, parse: DateParser)
    returns (previewRows: seq<Row>, ghost readFiles: seq<string>)
    ensures previewRows == Take(Consolidate(filePaths, readRows, States(columns), generatePeriods, cleanJob, parse), maxRows)
    ensures |readFiles| <= |filePaths| && readFiles == filePaths[..|readFiles|]
    ensures forall j :: 0 <= j < |readFiles| ==>
              |Consolidate(filePaths[..j], readRows, States(columns), generatePeriods, cleanJob, parse)| < maxRows
    ensures |readFiles| < |filePaths| ==>
              |Consolidate(filePaths[..|readFiles|], readRows, States(columns), generatePeriods, cleanJob, parse)| >= maxRows
  {
    previewRows, readFiles := PreviewRows(filePaths, States(columns), generatePeriods, cleanJob, maxRows, readRows, parse);
  }

  /** The preview over the columns' data. */
  method PreviewRows(filePaths: seq<string>, cols: seq<ColumnState>, generatePeriods: bool,
                     cleanJob: bool, maxRows: int, readRows: string -> seq<Row>, parse: DateParser)
    returns (previewRows: seq<Row>, ghost readFiles: seq<string>)
    ensures previewRows == Take(Consolidate(filePaths, readRows, cols, generatePeriods, cleanJob, parse), maxRows)
    ensures |readFiles| <= |filePaths| && readFiles == filePaths[..|readFiles|]
    ensures forall j :: 0 <= j < |readFiles| ==>
              |Consolidate(filePaths[..j], readRows, cols, generatePeriods, cleanJob, parse)| < maxRows
    ensures |readFiles| < |filePaths| ==>
              |Consolidate(filePaths[..|readFiles|], readRows, cols, generatePeriods, cleanJob, parse)| >= maxRows
  {
    var active := Selected(cols);
    previewRows := [];
    readFiles := [];
    ghost var built: seq<Row> := [];
    var i := 0;
    while i < |filePaths|
      invariant 0 <= i <= |filePaths| && readFiles == filePaths[..i]
      invariant built == Consolidate(filePaths[..i], readRows, cols, generatePeriods, cleanJob, parse)
      invariant previewRows == Take(built, maxRows)
      invariant forall j :: 0 <= j < i ==>
                  |Consolidate(filePaths[..j], readRows, cols, generatePeriods, cleanJob, parse)| < maxRows
    {
      if |previewRows| >= maxRows {
        break;
      }
      TakeShort(built, maxRows);
      var path := filePaths[i];
      var rawData := readRows(path);
      assert readFiles + [path] == filePaths[..i + 1];
      readFiles := readFiles + [path];
      previewRows := AppendCapped(previewRows, path, rawData, active, cols, generatePeriods, cleanJob, parse, maxRows);
      assert Consolidate(filePaths[..i + 1], readRows, cols, generatePeriods, cleanJob, parse)
             == built + FileRows(path, rawData, cols, generatePeriods, cleanJob, parse) by {
        ConsolidateStep(filePaths, i, readRows, cols, generatePeriods, cleanJob, parse);
      }
      assert |Consolidate(filePaths[..i], readRows, cols, generatePeriods, cleanJob, parse)| < maxRows;
      built := built + FileRows(path, rawData, cols, generatePeriods, cleanJob, parse);
      i := i + 1;
    }
    PreviewComplete(filePaths, i, readRows, cols, generatePeriods, cleanJob, parse, maxRows);
  }

  /**
   * When the preview stops reading, after `n` files because it has all it needs or because
   * no file is left, the rows it holds are the capped export.
   */
  lemma PreviewComplete(files: seq<string>, n: nat, readRows: string -> seq<Row>, cols: seq<ColumnState>,
                        generatePeriods: bool, cleanJob: bool, parse: DateParser, maxRows: int)
    requires n <= |files|
    requires n < |files| ==> |Take(Consolidate(files[..n], readRows, cols, generatePeriods, cleanJob, parse), maxRows)| >= maxRows
    ensures Take(Consolidate(files[..n], readRows, cols, generatePeriods, cleanJob, parse), maxRows)
            == Take(Consolidate(files, readRows, cols, generatePeriods, cleanJob, parse), maxRows)
    ensures n < |files| ==> |Consolidate(files[..n], readRows, cols, generatePeriods, cleanJob, parse)| >= maxRows
  {
    ConsolidatePrefix(files, n, readRows, cols, generatePeriods, cleanJob, parse);
    if n == |files| {
      assert files[..n] == files;
    }
  }
}
