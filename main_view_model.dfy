/**
 * The main screen's state and commands: the loaded files, the unified column registry, the
 * merge target and the two export options. Commands change the registry in place; each one is
 * specified by the registry-level function it realises on the columns' snapshot.
 */
module ViewModel {
  import opened Wrappers
  import opened Strings
  import opened Values
  import opened Columns
  import opened Registry
  import opened ColumnEdits
  import opened ExcelService
  import opened Consolidation

  /** Position of the first occurrence of `x` in `cs`, or -1. */
  function IndexOfItem(cs: seq<ColumnItem>, x: ColumnItem?): (r: int)
    ensures -1 <= r < |cs|
    ensures r >= 0 ==> cs[r] == x && forall j :: 0 <= j < r ==> cs[j] != x
    ensures r < 0 <==> x !in cs
  {
    if cs == [] then -1
    else if cs[0] == x then 0
    else
      var r := IndexOfItem(cs[1..], x);
      if r < 0 then -1 else r + 1
  }

  /** Every column with its selection flag set to `b`. */
  function WithSelection(cs: seq<ColumnState>, b: bool): seq<ColumnState> {
    seq(|cs|, i requires 0 <= i < |cs| => cs[i].(selected := b))
  }

  /** After "select all" every column is exported, in order. */
  lemma {:induction false} SelectAllExports(cs: seq<ColumnState>)
    ensures Selected(WithSelection(cs, true)) == WithSelection(cs, true)
  {
    if cs != [] {
      var w := WithSelection(cs, true);
      SelectAllExports(cs[..|cs| - 1]);
      assert w[..|w| - 1] == WithSelection(cs[..|cs| - 1], true);
      assert w[|w| - 1].selected;
      assert w[..|w| - 1] + [w[|w| - 1]] == w;
    }
  }

  /** After "deselect all" no column is exported. */
  lemma {:induction false} DeselectAllExports(cs: seq<ColumnState>)
    ensures Selected(WithSelection(cs, false)) == []
  {
    if cs != [] {
      var w := WithSelection(cs, false);
      DeselectAllExports(cs[..|cs| - 1]);
      assert w[..|w| - 1] == WithSelection(cs[..|cs| - 1], false);
      assert !w[|w| - 1].selected;
    }
  }

  lemma StatesRemoveAt(cs: seq<ColumnItem>, k: nat)
    requires k < |cs|
    ensures States(RemoveAt(cs, k)) == RemoveAt(States(cs), k)
  {
  }

  lemma StatesInsertAt(cs: seq<ColumnItem>, k: nat, c: ColumnItem)
    requires k <= |cs|
    ensures States(InsertAt(cs, k, c)) == InsertAt(States(cs), k, c.State())
  {
    var ins := InsertAt(cs, k, c);
    var r := States(ins);
    var e := InsertAt(States(cs), k, c.State());
    assert |r| == |e|;
    forall i | 0 <= i < |r|
      ensures r[i] == e[i]
    {
      if i < k {
        assert ins[i] == cs[i];
      } else if i == k {
        assert ins[i] == c;
      } else {
        assert ins[i] == cs[i - 1];
      }
    }
  }

  lemma DistinctRemoveAt(cs: seq<ColumnItem>, k: nat)
    requires k < |cs| && Distinct(cs)
    ensures Distinct(RemoveAt(cs, k)) && forall c :: c in RemoveAt(cs, k) ==> c in cs
  {
    var r := RemoveAt(cs, k);
    forall c | c in r
      ensures c in cs
    {
      var i :| 0 <= i < |r| && r[i] == c;
      if i < k { assert cs[i] == c; } else { assert cs[i + 1] == c; }
    }
  }

  /** Appending an item that is not listed keeps a list duplicate-free. */
  lemma DistinctAppend(cs: seq<ColumnItem>, c: ColumnItem)
    requires Distinct(cs) && c !in cs
    ensures Distinct(cs + [c])
  {
    var r := cs + [c];
    forall i, j | 0 <= i < j < |r|
      ensures r[i] != r[j]
    {
      if j == |cs| { assert r[i] == cs[i]; }
    }
  }

  /** The custom column objects of `cs`, in order. */
  function CustomItems(cs: seq<ColumnItem>): seq<ColumnItem>
    reads cs`isCustom
  {
    if cs == [] then []
    else
      var c := cs[|cs| - 1];
      assert forall x :: x in cs[..|cs| - 1] ==> x in cs;
      if c.isCustom then CustomItems(cs[..|cs| - 1]) + [c] else CustomItems(cs[..|cs| - 1])
  }

  lemma {:induction false} CustomItemsStates(cs: seq<ColumnItem>)
    ensures States(CustomItems(cs)) == Customs(States(cs))
  {
    if cs != [] {
      var init := cs[..|cs| - 1];
      var c := cs[|cs| - 1];
      CustomItemsStates(init);
      LastSplit(cs);
      StatesAppend(init, [c]);
      assert States(cs) == States(init) + [c.State()];
      CustomsAppend(States(init), c.State());
      if c.isCustom {
        assert CustomItems(cs) == CustomItems(init) + [c];
        StatesAppend(CustomItems(init), [c]);
      } else {
        assert CustomItems(cs) == CustomItems(init);
      }
    }
  }

  lemma {:induction false} CustomItemsDistinct(cs: seq<ColumnItem>)
    requires Distinct(cs)
    ensures Distinct(CustomItems(cs)) && forall c :: c in CustomItems(cs) ==> c in cs
    ensures forall k :: 0 <= k < |CustomItems(cs)| ==> CustomItems(cs)[k] in cs
  {
    if cs != [] {
      var init := cs[..|cs| - 1];
      var c := cs[|cs| - 1];
      assert Distinct(init);
      CustomItemsDistinct(init);
      if c.isCustom {
        assert c !in init;
        DistinctAppend(CustomItems(init), c);
      }
    }
  }

  /** Items of `s` followed by items outside `s`, each list duplicate-free, make a duplicate-free list. */
  lemma DistinctDisjointAppend(a: seq<ColumnItem>, b: seq<ColumnItem>, s: seq<ColumnItem>)
    requires Distinct(a) && Distinct(b)
    requires forall i :: 0 <= i < |a| ==> a[i] in s
    requires forall j :: 0 <= j < |b| ==> b[j] !in s
    ensures Distinct(a + b)
  {
    var r := a + b;
    forall i, j | 0 <= i < j < |r|
      ensures r[i] != r[j]
    {
      if j < |a| {
        assert r[i] == a[i] && r[j] == a[j];
      } else if i < |a| {
        assert r[i] == a[i] && r[j] == b[j - |a|];
      } else {
        assert r[i] == b[i - |a|] && r[j] == b[j - |a|];
      }
    }
  }

  /** `CustomItems` depends only on the custom flags of the listed columns. */
  twostate lemma {:induction false} CustomItemsUnchanged(cs: seq<ColumnItem>)
    requires forall q :: 0 <= q < |cs| ==> cs[q].isCustom == old(cs[q].isCustom)
    ensures CustomItems(cs) == old(CustomItems(cs))
  {
    if cs != [] {
      CustomItemsUnchanged(cs[..|cs| - 1]);
    }
  }

  lemma DistinctInsertAt(cs: seq<ColumnItem>, k: nat, c: ColumnItem)
    requires k <= |cs| && Distinct(cs) && c !in cs
    ensures Distinct(InsertAt(cs, k, c))
  {
    var r := InsertAt(cs, k, c);
    forall i, j | 0 <= i < j < |r|
      ensures r[i] != r[j]
    {
      if i == k { assert r[j] == cs[j - 1]; }
      else if j == k { assert r[i] == cs[i]; }
    }
  }

  /**
   * The object-level steps of an insert-or-move realise `InsertOrMove` on the snapshot, keep
   * the objects listed once, and list only old objects and the new placeholder.
   */
  lemma InsertOrMoveStates(cs: seq<ColumnItem>, before: seq<ColumnState>, e: int, rest: seq<ColumnItem>,
                           restStates: seq<ColumnState>, slot: int, c: ColumnItem, name: string, anchor: string)
    requires before == States(cs) && e == FindHeader(before, name)
    requires rest == (if e >= 0 then RemoveAt(cs, e) else cs) && restStates == States(rest)
    requires var a := FindHeader(restStates, anchor);
             slot == (if a >= 0 then IndexOfItem(rest, rest[a]) + 1 else |rest|)
    requires Distinct(cs) && c !in cs && c.State() == Placeholder(name)
    ensures 0 <= slot <= |rest|
    ensures States(InsertAt(rest, slot, c)) == InsertOrMove(before, name, anchor)
    ensures Distinct(InsertAt(rest, slot, c))
    ensures forall x :: x in rest ==> x in cs
  {
    if e >= 0 {
      StatesRemoveAt(cs, e);
      DistinctRemoveAt(cs, e);
    }
    assert restStates == WithoutNamed(before, name);
    var a := FindHeader(restStates, anchor);
    if a >= 0 {
      assert IndexOfItem(rest, rest[a]) == a;
    }
    assert slot == SlotAfter(restStates, anchor);
    StatesInsertAt(rest, slot, c);
    DistinctInsertAt(rest, slot, c);
  }

  /**
   * The column list after an insert-or-move of the placeholder `c`, computed on the
   * items: the old column of that name leaves, and `c` goes after the anchor or last.
   */
  function PlacedItems(cs: seq<ColumnItem>, c: ColumnItem, name: string, anchor: string): seq<ColumnItem>
    reads cs`headerName, cs`isSelected, cs`defaultValue, cs`isCustom, cs`fileMappings
  {
    InsertAfterAnchor(DropNamed(cs, name), c, anchor)
  }

  /** `cs` without its first column named `name` (ignoring case), if any. */
  function DropNamed(cs: seq<ColumnItem>, name: string): (r: seq<ColumnItem>)
    reads cs`headerName, cs`isSelected, cs`defaultValue, cs`isCustom, cs`fileMappings
    ensures forall x :: x in r ==> x in cs
  {
    var e := FindHeader(States(cs), name);
    if e >= 0 then RemoveAtEntries(cs, e); RemoveAt(cs, e) else cs
  }

  /** `rest` with `c` inserted right after its first column named `anchor`, or at the end. */
  function InsertAfterAnchor(rest: seq<ColumnItem>, c: ColumnItem, anchor: string): seq<ColumnItem>
    reads rest`headerName, rest`isSelected, rest`defaultValue, rest`isCustom, rest`fileMappings
  {
    var a := FindHeader(States(rest), anchor);
    var slot := if a >= 0 then IndexOfItem(rest, rest[a]) + 1 else |rest|;
    InsertAt(rest, slot, c)
  }

  /** Every entry of `RemoveAt(s, k)` is an entry of `s`. */
  lemma RemoveAtEntries<T>(s: seq<T>, k: nat)
    requires k < |s|
    ensures forall y :: y in RemoveAt(s, k) ==> y in s
  {
    forall y | y in RemoveAt(s, k)
      ensures y in s
    {
      var j :| 0 <= j < |RemoveAt(s, k)| && RemoveAt(s, k)[j] == y;
      if j < k { assert s[j] == y; } else { assert s[j + 1] == y; }
    }
  }

  /** `PlacedItems` follows the value-level `InsertOrMove`, stays duplicate-free and lists only `c` as new. */
  lemma PlacedItemsFacts(cs: seq<ColumnItem>, c: ColumnItem, name: string, anchor: string)
    requires Distinct(cs) && c !in cs && c.State() == Placeholder(name)
    ensures States(PlacedItems(cs, c, name, anchor)) == InsertOrMove(States(cs), name, anchor)
    ensures Distinct(PlacedItems(cs, c, name, anchor))
    ensures forall x :: x in PlacedItems(cs, c, name, anchor) ==> x in cs || x == c
  {
    var e := FindHeader(States(cs), name);
    var rest, slot := PlacedItemsShape(cs, c, name, anchor);
    InsertOrMoveStates(cs, States(cs), e, rest, States(rest), slot, c, name, anchor);
    InsertAtEntries(rest, slot, c);
  }

  /** `PlacedItems` spelled out: `c` inserted at `slot` into `rest`, the list without the old column. */
  lemma PlacedItemsShape(cs: seq<ColumnItem>, c: ColumnItem, name: string, anchor: string)
    returns (rest: seq<ColumnItem>, slot: nat)
    ensures var e := FindHeader(States(cs), name);
            rest == if e >= 0 then RemoveAt(cs, e) else cs
    ensures var a := FindHeader(States(rest), anchor);
            slot == (if a >= 0 then IndexOfItem(rest, rest[a]) + 1 else |rest|)
    ensures slot <= |rest| && PlacedItems(cs, c, name, anchor) == InsertAt(rest, slot, c)
  {
    rest := DropNamed(cs, name);
    var a := FindHeader(States(rest), anchor);
    slot := if a >= 0 then IndexOfItem(rest, rest[a]) + 1 else |rest|;
  }

  /** Every entry of `InsertAt(s, k, x)` is `x` or an entry of `s`. */
  lemma InsertAtEntries<T>(s: seq<T>, k: nat, x: T)
    requires k <= |s|
    ensures forall y :: y in InsertAt(s, k, x) ==> y == x || y in s
  {
    var r := InsertAt(s, k, x);
    forall y | y in r
      ensures y == x || y in s
    {
      var i :| 0 <= i < |r| && r[i] == y;
      if i < k { assert s[i] == r[i]; } else if i > k { assert s[i - 1] == r[i]; }
    }
  }

  /** `c` listed right after `x`, or last when `x` is the last column or not listed. */
  function PlacedAfter(cs: seq<ColumnItem>, x: ColumnItem, c: ColumnItem): seq<ColumnItem> {
    var index := IndexOfItem(cs, x);
    if index >= 0 && index < |cs| - 1 then InsertAt(cs, index + 1, c) else cs + [c]
  }

  /** In a duplicate-free list, placing after the column at `p` inserts at `p + 1`, also when `p` is last. */
  lemma PlacedAfterOwner(cs: seq<ColumnItem>, p: nat, c: ColumnItem)
    requires Distinct(cs) && p < |cs|
    ensures PlacedAfter(cs, cs[p], c) == InsertAt(cs, p + 1, c)
  {
    assert IndexOfItem(cs, cs[p]) == p;
    if p == |cs| - 1 {
      assert InsertAt(cs, p + 1, c) == cs + [c];
    }
  }

  /** The states of `cs` when only `x` may differ from `before`: position `k`, where `x` is listed, takes its state. */
  lemma StatesExceptAt(cs: seq<ColumnItem>, k: int, x: ColumnItem, before: seq<ColumnState>)
    requires k == IndexOfItem(cs, x) && |before| == |cs| && Distinct(cs)
    requires forall i :: 0 <= i < |cs| && cs[i] != x ==> cs[i].State() == before[i]
    ensures k >= 0 ==> States(cs) == before[k := x.State()]
    ensures k < 0 ==> States(cs) == before
  {
    forall i | 0 <= i < |cs| && i != k
      ensures cs[i] != x
    {
      if k >= 0 { assert cs[k] == x; }
    }
  }

  /**
   * `after` is the snapshot `before` of the list `cs` once `source` is merged into `target`,
   * whenever both are listed.
   */
  ghost predicate MergedSnapshot(before: seq<ColumnState>, cs: seq<ColumnItem>, target: ColumnItem?,
                                 source: ColumnItem, after: seq<ColumnState>)
  {
    var s := IndexOfItem(cs, source);
    var t := IndexOfItem(cs, target);
    s >= 0 && t >= 0 ==> t != s && |before| == |cs| && after == MergeInto(before, t, s)
  }

  class MainViewModel {
    /** The full paths of the loaded files, in the order they were picked. */
    var files: seq<string>
    var columns: seq<ColumnItem>
    var targetColumn: ColumnItem?
    var generatePeriods: bool
    var cleanJobType: bool

    /** A fresh screen: no files, no columns, no target, both options off. */
    constructor ()
      ensures files == [] && columns == [] && targetColumn == null
      ensures !generatePeriods && !cleanJobType
    {
      files := [];
      columns := [];
      targetColumn := null;
      generatePeriods := false;
      cleanJobType := false;
    }

    /** The columns as values, in display order. */
    function Snapshot(): seq<ColumnState>
      reads this`columns, columns`headerName, columns`isSelected, columns`defaultValue, columns`isCustom,
            columns`fileMappings
    {
      States(columns)
    }

    /** Every command keeps each file and each column object listed once. */
    ghost predicate Valid()
      reads this
    {
      Distinct(files) && Distinct(columns)
    }

    /**
     * The merge highlighting is current: exactly the target is in target mode, and a column
     * is offered for merging exactly when it is not the target and shares no file with it.
     */
    ghost predicate VisualsUpToDate()
      reads this, columns, targetColumn
    {
      forall k :: 0 <= k < |columns| ==>
        && columns[k].isTargetMode == (targetColumn != null && columns[k] == targetColumn)
        && columns[k].canBeMergedIntoTarget ==
             (targetColumn != null && columns[k] != targetColumn
              && Disjoint(targetColumn.fileMappings, columns[k].fileMappings))
    }

    /** Recomputes both highlighting flags of every column; nothing else changes. */
    method UpdateMergeVisuals()
      modifies columns`isTargetMode, columns`canBeMergedIntoTarget
      ensures columns == old(columns) && files == old(files) && targetColumn == old(targetColumn)
      ensures Snapshot() == old(Snapshot())
      ensures VisualsUpToDate()
      ensures forall k :: 0 <= k < |columns| && old(columns[k].Labelled()) ==> columns[k].Labelled()
    {
      var i := 0;
      while i < |columns|
        invariant 0 <= i <= |columns|
        invariant forall k :: 0 <= k < i ==>
                    && columns[k].isTargetMode == (targetColumn != null && columns[k] == targetColumn)
                    && columns[k].canBeMergedIntoTarget ==
                         (targetColumn != null && columns[k] != targetColumn
                          && Disjoint(targetColumn.fileMappings, columns[k].fileMappings))
      {
        var col := columns[i];
        col.isTargetMode := targetColumn != null && col == targetColumn;
        if targetColumn != null && col != targetColumn {
          col.canBeMergedIntoTarget := targetColumn.CanMergeWith(col);
        } else {
          col.canBeMergedIntoTarget := false;
        }
        i := i + 1;
      }
    }

    /**
     * Rebuilds the registry from the files' headers: the custom column objects are kept first,
     * in order, followed by one fresh column per header that is not blank and not already met
     * (ignoring case), in the order first met, with its source label written. The target is
     * left as it is.
     */
    method LoadAllColumns(headers: string -> seq<string>)
      requires Valid()
      modifies this`columns, columns
      ensures Valid()
      ensures Snapshot() == Rebuild(old(Snapshot()), files, headers)
      ensures var customs := old(CustomItems(columns));
              && |customs| <= |columns| && columns[..|customs|] == customs
              && forall k :: |customs| <= k < |columns| ==> fresh(columns[k]) && columns[k].Labelled()
      ensures VisualsUpToDate()
    {
      RebuildColumns(headers);
      UpdateMergeVisuals();
    }

    /** The steps of `LoadAllColumns` before the highlighting is refreshed. */
    method RebuildColumns(headers: string -> seq<string>)
      requires Valid()
      modifies this`columns
      ensures Valid()
      ensures Snapshot() == Rebuild(old(Snapshot()), files, headers)
      ensures var customs := old(CustomItems(columns));
              && |customs| <= |columns| && columns[..|customs|] == customs
              && forall k :: |customs| <= k < |columns| ==> fresh(columns[k]) && columns[k].Labelled()
      ensures forall i :: 0 <= i < |columns| ==> columns[i] in old(columns) || fresh(columns[i])
    {
      var master := BuildMaster(headers);
      assert forall q :: 0 <= q < |columns| ==> columns[q].State() == old(columns[q].State());
      StatesUnchanged(columns);
      CustomItemsUnchanged(columns);
      var customCols := CustomItems(columns);
      CustomItemsDistinct(columns);
      CustomItemsStates(columns);
      DistinctDisjointAppend(customCols, master, columns);
      StatesAppend(customCols, master);
      SetColumns(customCols + master);
    }

    /**
     * One fresh column per header of the listed files that is not blank, the first time it
     * is met (ignoring case), each mapping the files that carry it to their own spelling.
     */
    method BuildMaster(headers: string -> seq<string>) returns (master: seq<ColumnItem>)
      ensures States(master) == Master(files, headers)
      ensures Distinct(master) && forall q :: 0 <= q < |master| ==> fresh(master[q])
      ensures forall q :: 0 <= q < |master| ==> master[q] !in columns && master[q].Labelled()
    {
      master := FoldFiles(files, headers);
      RefreshLabels(master);
    }

    /** The loop of `BuildMaster`: the files' headers folded in, one file after another. */
    static method FoldFiles(files: seq<string>, headers: string -> seq<string>) returns (master: seq<ColumnItem>)
      ensures States(master) == Master(files, headers)
      ensures Distinct(master) && forall q :: 0 <= q < |master| ==> fresh(master[q])
    {
      master := [];
      var i := 0;
      while i < |files|
        invariant 0 <= i <= |files|
        invariant States(master) == Master(files[..i], headers)
        invariant Distinct(master) && forall q :: 0 <= q < |master| ==> fresh(master[q])
      {
        var file := files[i];
        master := AddFileColumns(master, file, headers(file));
        assert files[..i + 1][..i] == files[..i];
        i := i + 1;
      }
      assert files[..i] == files;
    }

    /** Folds the headers `fileCols` of `file` into `master`, as `AddFile` does on states. */
    static method AddFileColumns(master: seq<ColumnItem>, file: string, fileCols: seq<string>)
      returns (grown: seq<ColumnItem>)
      requires Distinct(master)
      modifies master`fileMappings
      ensures States(grown) == AddFile(old(States(master)), file, fileCols)
      ensures Distinct(grown) && |master| <= |grown| && forall q :: 0 <= q < |master| ==> grown[q] == master[q]
      ensures forall q :: |master| <= q < |grown| ==> fresh(grown[q])
    {
      grown := master;
      ghost var start := States(master);
      var j := 0;
      while j < |fileCols|
        invariant 0 <= j <= |fileCols|
        invariant States(grown) == AddFile(start, file, fileCols[..j])
        invariant Distinct(grown) && |master| <= |grown| && forall q :: 0 <= q < |master| ==> grown[q] == master[q]
        invariant forall q :: |master| <= q < |grown| ==> fresh(grown[q])
      {
        assert fileCols[..j + 1][..j] == fileCols[..j];
        grown := AddHeaderColumn(grown, file, fileCols[j], States(grown));
        j := j + 1;
      }
      assert fileCols[..j] == fileCols;
    }

    /** Folds one header `colName` of `file` into `master`, as `AddHeader` does on states. */
    static method AddHeaderColumn(master: seq<ColumnItem>, file: string, colName: string, ghost pre: seq<ColumnState>)
      returns (grown: seq<ColumnItem>)
      requires Distinct(master) && States(master) == pre
      modifies master`fileMappings
      ensures States(grown) == AddHeader(pre, file, colName)
      ensures Distinct(grown) && |master| <= |grown| && forall q :: 0 <= q < |master| ==> grown[q] == master[q]
      ensures forall q :: |master| <= q < |grown| ==> fresh(grown[q])
    {
      grown := master;
      if !IsBlank(colName) {
        var idx := FindHeader(States(master), colName);
        if idx < 0 {
          grown := AppendColumn(master, file, colName, pre);
        } else if file !in master[idx].fileMappings {
          SetMappings(master, idx, master[idx], master[idx].fileMappings[file := colName], pre);
        }
      }
    }

    /** A new column for header `colName` first seen in `file`, appended at the end. */
    static method AppendColumn(master: seq<ColumnItem>, file: string, colName: string, ghost pre: seq<ColumnState>)
      returns (grown: seq<ColumnItem>)
      requires Distinct(master) && States(master) == pre
      ensures States(grown) == pre + [NewColumn(colName, file)]
      ensures Distinct(grown) && |grown| == |master| + 1 && forall q :: 0 <= q < |master| ==> grown[q] == master[q]
      ensures fresh(grown[|master|])
    {
      var newItem := new ColumnItem.Named(colName, false);
      newItem.fileMappings := newItem.fileMappings[file := colName];
      StatesAppend(master, [newItem]);
      grown := master + [newItem];
      DistinctAppend(master, newItem);
    }

    /** Gives the column `item`, listed at `idx`, the mappings `m`; no other column changes. */
    static method SetMappings(cs: seq<ColumnItem>, idx: int, item: ColumnItem, m: map<string, string>,
                              ghost pre: seq<ColumnState>)
      requires 0 <= idx < |cs| && cs[idx] == item && Distinct(cs) && States(cs) == pre
      modifies item`fileMappings
      ensures States(cs) == pre[idx := pre[idx].(mappings := m)]
    {
      item.fileMappings := m;
      assert forall q :: 0 <= q < |cs| ==> States(cs)[q] == pre[idx := pre[idx].(mappings := m)][q];
    }

    /** Writes every column's source label; nothing a snapshot sees changes. */
    static method RefreshLabels(cs: seq<ColumnItem>)
      modifies cs`sourceInfo
      ensures States(cs) == old(States(cs))
      ensures forall q :: 0 <= q < |cs| ==> cs[q].Labelled()
    {
      LabelEach(cs);
      StatesUnchanged(cs);
    }

    /** The loop of `RefreshLabels`: each column in turn gets its label. */
    static method LabelEach(cs: seq<ColumnItem>)
      modifies cs`sourceInfo
      ensures forall q :: 0 <= q < |cs| ==> cs[q].State() == old(cs[q].State())
      ensures forall q :: 0 <= q < |cs| ==> cs[q].Labelled()
    {
      var m := 0;
      while m < |cs|
        invariant 0 <= m <= |cs|
        invariant forall q :: 0 <= q < |cs| ==> cs[q].State() == old(cs[q].State())
        invariant forall c :: c in cs[..m] ==> c.Labelled()
      {
        cs[m].RefreshSourceCount();
        assert cs[..m + 1] == cs[..m] + [cs[m]];
        m := m + 1;
      }
    }

    /**
     * Appends each picked path that is not listed yet and, when any was, rebuilds the
     * registry from the files' headers.
     */
    method PickFiles(paths: seq<string>, headers: string -> seq<string>)
      requires Valid()
      modifies this`files, this`columns, columns
      ensures Valid()
      ensures files == AppendNew(old(files), paths)
      ensures files != old(files) ==> Snapshot() == Rebuild(old(Snapshot()), files, headers) && VisualsUpToDate()
      ensures files == old(files) ==> columns == old(columns) && Snapshot() == old(Snapshot())
    {
      var newFilesAdded := false;
      var i := 0;
      while i < |paths|
        modifies this`files
        invariant 0 <= i <= |paths|
        invariant files == AppendNew(old(files), paths[..i])
        invariant old(files) <= files && Distinct(files)
        invariant newFilesAdded <==> |files| > |old(files)|
      {
        var path := paths[i];
        assert paths[..i + 1][..i] == paths[..i];
        if path !in files {
          files := files + [path];
          newFilesAdded := true;
        }
        i := i + 1;
      }
      assert paths[..i] == paths;
      assert States(columns) == old(Snapshot());
      if newFilesAdded {
        LoadAllColumns(headers);
      }
    }

    /** The merge command's guard: a target is set, the source is another column, and no file feeds both. */
    ghost predicate MergeAllowed(sourceItem: ColumnItem)
      reads this, targetColumn, sourceItem
    {
      targetColumn != null && sourceItem != targetColumn
      && Disjoint(targetColumn.fileMappings, sourceItem.fileMappings)
    }

    /**
     * Merges `sourceItem` into the target when the guard holds (see `AbsorbIntoTarget`);
     * when it fails nothing changes.
     */
    method MergeIntoTarget(sourceItem: ColumnItem)
      requires Valid()
      modifies this`columns, columns, targetColumn
      ensures Valid()
      ensures !old(MergeAllowed(sourceItem)) ==>
                columns == old(columns) && unchanged(columns) && (targetColumn != null ==> unchanged(targetColumn))
      ensures old(MergeAllowed(sourceItem)) ==>
                var s := IndexOfItem(old(columns), sourceItem);
                && columns == (if s >= 0 then RemoveAt(old(columns), s) else old(columns))
                && targetColumn.State() ==
                     old(targetColumn.State()).(mappings := MergeMappings(old(targetColumn.fileMappings),
                                                                        old(sourceItem.fileMappings)))
                && targetColumn.Labelled()
                && VisualsUpToDate()
      ensures old(MergeAllowed(sourceItem)) ==>
                MergedSnapshot(old(Snapshot()), old(columns), old(targetColumn), sourceItem, Snapshot())
    {
      if targetColumn == null || sourceItem == targetColumn {
        return;
      }
      var ok := targetColumn.CanMergeWith(sourceItem);
      if !ok {
        return;
      }
      AbsorbIntoTarget(sourceItem);
    }

    /**
     * The merge itself: the target gains every file mapping of the source it lacks, the
     * source leaves the list, the target's label and the highlighting are refreshed.
     */
    method AbsorbIntoTarget(sourceItem: ColumnItem)
      requires Valid() && MergeAllowed(sourceItem)
      modifies this`columns, columns, targetColumn
      ensures Valid()
      ensures var s := IndexOfItem(old(columns), sourceItem);
              && columns == (if s >= 0 then RemoveAt(old(columns), s) else old(columns))
              && targetColumn.State() ==
                   old(targetColumn.State()).(mappings := MergeMappings(old(targetColumn.fileMappings),
                                                                      old(sourceItem.fileMappings)))
              && targetColumn.Labelled()
              && VisualsUpToDate()
      ensures MergedSnapshot(old(Snapshot()), old(columns), old(targetColumn), sourceItem, Snapshot())
    {
      TransferMappings(sourceItem);
      RefreshVisualsOver(old(columns), {});
    }

    /**
     * The data part of the merge: the target gains the source's missing mappings, the source
     * leaves the list, and the target's label is refreshed.
     */
    method TransferMappings(sourceItem: ColumnItem)
      requires Valid() && MergeAllowed(sourceItem)
      modifies this`columns, targetColumn`fileMappings, targetColumn`sourceInfo
      ensures Valid() && targetColumn.Labelled()
      ensures var s := IndexOfItem(old(columns), sourceItem);
              columns == (if s >= 0 then RemoveAt(old(columns), s) else old(columns))
      ensures forall i :: 0 <= i < |columns| ==> columns[i] in old(columns)
      ensures targetColumn.State() ==
                old(targetColumn.State()).(mappings := MergeMappings(old(targetColumn.fileMappings),
                                                                   old(sourceItem.fileMappings)))
      ensures MergedSnapshot(old(Snapshot()), old(columns), old(targetColumn), sourceItem, Snapshot())
    {
      MoveMappings(sourceItem);
      targetColumn.RefreshSourceCount();
    }

    /** The target gains the source's missing mappings and the source leaves the list. */
    method MoveMappings(sourceItem: ColumnItem)
      requires Valid() && MergeAllowed(sourceItem)
      modifies this`columns, targetColumn`fileMappings
      ensures Valid()
      ensures var s := IndexOfItem(old(columns), sourceItem);
              columns == (if s >= 0 then RemoveAt(old(columns), s) else old(columns))
      ensures forall i :: 0 <= i < |columns| ==> columns[i] in old(columns)
      ensures targetColumn.State() ==
                old(targetColumn.State()).(mappings := MergeMappings(old(targetColumn.fileMappings),
                                                                   old(sourceItem.fileMappings)))
      ensures MergedSnapshot(old(Snapshot()), old(columns), old(targetColumn), sourceItem, Snapshot())
    {
      var target := targetColumn;
      ghost var before := Snapshot();
      ghost var t := IndexOfItem(columns, target);
      ghost var s := IndexOfItem(columns, sourceItem);
      CopyMissingMappings(target, sourceItem);
      ghost var gained := target.State();
      RemoveListed(sourceItem);
      if t >= 0 && s >= 0 {
        assert Snapshot() == RemoveAt(before[t := gained], s);
      }
    }

    /** Gives `target` every file mapping of `source` whose file it does not map yet. */
    method CopyMissingMappings(target: ColumnItem, source: ColumnItem)
      requires Valid() && target != source
      modifies target`fileMappings
      ensures target.fileMappings == MergeMappings(old(target.fileMappings), source.fileMappings)
      ensures target.State() == old(target.State()).(mappings := target.fileMappings)
      ensures var t := IndexOfItem(columns, target);
              Snapshot() == if t >= 0 then old(Snapshot())[t := target.State()] else old(Snapshot())
    {
      AddMissing(target, source);
      assert forall i :: 0 <= i < |columns| && columns[i] != target ==> columns[i].State() == old(columns[i].State());
      StatesExceptAt(columns, IndexOfItem(columns, target), target, old(Snapshot()));
    }

    /** The loop of `CopyMissingMappings`, over the files `source` maps. */
    static method AddMissing(target: ColumnItem, source: ColumnItem)
      requires target != source
      modifies target`fileMappings
      ensures target.fileMappings == MergeMappings(old(target.fileMappings), source.fileMappings)
    {
      ghost var t0 := target.fileMappings;
      var pending := source.fileMappings.Keys;
      while pending != {}
        invariant pending <= source.fileMappings.Keys
        invariant target.fileMappings.Keys == t0.Keys + (source.fileMappings.Keys - pending)
        invariant forall f :: f in t0 ==> target.fileMappings[f] == t0[f]
        invariant forall f :: f in source.fileMappings && f !in pending && f !in t0 ==>
                    target.fileMappings[f] == source.fileMappings[f]
        decreases pending
      {
        var f :| f in pending;
        if f !in target.fileMappings {
          target.fileMappings := target.fileMappings[f := source.fileMappings[f]];
        }
        pending := pending - {f};
      }
    }

    /**
     * Splits one file's header off the column that owns it: the mapping leaves its owner and
     * a fresh column for it is placed right after the owner; an owner left with no mappings
     * that is not custom is then removed, and stops being the target if it was. Nothing
     * changes when `item` is not a pair or no column owns it.
     */
    method DetachMapping(item: Option<(string, string)>)
      requires Valid()
      modifies this`columns, this`targetColumn, columns
      ensures Valid()
      ensures item.None? || OwnerIndex(old(Snapshot()), item.value.0, item.value.1) < 0 ==>
                columns == old(columns) && targetColumn == old(targetColumn) && unchanged(columns)
      ensures item.Some? ==> Snapshot() == Detach(old(Snapshot()), item.value.0, item.value.1)
      ensures item.Some? && OwnerIndex(old(Snapshot()), item.value.0, item.value.1) >= 0 ==>
                var p := OwnerIndex(old(Snapshot()), item.value.0, item.value.1);
                var pruned := LeftEmpty(old(Snapshot())[p], item.value.0);
                var k := if pruned then p else p + 1;
                && targetColumn == (if pruned && old(targetColumn) == old(columns[p]) then null else old(targetColumn))
                && k < |columns| && fresh(columns[k])
                && columns[k].Labelled() && (!pruned ==> columns[p].Labelled())
                && VisualsUpToDate()
    {
      if item.None? {
        return;
      }
      var (filePath, originalName) := item.value;
      var p := OwnerIndex(Snapshot(), filePath, originalName);
      if p < 0 {
        return;
      }
      var newCol := DetachAt(p, filePath, originalName);
    }

    /** `DetachMapping` once the owner `p` of the pair is found, followed by the highlighting refresh. */
    method DetachAt(p: nat, filePath: string, originalName: string) returns (newCol: ColumnItem)
      requires Valid() && p == OwnerIndex(Snapshot(), filePath, originalName)
      modifies this`columns, this`targetColumn, columns
      ensures Valid()
      ensures Snapshot() == Detach(old(Snapshot()), filePath, originalName)
      ensures var pruned := LeftEmpty(old(Snapshot())[p], filePath);
              var k := if pruned then p else p + 1;
              && targetColumn == (if pruned && old(targetColumn) == old(columns[p]) then null else old(targetColumn))
              && k < |columns| && columns[k] == newCol
              && (!pruned ==> columns[p].Labelled())
      ensures fresh(newCol) && newCol.Labelled()
      ensures VisualsUpToDate()
    {
      newCol := DetachOwned(p, filePath, originalName);
      RefreshVisualsOver(old(columns), {newCol});
      DetachBySteps(old(Snapshot()), filePath, originalName, p);
    }

    /** `UpdateMergeVisuals` over a list made of some of the columns `before` and of `added`. */
    method RefreshVisualsOver(ghost before: seq<ColumnItem>, ghost added: set<ColumnItem>)
      requires Valid() && forall i :: 0 <= i < |columns| ==> columns[i] in before || columns[i] in added
      modifies before`isTargetMode, before`canBeMergedIntoTarget, added`isTargetMode, added`canBeMergedIntoTarget
      ensures Valid()
      ensures columns == old(columns) && files == old(files) && targetColumn == old(targetColumn)
      ensures Snapshot() == old(Snapshot())
      ensures VisualsUpToDate()
      ensures forall k :: 0 <= k < |columns| && old(columns[k].Labelled()) ==> columns[k].Labelled()
    {
      UpdateMergeVisuals();
    }

    /**
     * The detach once its owner `p` is found: the owner loses the file, a fresh column for the
     * pair follows it, and the owner is pruned when left empty and not custom.
     */
    method DetachOwned(p: nat, filePath: string, originalName: string) returns (newCol: ColumnItem)
      requires Valid() && p < |columns| && Owns(columns[p].State(), filePath, originalName)
      modifies this`columns, this`targetColumn, columns[p]
      ensures Valid()
      ensures Snapshot() == DetachSteps(old(Snapshot()), filePath, originalName, p)
      ensures var pruned := LeftEmpty(old(Snapshot())[p], filePath);
              targetColumn == (if pruned && old(targetColumn) == old(columns[p]) then null else old(targetColumn))
      ensures var k := if LeftEmpty(old(Snapshot())[p], filePath) then p else p + 1;
              k < |columns| && columns[k] == newCol
      ensures !LeftEmpty(old(Snapshot())[p], filePath) ==> columns[p].Labelled()
      ensures fresh(newCol) && newCol.Labelled()
      ensures forall i :: 0 <= i < |columns| ==> columns[i] in old(columns) || columns[i] == newCol
    {
      ghost var before := Snapshot();
      var parentColumn;
      parentColumn, newCol := SplitOff(p, filePath, originalName);
      ghost var split := Snapshot();
      assert split[p] == before[p].(mappings := before[p].mappings - {filePath});
      PruneIfEmpty(parentColumn, p);
    }

    /**
     * The first steps of a detach: the owner at `p` loses the file and has its label
     * refreshed, and a fresh column mapping only the pair is placed right after it.
     */
    method SplitOff(p: nat, filePath: string, originalName: string) returns (parentColumn: ColumnItem, newCol: ColumnItem)
      requires Valid() && p < |columns| && Owns(columns[p].State(), filePath, originalName)
      modifies this`columns, columns[p]
      ensures Valid()
      ensures parentColumn == old(columns[p]) && fresh(newCol)
      ensures columns == InsertAt(old(columns), p + 1, newCol)
      ensures forall c :: c in columns ==> c in old(columns) || c == newCol
      ensures var c := old(Snapshot())[p];
              Snapshot() == InsertAt(old(Snapshot())[p := c.(mappings := c.mappings - {filePath})], p + 1,
                                     NewColumn(originalName, filePath))
      ensures parentColumn.Labelled() && newCol.Labelled()
    {
      parentColumn := columns[p];
      TrimOwner(p, filePath);
      ghost var trimmed := Snapshot();
      newCol := DetachedColumn(filePath, originalName);
      assert Snapshot() == trimmed && newCol !in columns;
      PlaceAfter(p, newCol);
    }

    /** The column at `p` loses the mapping of `filePath` and has its label refreshed. */
    method TrimOwner(p: nat, filePath: string)
      requires Valid() && p < |columns|
      modifies {columns[p]}`fileMappings, {columns[p]}`sourceInfo
      ensures var c := old(Snapshot())[p];
              Snapshot() == old(Snapshot())[p := c.(mappings := c.mappings - {filePath})]
      ensures columns[p].Labelled()
    {
      var parentColumn := columns[p];
      SetMappings(columns, p, parentColumn, parentColumn.fileMappings - {filePath}, Snapshot());
      ghost var trimmed := Snapshot();
      parentColumn.RefreshSourceCount();
      assert Snapshot() == trimmed;
    }

    /** Lists `newCol` right after the column at `p`, as a detach places the split-off column. */
    method PlaceAfter(p: nat, newCol: ColumnItem)
      requires Valid() && p < |columns| && newCol !in columns
      modifies this`columns
      ensures Valid() && columns == InsertAt(old(columns), p + 1, newCol)
      ensures forall c :: c in columns ==> c in old(columns) || c == newCol
      ensures Snapshot() == InsertAt(old(Snapshot()), p + 1, newCol.State())
    {
      var placed := PlacedAfter(columns, columns[p], newCol);
      PlacedAfterOwner(columns, p, newCol);
      StatesInsertAt(columns, p + 1, newCol);
      DistinctInsertAt(columns, p + 1, newCol);
      SetColumns(placed);
    }

    /** A fresh column named `originalName` that maps only `filePath`, labelled. */
    static method DetachedColumn(filePath: string, originalName: string) returns (newCol: ColumnItem)
      ensures fresh(newCol) && newCol.State() == NewColumn(originalName, filePath)
      ensures newCol.Labelled()
    {
      newCol := new ColumnItem.Named(originalName, false);
      newCol.fileMappings := newCol.fileMappings[filePath := originalName];
      newCol.RefreshSourceCount();
    }

    /**
     * The last step of a detach: the owner at `p` is removed when it has no mapping left and
     * is not custom, and then stops being the target if it was.
     */
    method PruneIfEmpty(parentColumn: ColumnItem, p: nat)
      requires Valid() && p < |columns| && columns[p] == parentColumn
      modifies this`columns, this`targetColumn
      ensures Valid()
      ensures var pruned := old(Snapshot())[p].mappings == map[] && !old(Snapshot())[p].custom;
              && columns == (if pruned then RemoveAt(old(columns), p) else old(columns))
              && Snapshot() == (if pruned then RemoveAt(old(Snapshot()), p) else old(Snapshot()))
              && targetColumn == (if pruned && old(targetColumn) == parentColumn then null else old(targetColumn))
      ensures forall i :: 0 <= i < |columns| ==> columns[i] in old(columns)
    {
      if |parentColumn.fileMappings| == 0 && !parentColumn.isCustom {
        RemoveAtEntries(columns, p);
        assert parentColumn.fileMappings == map[];
        if targetColumn == parentColumn {
          targetColumn := null;
        }
        assert IndexOfItem(columns, parentColumn) == p;
        RemoveListed(parentColumn);
      } else {
        assert parentColumn.fileMappings != map[] || parentColumn.isCustom;
      }
    }

    /**
     * Places a custom placeholder named `colName` right after the first column named like
     * `targetColName`, or last, after removing the first column already named like it.
     */
    method InsertOrMoveColumn(colName: string, targetColName: string) returns (newCol: ColumnItem)
      requires Valid()
      modifies this`columns
      ensures Valid()
      ensures Snapshot() == InsertOrMove(old(Snapshot()), colName, targetColName)
      ensures fresh(newCol) && forall c :: c in columns ==> c in old(columns) || c == newCol
    {
      newCol := new ColumnItem.Named(colName, true);
      assert Snapshot() == old(Snapshot());
      PlaceColumn(newCol, colName, targetColName);
    }

    /** The list steps of an insert-or-move, for a placeholder `newCol` that is not listed yet. */
    method PlaceColumn(newCol: ColumnItem, colName: string, targetColName: string)
      requires Valid() && newCol !in columns && newCol.State() == Placeholder(colName)
      modifies this`columns
      ensures Valid()
      ensures Snapshot() == InsertOrMove(old(Snapshot()), colName, targetColName)
      ensures forall c :: c in columns ==> c in old(columns) || c == newCol
    {
      var placed := PlacedItems(columns, newCol, colName, targetColName);
      PlacedItemsFacts(columns, newCol, colName, targetColName);
      SetColumns(placed);
    }

    /** Replaces the column list; the columns themselves are untouched. */
    method SetColumns(cs: seq<ColumnItem>)
      modifies this`columns
      ensures columns == cs && Snapshot() == old(States(cs))
      ensures forall k :: 0 <= k < |cs| && old(cs[k].Labelled()) ==> cs[k].Labelled()
    {
      columns := cs;
    }

    /**
     * Adds the three custom placeholders the export needs, each after its anchor column:
     * "SUBCATEGORIA" after "Barrio_desc", "FECHA_PAGO" after "Medidor" and "USRS_LEGAL"
     * after "FECHA_PAGO", then refreshes the highlighting. The target is left as it is,
     * even when it was one of the columns replaced.
     */
    method InjectEmptyColumns()
      requires Valid()
      modifies this`columns, columns
      ensures Valid()
      ensures Snapshot() == InjectPlaceholders(old(Snapshot()))
      ensures VisualsUpToDate()
    {
      PlacePlaceholders();
      UpdateMergeVisuals();
    }

    /** The three moves of `InjectEmptyColumns`, before the highlighting is refreshed. */
    method PlacePlaceholders()
      requires Valid()
      modifies this`columns
      ensures Valid()
      ensures Snapshot() == InjectPlaceholders(old(Snapshot()))
      ensures forall i :: 0 <= i < |columns| ==> columns[i] in old(columns) || fresh(columns[i])
    {
      var a := InsertOrMoveColumn(SubcategoryName, NeighbourhoodName);
      ghost var once := columns;
      var b := InsertOrMoveColumn(PaymentDateName, MeterName);
      ghost var twice := columns;
      var c := InsertOrMoveColumn(LegalUsersName, PaymentDateName);
      forall i | 0 <= i < |columns|
        ensures columns[i] in old(columns) || fresh(columns[i])
      {
        var o := columns[i];
        assert o in columns;
        if o != c {
          assert o in twice;
          if o != b { assert o in once; }
        }
      }
    }

    /** Inserts a selected, empty custom column named "Nueva Columna" at the top. */
    method AddCustomColumn()
      requires Valid()
      modifies this`columns
      ensures Valid()
      ensures |columns| == |old(columns)| + 1 && fresh(columns[0]) && columns[1..] == old(columns)
      ensures Snapshot() == [Placeholder("Nueva Columna")] + old(Snapshot())
      ensures columns[0].sourceInfo == "" && !columns[0].isTargetMode && !columns[0].canBeMergedIntoTarget
      ensures old(UniqueOwnership(Snapshot())) ==> UniqueOwnership(Snapshot())
    {
      var c := new ColumnItem.Named("Nueva Columna", true);
      ghost var before := Snapshot();
      columns := InsertAt(columns, 0, c);
      StatesInsertAt(old(columns), 0, c);
      DistinctInsertAt(old(columns), 0, c);
      if UniqueOwnership(before) {
        InsertAtOwnership(before, 0, Placeholder("Nueva Columna"));
      }
    }

    /** Removes the column if listed, drops it as target if it was one, and refreshes the highlighting. */
    method RemoveColumn(item: ColumnItem)
      requires Valid()
      modifies this`columns, this`targetColumn, columns
      ensures Valid()
      ensures var k := IndexOfItem(old(columns), item);
              && columns == (if k >= 0 then RemoveAt(old(columns), k) else old(columns))
              && Snapshot() == (if k >= 0 then RemoveAt(old(Snapshot()), k) else old(Snapshot()))
      ensures targetColumn == (if old(targetColumn) == item then null else old(targetColumn))
      ensures VisualsUpToDate()
    {
      DropColumn(item);
      RefreshVisualsOver(old(columns), {});
    }

    /** `RemoveColumn` before the highlighting is refreshed. */
    method DropColumn(item: ColumnItem)
      requires Valid()
      modifies this`columns, this`targetColumn
      ensures Valid()
      ensures var k := IndexOfItem(old(columns), item);
              && columns == (if k >= 0 then RemoveAt(old(columns), k) else old(columns))
              && Snapshot() == (if k >= 0 then RemoveAt(old(Snapshot()), k) else old(Snapshot()))
      ensures forall i :: 0 <= i < |columns| ==> columns[i] in old(columns)
      ensures targetColumn == (if old(targetColumn) == item then null else old(targetColumn))
    {
      RemoveListed(item);
      if targetColumn == item {
        targetColumn := null;
      }
    }

    /** Takes `item` out of the column list, as a list's `Remove` does: its first occurrence, if any. */
    method RemoveListed(item: ColumnItem)
      requires Valid()
      modifies this`columns
      ensures Valid() && item !in columns
      ensures var k := IndexOfItem(old(columns), item);
              && columns == (if k >= 0 then RemoveAt(old(columns), k) else old(columns))
              && Snapshot() == (if k >= 0 then RemoveAt(old(Snapshot()), k) else old(Snapshot()))
      ensures forall i :: 0 <= i < |columns| ==> columns[i] in old(columns)
    {
      var k := IndexOfItem(columns, item);
      if k >= 0 {
        StatesRemoveAt(columns, k);
        DistinctRemoveAt(columns, k);
        SetColumns(RemoveAt(columns, k));
      }
    }

    /** Makes `item` the merge target, or clears the target when `item` already is it. */
    method SetAsTarget(item: ColumnItem)
      modifies this`targetColumn, columns
      ensures targetColumn == (if old(targetColumn) == item then null else item)
      ensures Snapshot() == old(Snapshot())
      ensures VisualsUpToDate()
    {
      if targetColumn == item {
        targetColumn := null;
      } else {
        targetColumn := item;
      }
      UpdateMergeVisuals();
    }

    /** Forgets every file, every column and the target. */
    method ClearAll()
      modifies this`files, this`columns, this`targetColumn
      ensures files == [] && columns == [] && targetColumn == null
    {
      files := [];
      columns := [];
      targetColumn := null;
      UpdateMergeVisuals();
    }

    /** Sets the selection flag of every column to `b`; nothing else changes. */
    method SetSelection(b: bool)
      requires Valid()
      modifies columns
      ensures Snapshot() == WithSelection(old(Snapshot()), b)
      ensures forall k :: 0 <= k < |columns| ==>
                && columns[k].sourceInfo == old(columns[k].sourceInfo)
                && columns[k].isTargetMode == old(columns[k].isTargetMode)
                && columns[k].canBeMergedIntoTarget == old(columns[k].canBeMergedIntoTarget)
    {
      var i := 0;
      while i < |columns|
        invariant 0 <= i <= |columns|
        invariant forall k :: 0 <= k < |columns| ==>
                    && columns[k].State() == (if k < i then old(columns[k].State()).(selected := b) else old(columns[k].State()))
                    && columns[k].sourceInfo == old(columns[k].sourceInfo)
                    && columns[k].isTargetMode == old(columns[k].isTargetMode)
                    && columns[k].canBeMergedIntoTarget == old(columns[k].canBeMergedIntoTarget)
      {
        columns[i].isSelected := b;
        i := i + 1;
      }
    }

    method SelectAllColumns()
      requires Valid()
      modifies columns
      ensures Snapshot() == WithSelection(old(Snapshot()), true)
    {
      SetSelection(true);
    }

    method DeselectAllColumns()
      requires Valid()
      modifies columns
      ensures Snapshot() == WithSelection(old(Snapshot()), false)
    {
      SetSelection(false);
    }

    /**
     * The export's rows: for every file in order, the output row of each of its rows, built
     * from the selected columns (the writing of the workbook is not part of this model).
     */
    method ProcessConsolidation(readRows: string -> seq<Row>, parse: DateParser) returns (rowsToExport: seq<Row>)
      ensures rowsToExport == Consolidate(files, readRows, Snapshot(), generatePeriods, cleanJobType, parse)
    {
      var fs := files;
      var cols := Snapshot();
      var periods, clean := generatePeriods, cleanJobType;
      var activeColumns := Selected(cols);
      rowsToExport := [];
      var i := 0;
      while i < |fs|
        invariant 0 <= i <= |fs|
        invariant rowsToExport == Consolidate(fs[..i], readRows, cols, periods, clean, parse)
      {
        var sourceFile := fs[i];
        var processedRows := readRows(sourceFile);
        ConsolidateStep(fs, i, readRows, cols, periods, clean, parse);
        rowsToExport := AppendFileRows(rowsToExport, sourceFile, processedRows, activeColumns, cols, periods, clean, parse);
        i := i + 1;
      }
      assert fs[..i] == fs;
    }
  }
}
