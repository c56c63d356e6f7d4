/**
 * The unified column entity: a mutable object whose mapping dictionary records, per source
 * file, which original header of that file feeds the column.
 */
module Columns {
  import opened Strings

  /** The data of a column at one moment, as a value. */
  datatype ColumnState = ColumnState(
    header: string,
    selected: bool,
    defaultValue: string,
    custom: bool,
    mappings: map<string, string>)

  /** Two columns can be merged when no file feeds both. */
  predicate Disjoint(a: map<string, string>, b: map<string, string>) {
    forall f :: f in a ==> f !in b
  }

  /** The label `RefreshSourceCount` writes. */
  function SourceLabel(custom: bool, mappings: map<string, string>): string {
    if custom then "Manual" else NatToString(|mappings|) + " fuente(s)"
  }

  class ColumnItem {
    var headerName: string
    var isSelected: bool
    var defaultValue: string
    var isCustom: bool
    var fileMappings: map<string, string>
    var sourceInfo: string
    var isTargetMode: bool
    var canBeMergedIntoTarget: bool

    /** A fresh column: selected, not custom, with no name, no default and no mappings. */
    constructor ()
      ensures headerName == "" && isSelected && defaultValue == "" && !isCustom
      ensures fileMappings == map[] && sourceInfo == ""
      ensures !isTargetMode && !canBeMergedIntoTarget
    {
      headerName := "";
      isSelected := true;
      defaultValue := "";
      isCustom := false;
      fileMappings := map[];
      sourceInfo := "";
      isTargetMode := false;
      canBeMergedIntoTarget := false;
    }

    /**
     * A fresh column built by an object initializer: named `header`, selected, custom or not,
     * with no default, no mappings and no label yet.
     */
    constructor Named(header: string, custom: bool)
      ensures State() == ColumnState(header, true, "", custom, map[])
      ensures sourceInfo == "" && !isTargetMode && !canBeMergedIntoTarget
    {
      headerName := header;
      isSelected := true;
      defaultValue := "";
      isCustom := custom;
      fileMappings := map[];
      sourceInfo := "";
      isTargetMode := false;
      canBeMergedIntoTarget := false;
    }

    /** The data of this column; the label and the two highlighting flags are not part of it. */
    function State(): ColumnState
      reads this`headerName, this`isSelected, this`defaultValue, this`isCustom, this`fileMappings
    {
      ColumnState(headerName, isSelected, defaultValue, isCustom, fileMappings)
    }

    /** The source label is up to date. */
    predicate Labelled()
      reads this`sourceInfo, this`isCustom, this`fileMappings
    {
      sourceInfo == SourceLabel(isCustom, fileMappings)
    }

    /** Writes the source label: "Manual" for a custom column, the mapping count otherwise. */
    method RefreshSourceCount()
      modifies this`sourceInfo
      ensures sourceInfo == SourceLabel(isCustom, fileMappings)
      ensures Labelled()
    {
      sourceInfo := if isCustom then "Manual" else NatToString(|fileMappings|) + " fuente(s)";
    }

    /** True exactly when no file key of this column is a file key of `other`; changes nothing. */
    method CanMergeWith(other: ColumnItem) returns (r: bool)
      ensures r <==> Disjoint(fileMappings, other.fileMappings)
    {
      var pending := fileMappings.Keys;
      while pending != {}
        invariant pending <= fileMappings.Keys
        invariant forall f :: f in fileMappings && f !in pending ==> f !in other.fileMappings
        decreases pending
      {
        var f :| f in pending;
        if f in other.fileMappings {
          return false;
        }
        pending := pending - {f};
      }
      return true;
    }
  }

  /** Mergeability is symmetric; an unmapped column merges with any; a mapped one not with itself. */
  lemma DisjointProperties(a: map<string, string>, b: map<string, string>)
    ensures Disjoint(a, b) <==> Disjoint(b, a)
    ensures a == map[] ==> Disjoint(a, b)
    ensures a != map[] ==> !Disjoint(a, a)
  {
    if a != map[] {
      var f :| f in a;
    }
  }

  function States(cs: seq<ColumnItem>): (r: seq<ColumnState>)
    reads cs`headerName, cs`isSelected, cs`defaultValue, cs`isCustom, cs`fileMappings
    ensures |r| == |cs| && forall i :: 0 <= i < |cs| ==> r[i] == cs[i].State()
  {
    if cs == [] then [] else [cs[0].State()] + States(cs[1..])
  }

  /** The snapshot of a concatenation is the concatenation of the snapshots. */
  lemma StatesAppend(a: seq<ColumnItem>, b: seq<ColumnItem>)
    ensures States(a + b) == States(a) + States(b)
  {
    var r := States(a + b);
    var e := States(a) + States(b);
    assert |r| == |e|;
    forall q | 0 <= q < |r|
      ensures r[q] == e[q]
    {
      if q < |a| {
        assert (a + b)[q] == a[q];
      } else {
        assert (a + b)[q] == b[q - |a|];
      }
    }
  }

  /** The snapshot of a list is unchanged when the data of each listed column is. */
  twostate lemma StatesUnchanged(cs: seq<ColumnItem>)
    requires forall q :: 0 <= q < |cs| ==> cs[q].State() == old(cs[q].State())
    ensures States(cs) == old(States(cs))
  {
    assert forall q :: 0 <= q < |cs| ==> States(cs)[q] == old(States(cs))[q];
  }
}
