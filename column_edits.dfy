/**
 * The edits the view model applies to the column registry, stated on values: merging one
 * column into the target, detaching one file/header pair into a column of its own, and the
 * insert-or-move of a placeholder column after an anchor.
 */
module ColumnEdits {
  import opened Strings
  import opened Columns
  import opened Registry

  // ----- Merge -----

  /**
   * The target's mappings plus each source mapping whose file the target does not map yet:
   * the source's map overridden by the target's.
   */
  function MergeMappings(target: map<string, string>, source: map<string, string>): map<string, string> {
    source + target
  }

  /**
   * The target keeps every mapping it had and gains the source's other files; when the two
   * are disjoint (the only case the guard lets through) the result is their union, and the
   * source count adds up.
   */
  lemma MergeMappingsProperties(target: map<string, string>, source: map<string, string>)
    ensures MergeMappings(target, source).Keys == target.Keys + source.Keys
    ensures forall f :: f in target ==> MergeMappings(target, source)[f] == target[f]
    ensures forall f :: f in source && f !in target ==> MergeMappings(target, source)[f] == source[f]
    ensures Disjoint(target, source) ==> |MergeMappings(target, source)| == |target| + |source|
  {
    if Disjoint(target, source) {
      DisjointCount(target.Keys, source.Keys);
    }
  }

  lemma {:induction false} DisjointCount(a: set<string>, b: set<string>)
    requires a * b == {}
    ensures |a + b| == |a| + |b|
    decreases |a|
  {
    if a != {} {
      var x :| x in a;
      DisjointCount(a - {x}, b);
      assert a + b == (a - {x}) + b + {x};
    }
  }

  /** The registry after merging column `s` into the listed target `t`: `t` updated, `s` removed. */
  function MergeInto(cs: seq<ColumnState>, t: nat, s: nat): seq<ColumnState>
    requires t < |cs| && s < |cs| && t != s
  {
    RemoveAt(cs[t := cs[t].(mappings := MergeMappings(cs[t].mappings, cs[s].mappings))], s)
  }

  /** Merging keeps every pair owned at most once. */
  lemma MergeOwnership(cs: seq<ColumnState>, t: nat, s: nat)
    requires t < |cs| && s < |cs| && t != s
    requires UniqueOwnership(cs)
    ensures UniqueOwnership(MergeInto(cs, t, s))
  {
    var r := MergeInto(cs, t, s);
    var merged := MergeMappings(cs[t].mappings, cs[s].mappings);
    forall i, j, f | 0 <= i < |r| && 0 <= j < |r| && i != j && f in r[i].mappings && f in r[j].mappings
      ensures r[i].mappings[f] != r[j].mappings[f]
    {
      var i' := if i < s then i else i + 1;
      var j' := if j < s then j else j + 1;
      assert i' != s && j' != s && i' != j';
      if i' == t {
        assert r[i].mappings == merged && r[j] == cs[j'];
        if f !in cs[t].mappings {
          assert r[i].mappings[f] == cs[s].mappings[f];
        }
      } else if j' == t {
        assert r[j].mappings == merged && r[i] == cs[i'];
        if f !in cs[t].mappings {
          assert r[j].mappings[f] == cs[s].mappings[f];
        }
      } else {
        assert r[i] == cs[i'] && r[j] == cs[j'];
      }
    }
  }

  /** A merge the guard allows loses no pair and adds none: it only changes which column owns them. */
  lemma MergeKeepsPairs(cs: seq<ColumnState>, t: nat, s: nat, f: string, h: string)
    requires t < |cs| && s < |cs| && t != s
    requires Disjoint(cs[t].mappings, cs[s].mappings)
    ensures Owned(MergeInto(cs, t, s), f, h) <==> Owned(cs, f, h)
  {
    if Owned(cs, f, h) {
      var i :| 0 <= i < |cs| && Owns(cs[i], f, h);
      MergeKeepsOwned(cs, t, s, f, h, i);
    }
    if Owned(MergeInto(cs, t, s), f, h) {
      var k :| 0 <= k < |MergeInto(cs, t, s)| && Owns(MergeInto(cs, t, s)[k], f, h);
      MergeAddsNothing(cs, t, s, f, h, k);
    }
  }

  lemma MergeKeepsOwned(cs: seq<ColumnState>, t: nat, s: nat, f: string, h: string, i: nat)
    requires t < |cs| && s < |cs| && t != s
    requires Disjoint(cs[t].mappings, cs[s].mappings)
    requires i < |cs| && Owns(cs[i], f, h)
    ensures Owned(MergeInto(cs, t, s), f, h)
  {
    var r := MergeInto(cs, t, s);
    var t' := if t < s then t else t - 1;
    MergeMappingsProperties(cs[t].mappings, cs[s].mappings);
    assert r[t'].mappings == MergeMappings(cs[t].mappings, cs[s].mappings);
    if i == s || i == t {
      assert Owns(r[t'], f, h);
    } else {
      var k := if i < s then i else i - 1;
      assert r[k] == cs[i];
      assert Owns(r[k], f, h);
    }
  }

  lemma MergeAddsNothing(cs: seq<ColumnState>, t: nat, s: nat, f: string, h: string, k: nat)
    requires t < |cs| && s < |cs| && t != s
    requires k < |MergeInto(cs, t, s)| && Owns(MergeInto(cs, t, s)[k], f, h)
    ensures Owned(cs, f, h)
  {
    var r := MergeInto(cs, t, s);
    var t' := if t < s then t else t - 1;
    if k == t' {
      MergeMappingsProperties(cs[t].mappings, cs[s].mappings);
      assert r[t'].mappings == MergeMappings(cs[t].mappings, cs[s].mappings);
      if f in cs[t].mappings {
        assert Owns(cs[t], f, h);
      } else {
        assert Owns(cs[s], f, h);
      }
    } else {
      var i := if k < s then k else k + 1;
      assert r[k] == cs[i];
      assert Owns(cs[i], f, h);
    }
  }

  // ----- Detach -----

  /** Position of the first column that owns the pair, or -1. */
  function OwnerIndex(cs: seq<ColumnState>, f: string, h: string): (r: int)
    ensures -1 <= r < |cs|
    ensures r >= 0 ==> Owns(cs[r], f, h) && forall j :: 0 <= j < r ==> !Owns(cs[j], f, h)
    ensures r < 0 <==> !Owned(cs, f, h)
  {
    if cs == [] then -1
    else if Owns(cs[0], f, h) then 0
    else
      var t := OwnerIndex(cs[1..], f, h);
      assert forall j :: 1 <= j < |cs| ==> cs[j] == cs[1..][j - 1];
      if t < 0 then -1 else t + 1
  }

  /**
   * The registry after detaching pair (`file`, `name`): its first owner loses that file, a
   * new column named after the original header and mapping only that pair is placed right
   * after it, and the owner is dropped if it is left without mappings and is not custom.
   */
  function Detach(cs: seq<ColumnState>, file: string, name: string): seq<ColumnState> {
    var p := OwnerIndex(cs, file, name);
    if p < 0 then cs
    else
      var parent := cs[p].(mappings := cs[p].mappings - {file});
      if parent.mappings == map[] && !parent.custom then cs[p := NewColumn(name, file)]
      else InsertAt(cs[p := parent], p + 1, NewColumn(name, file))
  }

  /** Detaching keeps every pair owned at most once. */
  lemma DetachOwnership(cs: seq<ColumnState>, file: string, name: string)
    requires UniqueOwnership(cs)
    ensures UniqueOwnership(Detach(cs, file, name))
  {
    var p := OwnerIndex(cs, file, name);
    if p >= 0 {
      if LeftEmpty(cs[p], file) {
        DetachReplaces(cs, file, name, p);
        ShapeOwnership(cs, cs[p := NewColumn(name, file)], p, p, file, name);
      } else {
        DetachInserts(cs, file, name, p);
        InsertedOwnership(cs, file, name, p);
      }
    }
  }

  /** The kept owner without the file, followed by the new column, owns every pair at most once. */
  lemma InsertedOwnership(cs: seq<ColumnState>, file: string, name: string, p: nat)
    requires UniqueOwnership(cs) && p < |cs| && Owns(cs[p], file, name)
    ensures UniqueOwnership(InsertAt(cs[p := cs[p].(mappings := cs[p].mappings - {file})], p + 1, NewColumn(name, file)))
  {
    var r := GrownAfter(cs, p, cs[p].(mappings := cs[p].mappings - {file}), NewColumn(name, file));
    ShapeOwnership(cs, r, p, p + 1, file, name);
  }

  /**
   * A registry shaped like a detach's result keeps every pair owned at
   * most once: the new column's only pair was the owner's, which no longer has it.
   */
  lemma ShapeOwnership(cs: seq<ColumnState>, r: seq<ColumnState>, p: nat, n: nat, file: string, name: string)
    requires UniqueOwnership(cs) && p < |cs| && (n == p || n == p + 1) && Owns(cs[p], file, name)
    requires |r| == |cs| + n - p && r[n] == NewColumn(name, file)
    requires n == p + 1 ==> r[p] == cs[p].(mappings := cs[p].mappings - {file})
    requires forall i :: 0 <= i < p ==> r[i] == cs[i]
    requires forall i :: n < i < |r| ==> r[i] == cs[i - n + p]
    ensures UniqueOwnership(r)
  {
    forall i, j, f | 0 <= i < |r| && 0 <= j < |r| && i != j && f in r[i].mappings && f in r[j].mappings
      ensures r[i].mappings[f] != r[j].mappings[f]
    {
      var i' := if i < p then i else if i <= n then p else i - n + p;
      var j' := if j < p then j else if j <= n then p else j - n + p;
      if i == n {
        assert f == file && j' != p && r[j] == cs[j'];
      } else if j == n {
        assert f == file && i' != p && r[i] == cs[i'];
      } else {
        assert i' != j';
        assert r[i].mappings[f] == cs[i'].mappings[f] && r[j].mappings[f] == cs[j'].mappings[f];
      }
    }
  }

  /** A sequence updated at `p` and then grown right after `p`, element by element. */
  lemma GrownAfter<T>(s: seq<T>, p: nat, t: T, x: T) returns (r: seq<T>)
    requires p < |s|
    ensures r == InsertAt(s[p := t], p + 1, x)
    ensures |r| == |s| + 1 && r[p] == t && r[p + 1] == x
    ensures forall i :: 0 <= i < p ==> r[i] == s[i]
    ensures forall i :: p + 1 < i < |r| ==> r[i] == s[i - (p + 1) + p]
  {
    r := InsertAt(s[p := t], p + 1, x);
    forall i | p + 1 < i < |r|
      ensures r[i] == s[i - (p + 1) + p]
    {
      assert r[i] == s[p := t][i - 1];
    }
  }

  /** The owner left empty and not custom is replaced by the new column. */
  lemma DetachReplaces(cs: seq<ColumnState>, file: string, name: string, p: nat)
    requires p == OwnerIndex(cs, file, name)
    requires LeftEmpty(cs[p], file)
    ensures Detach(cs, file, name) == cs[p := NewColumn(name, file)]
  {
  }

  /** Otherwise the owner is kept without the file and the new column follows it. */
  lemma DetachInserts(cs: seq<ColumnState>, file: string, name: string, p: nat)
    requires p == OwnerIndex(cs, file, name)
    requires !LeftEmpty(cs[p], file)
    ensures Detach(cs, file, name) ==
            InsertAt(cs[p := cs[p].(mappings := cs[p].mappings - {file})], p + 1, NewColumn(name, file))
  {
  }

  /** The owner `c` is removed by a detach of `file`: it has no other mapping and is not custom. */
  predicate LeftEmpty(c: ColumnState, file: string) {
    c.mappings - {file} == map[] && !c.custom
  }

  /**
   * A detach spelled out as the steps the view model takes on the owner at `p`: the owner
   * loses the file, the new column is inserted right after it, and the owner is then removed
   * if it is left without mappings and is not custom.
   */
  function DetachSteps(cs: seq<ColumnState>, file: string, name: string, p: nat): (r: seq<ColumnState>)
    requires p < |cs|
    ensures |r| == |cs| || |r| == |cs| + 1
  {
    var trimmed := cs[p := cs[p].(mappings := cs[p].mappings - {file})];
    var split := InsertAt(trimmed, p + 1, NewColumn(name, file));
    if trimmed[p].mappings == map[] && !trimmed[p].custom then RemoveAt(split, p) else split
  }

  /** The steps, taken on the first owner of the pair, give the detach. */
  lemma DetachBySteps(cs: seq<ColumnState>, file: string, name: string, p: nat)
    requires p == OwnerIndex(cs, file, name)
    ensures Detach(cs, file, name) == DetachSteps(cs, file, name, p)
  {
    var trimmed := cs[p].(mappings := cs[p].mappings - {file});
    if trimmed.mappings == map[] && !trimmed.custom {
      DetachReplaces(cs, file, name, p);
      RemoveBeforeInserted(cs, p, trimmed, NewColumn(name, file));
    } else {
      DetachInserts(cs, file, name, p);
    }
  }

  /** Detaching loses no pair and adds none: the pair only changes owner. */
  lemma DetachKeepsPairs(cs: seq<ColumnState>, file: string, name: string, f: string, h: string)
    ensures Owned(Detach(cs, file, name), f, h) <==> Owned(cs, f, h)
  {
    if Owned(cs, f, h) {
      var i :| 0 <= i < |cs| && Owns(cs[i], f, h);
      DetachKeepsOwned(cs, file, name, f, h, i);
    }
    if Owned(Detach(cs, file, name), f, h) {
      var k :| 0 <= k < |Detach(cs, file, name)| && Owns(Detach(cs, file, name)[k], f, h);
      DetachAddsNothing(cs, file, name, f, h, k);
    }
  }

  lemma DetachKeepsOwned(cs: seq<ColumnState>, file: string, name: string, f: string, h: string, i: nat)
    requires i < |cs| && Owns(cs[i], f, h)
    ensures Owned(Detach(cs, file, name), f, h)
  {
    var p := OwnerIndex(cs, file, name);
    var r := Detach(cs, file, name);
    if p < 0 {
      assert Owns(r[i], f, h);
    } else {
      var parent := cs[p].(mappings := cs[p].mappings - {file});
      var n := if parent.mappings == map[] && !parent.custom then p else p + 1;
      if i == p && f == file {
        assert Owns(r[n], f, h);
      } else if i == p {
        assert f in parent.mappings && Owns(r[p], f, h);
      } else if i < p {
        assert Owns(r[i], f, h);
      } else {
        assert r[i - p + n] == cs[i];
        assert Owns(r[i - p + n], f, h);
      }
    }
  }

  lemma DetachAddsNothing(cs: seq<ColumnState>, file: string, name: string, f: string, h: string, k: nat)
    requires k < |Detach(cs, file, name)| && Owns(Detach(cs, file, name)[k], f, h)
    ensures Owned(cs, f, h)
  {
    var p := OwnerIndex(cs, file, name);
    var r := Detach(cs, file, name);
    if p < 0 {
      assert Owns(cs[k], f, h);
    } else {
      var parent := cs[p].(mappings := cs[p].mappings - {file});
      var n := if parent.mappings == map[] && !parent.custom then p else p + 1;
      if k == n || k == p {
        assert Owns(cs[p], f, h);
      } else if k < p {
        assert Owns(cs[k], f, h);
      } else {
        assert r[k] == cs[k - n + p];
        assert Owns(cs[k - n + p], f, h);
      }
    }
  }

  /**
   * Merging a column whose only mapping is {`file`: `name`} into a target that does not map
   * `file`, then detaching that pair, gives back the target unchanged and puts a fresh column
   * with mapping {`file`: `name`} right after it; a target left empty and not custom is
   * replaced by that column instead.
   */
  lemma MergeThenDetach(cs: seq<ColumnState>, t: nat, s: nat, file: string, name: string)
    requires t < |cs| && s < |cs| && t != s
    requires UniqueOwnership(cs)
    requires cs[s].mappings == map[file := name] && file !in cs[t].mappings
    ensures var rest := RemoveAt(cs, s);
            var t' := if t < s then t else t - 1;
            Detach(MergeInto(cs, t, s), file, name) ==
              if cs[t].mappings == map[] && !cs[t].custom then rest[t' := NewColumn(name, file)]
              else InsertAt(rest, t' + 1, NewColumn(name, file))
  {
    var m1 := MergeInto(cs, t, s);
    var t' := MergedOwner(cs, t, s, file, name);
    if cs[t].mappings == map[] && !cs[t].custom {
      DetachReplaces(m1, file, name, t');
      assert m1[t' := NewColumn(name, file)] == m1[t' := cs[t]][t' := NewColumn(name, file)];
    } else {
      DetachInserts(m1, file, name, t');
    }
  }

  /**
   * After merging the column at `s`, which maps only (`file`, `name`), into the column at
   * `t`, the merged column at `t'` is the first owner of the pair, and taking the file back
   * out of it gives the registry without the source column.
   */
  lemma MergedOwner(cs: seq<ColumnState>, t: nat, s: nat, file: string, name: string) returns (t': nat)
    requires t < |cs| && s < |cs| && t != s
    requires UniqueOwnership(cs)
    requires cs[s].mappings == map[file := name] && file !in cs[t].mappings
    ensures t' == (if t < s then t else t - 1) && t' < |MergeInto(cs, t, s)|
    ensures OwnerIndex(MergeInto(cs, t, s), file, name) == t'
    ensures MergeInto(cs, t, s)[t'].(mappings := MergeInto(cs, t, s)[t'].mappings - {file}) == cs[t]
    ensures MergeInto(cs, t, s)[t' := cs[t]] == RemoveAt(cs, s)
  {
    t' := if t < s then t else t - 1;
    var m1 := MergeInto(cs, t, s);
    MergeOwnership(cs, t, s);
    assert MergeMappings(cs[t].mappings, cs[s].mappings) == cs[t].mappings[file := name];
    assert m1[t'] == cs[t].(mappings := cs[t].mappings[file := name]);
    assert Owns(m1[t'], file, name);
    assert cs[t].mappings[file := name] - {file} == cs[t].mappings;
  }

  // ----- Insert-or-move of a placeholder column -----

  /** A custom, selected column with no default and no mappings. */
  function Placeholder(name: string): ColumnState {
    ColumnState(name, true, "", true, map[])
  }

  /** The registry without its first column named like `name` (ignoring case), if any. */
  function WithoutNamed(cs: seq<ColumnState>, name: string): seq<ColumnState> {
    var e := FindHeader(cs, name);
    if e >= 0 then RemoveAt(cs, e) else cs
  }

  /** The position right after the first column named like `anchor`, or the end. */
  function SlotAfter(cs: seq<ColumnState>, anchor: string): (k: nat)
    ensures k <= |cs|
  {
    var a := FindHeader(cs, anchor);
    if a >= 0 then a + 1 else |cs|
  }

  /**
   * Drops the first column named like `name`, then inserts a placeholder named `name` right
   * after the first column named like `anchor`, or at the end when there is none.
   */
  function InsertOrMove(cs: seq<ColumnState>, name: string, anchor: string): seq<ColumnState> {
    var rest := WithoutNamed(cs, name);
    InsertAt(rest, SlotAfter(rest, anchor), Placeholder(name))
  }

  /** The names of the three placeholders and of the columns they follow. */
  const SubcategoryName: string := "SUBCATEGORIA"
  const PaymentDateName: string := "FECHA_PAGO"
  const LegalUsersName: string := "USRS_LEGAL"
  const NeighbourhoodName: string := "Barrio_desc"
  const MeterName: string := "Medidor"

  /** The three placeholders added by the "inject empty columns" command. */
  function InjectPlaceholders(cs: seq<ColumnState>): seq<ColumnState> {
    InsertOrMove(InsertOrMove(InsertOrMove(cs, SubcategoryName, NeighbourhoodName), PaymentDateName, MeterName),
                 LegalUsersName, PaymentDateName)
  }

  /** At most one column is named like `name`, ignoring case. */
  predicate AtMostOneNamed(cs: seq<ColumnState>, name: string) {
    forall i, j ::
      0 <= i < |cs| && 0 <= j < |cs| && EqualsIgnoreCase(cs[i].header, name) && EqualsIgnoreCase(cs[j].header, name)
      ==> i == j
  }

  lemma WithoutNamedLeavesNone(cs: seq<ColumnState>, name: string)
    requires AtMostOneNamed(cs, name)
    ensures forall i :: 0 <= i < |WithoutNamed(cs, name)| ==> !EqualsIgnoreCase(WithoutNamed(cs, name)[i].header, name)
  {
    var e := FindHeader(cs, name);
    var rest := WithoutNamed(cs, name);
    forall i | 0 <= i < |rest|
      ensures !EqualsIgnoreCase(rest[i].header, name)
    {
      if e >= 0 {
        var i' := if i < e then i else i + 1;
        assert rest[i] == cs[i'] && i' != e;
      }
    }
  }

  lemma PlaceholderIsFound(rest: seq<ColumnState>, name: string, k: nat)
    requires k <= |rest|
    requires forall i :: 0 <= i < |rest| ==> !EqualsIgnoreCase(rest[i].header, name)
    ensures FindHeader(InsertAt(rest, k, Placeholder(name)), name) == k
    ensures AtMostOneNamed(InsertAt(rest, k, Placeholder(name)), name)
    ensures WithoutNamed(InsertAt(rest, k, Placeholder(name)), name) == rest
  {
    var r := InsertAt(rest, k, Placeholder(name));
    assert EqualsIgnoreCase(r[k].header, name);
    assert forall i :: 0 <= i < |r| && i != k ==> !EqualsIgnoreCase(r[i].header, name) by {
      forall i | 0 <= i < |r| && i != k
        ensures !EqualsIgnoreCase(r[i].header, name)
      {
        if i < k { assert r[i] == rest[i]; } else { assert r[i] == rest[i - 1]; }
      }
    }
    RemoveInserted(rest, k, Placeholder(name));
  }

  /**
   * After an insert-or-move, exactly one column is named like `name` when at most one was
   * before, and it is the placeholder; removing it leaves the other columns in their old
   * order; and it sits right after the first column named like the anchor among those, or
   * last when there is none.
   */
  lemma InsertOrMovePlacement(cs: seq<ColumnState>, name: string, anchor: string)
    requires AtMostOneNamed(cs, name)
    ensures var r := InsertOrMove(cs, name, anchor);
            var k := FindHeader(r, name);
            && k >= 0 && r[k] == Placeholder(name) && AtMostOneNamed(r, name)
            && RemoveAt(r, k) == WithoutNamed(cs, name)
            && (if FindHeader(RemoveAt(r, k), anchor) >= 0 then k == FindHeader(RemoveAt(r, k), anchor) + 1
                else k == |r| - 1)
  {
    var rest := WithoutNamed(cs, name);
    WithoutNamedLeavesNone(cs, name);
    var k := SlotAfter(rest, anchor);
    PlaceholderIsFound(rest, name, k);
    RemoveInserted(rest, k, Placeholder(name));
  }

  /** Running an insert-or-move twice is the same as running it once. */
  lemma InsertOrMoveIdempotent(cs: seq<ColumnState>, name: string, anchor: string)
    requires AtMostOneNamed(cs, name)
    ensures InsertOrMove(InsertOrMove(cs, name, anchor), name, anchor) == InsertOrMove(cs, name, anchor)
  {
    var rest := WithoutNamed(cs, name);
    WithoutNamedLeavesNone(cs, name);
    PlaceholderIsFound(rest, name, SlotAfter(rest, anchor));
  }

  lemma InsertAtOwnership(cs: seq<ColumnState>, k: nat, c: ColumnState)
    requires k <= |cs| && UniqueOwnership(cs) && c.mappings == map[]
    ensures UniqueOwnership(InsertAt(cs, k, c))
  {
    var r := InsertAt(cs, k, c);
    forall i, j, f | 0 <= i < |r| && 0 <= j < |r| && i != j && f in r[i].mappings && f in r[j].mappings
      ensures r[i].mappings[f] != r[j].mappings[f]
    {
      var i' := if i < k then i else i - 1;
      var j' := if j < k then j else j - 1;
      assert r[i] == cs[i'] && r[j] == cs[j'];
    }
  }

  /** An insert-or-move keeps every pair owned at most once (the placeholder owns nothing). */
  lemma InsertOrMoveOwnership(cs: seq<ColumnState>, name: string, anchor: string)
    requires UniqueOwnership(cs)
    ensures UniqueOwnership(InsertOrMove(cs, name, anchor))
  {
    var e := FindHeader(cs, name);
    if e >= 0 {
      RemoveAtOwnership(cs, e);
    }
    var rest := WithoutNamed(cs, name);
    InsertAtOwnership(rest, SlotAfter(rest, anchor), Placeholder(name));
  }

  /** A same-named file column is replaced by the placeholder: its mappings are dropped. */
  lemma InsertOrMoveDropsMappings()
    ensures InsertOrMove([ColumnState("Fecha_Pago", true, "", false, map["a.xlsx" := "Fecha_Pago"])],
                         "FECHA_PAGO", "Medidor") == [Placeholder("FECHA_PAGO")]
  {
    var cs := [ColumnState("Fecha_Pago", true, "", false, map["a.xlsx" := "Fecha_Pago"])];
    assert EqualsIgnoreCase(cs[0].header, "FECHA_PAGO") by {
      assert Fold(cs[0].header) == "FECHA_PAGO";
    }
    assert WithoutNamed(cs, "FECHA_PAGO") == [];
  }

  // ----- Path de-duplication when files are picked -----

  /** `files` followed by each picked path, in order, that is not already listed. */
  function AppendNew(files: seq<string>, paths: seq<string>): seq<string> {
    if paths == [] then files
    else
      var acc := AppendNew(files, paths[..|paths| - 1]);
      var p := paths[|paths| - 1];
      if p in acc then acc else acc + [p]
  }

  /**
   * Picking files keeps the listed ones first, lists each path once, lists exactly the old and
   * the picked paths, and grows the list exactly when some picked path was not listed.
   */
  lemma {:induction false} AppendNewProperties(files: seq<string>, paths: seq<string>)
    requires Distinct(files)
    ensures files <= AppendNew(files, paths)
    ensures Distinct(AppendNew(files, paths))
    ensures forall x :: x in AppendNew(files, paths) <==> x in files || x in paths
    ensures AppendNew(files, paths) != files <==> exists p :: p in paths && p !in files
  {
    if paths != [] {
      var pre := paths[..|paths| - 1];
      var p := paths[|paths| - 1];
      AppendNewProperties(files, pre);
      assert forall x :: x in paths <==> x in pre || x == p;
      var acc := AppendNew(files, pre);
      if p !in acc {
        assert (acc + [p])[|acc|] == p;
      }
    }
  }
}
