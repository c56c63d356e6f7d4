/**
 * The column registry as a value: the list of column states the view model shows, the
 * ownership invariant over it (no file/header pair is fed into two columns), and the
 * rebuild that unifies the headers of every loaded file case-insensitively.
 */
module Registry {
  import opened Wrappers
  import opened Strings
  import opened Columns

  function Headers(cs: seq<ColumnState>): (r: seq<string>)
    ensures |r| == |cs| && forall i :: 0 <= i < |cs| ==> r[i] == cs[i].header
  {
    seq(|cs|, i requires 0 <= i < |cs| => cs[i].header)
  }

  /** Position of the first name equal to `name` ignoring case, or -1. */
  function IndexIgnoreCase(hs: seq<string>, name: string): (r: int)
    ensures -1 <= r < |hs|
    ensures r >= 0 ==> EqualsIgnoreCase(hs[r], name)
    ensures r >= 0 ==> forall j :: 0 <= j < r ==> !EqualsIgnoreCase(hs[j], name)
    ensures r < 0 ==> forall j :: 0 <= j < |hs| ==> !EqualsIgnoreCase(hs[j], name)
  {
    if hs == [] then -1
    else if EqualsIgnoreCase(hs[0], name) then 0
    else
      var t := IndexIgnoreCase(hs[1..], name);
      if t < 0 then -1 else t + 1
  }

  /** `Columns.FirstOrDefault(c => c.HeaderName.Equals(name, OrdinalIgnoreCase))`, as a position. */
  function FindHeader(cs: seq<ColumnState>, name: string): (r: int)
    ensures -1 <= r < |cs|
    ensures r >= 0 ==> EqualsIgnoreCase(cs[r].header, name)
    ensures r >= 0 ==> forall j :: 0 <= j < r ==> !EqualsIgnoreCase(cs[j].header, name)
    ensures r < 0 ==> forall j :: 0 <= j < |cs| ==> !EqualsIgnoreCase(cs[j].header, name)
  {
    IndexIgnoreCase(Headers(cs), name)
  }

  /** A non-empty sequence is its prefix followed by its last element. */
  lemma LastSplit<T>(s: seq<T>)
    requires s != []
    ensures s == s[..|s| - 1] + [s[|s| - 1]]
  {
  }

  function RemoveAt<T>(s: seq<T>, i: nat): (r: seq<T>)
    requires i < |s|
    ensures |r| == |s| - 1
    ensures forall j :: 0 <= j < i ==> r[j] == s[j]
    ensures forall j :: i <= j < |r| ==> r[j] == s[j + 1]
  {
    s[..i] + s[i + 1..]
  }

  function InsertAt<T>(s: seq<T>, i: nat, x: T): (r: seq<T>)
    requires i <= |s|
    ensures |r| == |s| + 1 && r[i] == x
    ensures forall j :: 0 <= j < i ==> r[j] == s[j]
    ensures forall j :: i < j < |r| ==> r[j] == s[j - 1]
  {
    s[..i] + [x] + s[i..]
  }

  lemma RemoveInserted<T>(s: seq<T>, i: nat, x: T)
    requires i <= |s|
    ensures RemoveAt(InsertAt(s, i, x), i) == s
  {
  }

  /**
   * Overwriting position `p` with `t`, inserting `n` right after it and then removing
   * position `p` leaves `n` in place of the element at `p`.
   */
  lemma RemoveBeforeInserted<T>(s: seq<T>, p: nat, t: T, n: T)
    requires p < |s|
    ensures RemoveAt(InsertAt(s[p := t], p + 1, n), p) == s[p := n]
  {
    var r := RemoveAt(InsertAt(s[p := t], p + 1, n), p);
    forall j | 0 <= j < |s|
      ensures r[j] == s[p := n][j]
    {
      if j < p {
        assert r[j] == InsertAt(s[p := t], p + 1, n)[j];
      } else {
        assert r[j] == InsertAt(s[p := t], p + 1, n)[j + 1];
      }
    }
  }

  /** Column `c` feeds file `f`'s original header `h` into the output. */
  predicate Owns(c: ColumnState, f: string, h: string) {
    f in c.mappings && c.mappings[f] == h
  }

  /** The registry invariant: no file/header pair is owned by two columns. */
  predicate UniqueOwnership(cs: seq<ColumnState>) {
    forall i, j, f ::
      0 <= i < |cs| && 0 <= j < |cs| && i != j && f in cs[i].mappings && f in cs[j].mappings
      ==> cs[i].mappings[f] != cs[j].mappings[f]
  }

  /** Some column owns the pair. */
  predicate Owned(cs: seq<ColumnState>, f: string, h: string) {
    exists i :: 0 <= i < |cs| && Owns(cs[i], f, h)
  }

  predicate PairwiseDistinctIgnoreCase(hs: seq<string>) {
    forall i, j :: 0 <= i < j < |hs| ==> !EqualsIgnoreCase(hs[i], hs[j])
  }

  /** Dropping a column cannot create a second owner. */
  lemma RemoveAtOwnership(cs: seq<ColumnState>, k: nat)
    requires k < |cs| && UniqueOwnership(cs)
    ensures UniqueOwnership(RemoveAt(cs, k))
  {
    var r := RemoveAt(cs, k);
    forall i, j, f | 0 <= i < |r| && 0 <= j < |r| && i != j && f in r[i].mappings && f in r[j].mappings
      ensures r[i].mappings[f] != r[j].mappings[f]
    {
      var i' := if i < k then i else i + 1;
      var j' := if j < k then j else j + 1;
      assert r[i] == cs[i'] && r[j] == cs[j'];
    }
  }

  /**
   * A registry whose columns each map a file only to a header equal to the column's name
   * ignoring case, and whose names are pairwise distinct ignoring case, has unique ownership.
   */
  lemma OwnershipFromNames(cs: seq<ColumnState>)
    requires PairwiseDistinctIgnoreCase(Headers(cs))
    requires forall i, f :: 0 <= i < |cs| && f in cs[i].mappings ==>
               EqualsIgnoreCase(cs[i].mappings[f], cs[i].header)
    ensures UniqueOwnership(cs)
  {
    forall i, j, f | 0 <= i < |cs| && 0 <= j < |cs| && i != j && f in cs[i].mappings && f in cs[j].mappings
      ensures cs[i].mappings[f] != cs[j].mappings[f]
    {
      if i < j {
        assert !EqualsIgnoreCase(Headers(cs)[i], Headers(cs)[j]);
      } else {
        assert !EqualsIgnoreCase(Headers(cs)[j], Headers(cs)[i]);
      }
    }
  }

  // ----- The header unification performed by `LoadAllColumns` -----

  /**
   * `acc` followed by each non-blank name of `hs`, in order, that matches no name kept so
   * far ignoring case.
   */
  function DedupOnto(acc: seq<string>, hs: seq<string>): seq<string> {
    if hs == [] then acc
    else
      var kept := DedupOnto(acc, hs[..|hs| - 1]);
      var h := hs[|hs| - 1];
      if IsBlank(h) || IndexIgnoreCase(kept, h) >= 0 then kept else kept + [h]
  }

  /** The reference for the unified header list: first spellings, in order of first sight. */
  function DistinctHeaders(hs: seq<string>): seq<string> {
    DedupOnto([], hs)
  }

  /** The first non-blank name of `hs` equal to `name` ignoring case. */
  function FirstVariant(hs: seq<string>, name: string): (r: Option<string>)
    ensures r.Some? ==> !IsBlank(r.value) && EqualsIgnoreCase(r.value, name)
    ensures r.Some? ==>
              exists j :: 0 <= j < |hs| && hs[j] == r.value &&
                (forall k :: 0 <= k < j ==> IsBlank(hs[k]) || !EqualsIgnoreCase(hs[k], name))
    ensures r.None? <==> forall j :: 0 <= j < |hs| ==> IsBlank(hs[j]) || !EqualsIgnoreCase(hs[j], name)
  {
    if hs == [] then None
    else
      var pre := hs[..|hs| - 1];
      var p := FirstVariant(pre, name);
      var h := hs[|hs| - 1];
      assert forall j :: 0 <= j < |pre| ==> pre[j] == hs[j];
      if p.Some? then p
      else if !IsBlank(h) && EqualsIgnoreCase(h, name) then Some(h)
      else None
  }

  lemma {:induction false} DedupOntoProperties(acc: seq<string>, hs: seq<string>)
    requires PairwiseDistinctIgnoreCase(acc)
    requires forall k :: 0 <= k < |acc| ==> !IsBlank(acc[k])
    ensures acc <= DedupOnto(acc, hs)
    ensures PairwiseDistinctIgnoreCase(DedupOnto(acc, hs))
    ensures forall k :: 0 <= k < |DedupOnto(acc, hs)| ==> !IsBlank(DedupOnto(acc, hs)[k])
    ensures forall k :: |acc| <= k < |DedupOnto(acc, hs)| ==> DedupOnto(acc, hs)[k] in hs
    ensures forall j :: 0 <= j < |hs| && !IsBlank(hs[j]) ==> IndexIgnoreCase(DedupOnto(acc, hs), hs[j]) >= 0
  {
    if hs != [] {
      var pre := hs[..|hs| - 1];
      var h := hs[|hs| - 1];
      DedupOntoProperties(acc, pre);
      var kept := DedupOnto(acc, pre);
      var r := DedupOnto(acc, hs);
      forall j | 0 <= j < |hs| && !IsBlank(hs[j])
        ensures IndexIgnoreCase(r, hs[j]) >= 0
      {
        if j < |hs| - 1 {
          assert hs[j] == pre[j];
          var p := IndexIgnoreCase(kept, hs[j]);
          assert r[p] == kept[p];
        } else if IndexIgnoreCase(kept, h) < 0 {
          assert r[|kept|] == h;
        }
      }
      forall k | |acc| <= k < |r|
        ensures r[k] in hs
      {
        if k < |kept| {
          assert r[k] == kept[k] && kept[k] in pre;
        }
      }
    }
  }

  lemma {:induction false} DedupOntoAppend(acc: seq<string>, xs: seq<string>, ys: seq<string>)
    ensures DedupOnto(acc, xs + ys) == DedupOnto(DedupOnto(acc, xs), ys)
  {
    if ys == [] {
      assert xs + ys == xs;
    } else {
      assert (xs + ys)[..|xs + ys| - 1] == xs + ys[..|ys| - 1];
      DedupOntoAppend(acc, xs, ys[..|ys| - 1]);
    }
  }

  /**
   * The unified header list has no two names equal ignoring case, no blank name, only names
   * that occur in the input, one entry for every non-blank input name, and each entry is the
   * first spelling of its name in the input.
   */
  lemma {:induction false} DistinctHeadersProperties(hs: seq<string>)
    ensures PairwiseDistinctIgnoreCase(DistinctHeaders(hs))
    ensures forall k :: 0 <= k < |DistinctHeaders(hs)| ==>
              !IsBlank(DistinctHeaders(hs)[k]) && DistinctHeaders(hs)[k] in hs
    ensures forall j :: 0 <= j < |hs| && !IsBlank(hs[j]) ==> IndexIgnoreCase(DistinctHeaders(hs), hs[j]) >= 0
    ensures forall k :: 0 <= k < |DistinctHeaders(hs)| ==>
              FirstVariant(hs, DistinctHeaders(hs)[k]) == Some(DistinctHeaders(hs)[k])
  {
    DedupOntoProperties([], hs);
    if hs != [] {
      var pre := hs[..|hs| - 1];
      var h := hs[|hs| - 1];
      DistinctHeadersProperties(pre);
      var kept := DistinctHeaders(pre);
      var r := DistinctHeaders(hs);
      forall k | 0 <= k < |r|
        ensures FirstVariant(hs, r[k]) == Some(r[k])
      {
        if k < |kept| {
          assert r[k] == kept[k];
          assert FirstVariant(pre, kept[k]) == Some(kept[k]);
        } else {
          assert r[k] == h && IndexIgnoreCase(kept, h) < 0;
          if FirstVariant(pre, h).Some? {
            var j :| 0 <= j < |pre| && !IsBlank(pre[j]) && EqualsIgnoreCase(pre[j], h);
            var p := IndexIgnoreCase(kept, pre[j]);
            assert EqualsIgnoreCase(kept[p], h);
            assert false;
          }
        }
      }
    }
  }

  // ----- The rebuild: custom columns first, then one column per distinct header -----

  /** A column created from a file header: selected, not custom, mapping that file to the header. */
  function NewColumn(header: string, file: string): ColumnState {
    ColumnState(header, true, "", false, map[file := header])
  }

  /** One header of one file folded into the master list (the body of the inner loop). */
  function AddHeader(master: seq<ColumnState>, file: string, h: string): seq<ColumnState> {
    if IsBlank(h) then master
    else
      var i := FindHeader(master, h);
      if i < 0 then master + [NewColumn(h, file)]
      else if file in master[i].mappings then master
      else master[i := master[i].(mappings := master[i].mappings[file := h])]
  }

  /** All headers of one file folded in, in order. */
  function AddFile(master: seq<ColumnState>, file: string, hs: seq<string>): seq<ColumnState> {
    if hs == [] then master else AddHeader(AddFile(master, file, hs[..|hs| - 1]), file, hs[|hs| - 1])
  }

  /** The master list built from the headers of every loaded file, in file order. */
  function Master(files: seq<string>, headers: string -> seq<string>): seq<ColumnState> {
    if files == [] then []
    else
      var f := files[|files| - 1];
      AddFile(Master(files[..|files| - 1], headers), f, headers(f))
  }

  /** The headers of every loaded file, one file after another. */
  function AllHeaders(files: seq<string>, headers: string -> seq<string>): seq<string> {
    if files == [] then [] else AllHeaders(files[..|files| - 1], headers) + headers(files[|files| - 1])
  }

  /** The custom columns, in registry order. */
  function Customs(cs: seq<ColumnState>): (r: seq<ColumnState>)
    ensures forall k :: 0 <= k < |r| ==> r[k].custom && r[k] in cs
    ensures forall i :: 0 <= i < |cs| && cs[i].custom ==> cs[i] in r
  {
    if cs == [] then []
    else
      var pre := Customs(cs[..|cs| - 1]);
      var c := cs[|cs| - 1];
      assert forall x :: x in cs <==> x in cs[..|cs| - 1] || x == c;
      if c.custom then pre + [c] else pre
  }

  /** `Customs` over a list grown by one column. */
  lemma CustomsAppend(cs: seq<ColumnState>, c: ColumnState)
    ensures Customs(cs + [c]) == if c.custom then Customs(cs) + [c] else Customs(cs)
  {
    assert (cs + [c])[..|cs|] == cs;
  }

  /** The registry after a rebuild: the custom columns kept, then the master list. */
  function Rebuild(cs: seq<ColumnState>, files: seq<string>, headers: string -> seq<string>): seq<ColumnState> {
    Customs(cs) + Master(files, headers)
  }

  predicate Distinct<T(==)>(s: seq<T>) {
    forall i, j :: 0 <= i < j < |s| ==> s[i] != s[j]
  }

  lemma {:induction false} HeadersAddFile(m: seq<ColumnState>, file: string, hs: seq<string>)
    ensures Headers(AddFile(m, file, hs)) == DedupOnto(Headers(m), hs)
  {
    if hs != [] {
      HeadersAddFile(m, file, hs[..|hs| - 1]);
      var m' := AddFile(m, file, hs[..|hs| - 1]);
      var h := hs[|hs| - 1];
      if !IsBlank(h) && FindHeader(m', h) < 0 {
        assert Headers(AddHeader(m', file, h)) == Headers(m') + [h];
      } else {
        assert Headers(AddHeader(m', file, h)) == Headers(m');
      }
    }
  }

  /** The names of the rebuilt file columns are exactly the unified header list. */
  lemma {:induction false} MasterHeaders(files: seq<string>, headers: string -> seq<string>)
    ensures Headers(Master(files, headers)) == DistinctHeaders(AllHeaders(files, headers))
  {
    if files != [] {
      var pre := files[..|files| - 1];
      var f := files[|files| - 1];
      MasterHeaders(pre, headers);
      HeadersAddFile(Master(pre, headers), f, headers(f));
      DedupOntoAppend([], AllHeaders(pre, headers), headers(f));
    }
  }

  lemma {:induction false} AllHeadersContains(files: seq<string>, headers: string -> seq<string>, f: string, x: string)
    requires f in files && x in headers(f)
    ensures x in AllHeaders(files, headers)
  {
    var pre := files[..|files| - 1];
    if f != files[|files| - 1] {
      assert f in pre;
      AllHeadersContains(pre, headers, f, x);
    }
  }

  /**
   * A rebuilt file column: selected, not custom, no default, at least one mapping, and each
   * mapping sends a loaded file to one of that file's headers that equals the column's name
   * ignoring case.
   */
  predicate FromFiles(c: ColumnState, files: seq<string>, headers: string -> seq<string>) {
    && !c.custom && c.selected && c.defaultValue == "" && c.mappings != map[]
    && forall f :: f in c.mappings ==>
         f in files && c.mappings[f] in headers(f) && EqualsIgnoreCase(c.mappings[f], c.header)
  }

  lemma {:induction false} AddFileFromFiles(m: seq<ColumnState>, g: string, hs: seq<string>,
                                            files: seq<string>, headers: string -> seq<string>)
    requires g in files && hs <= headers(g)
    requires forall i :: 0 <= i < |m| ==> FromFiles(m[i], files, headers)
    ensures forall i :: 0 <= i < |AddFile(m, g, hs)| ==> FromFiles(AddFile(m, g, hs)[i], files, headers)
  {
    if hs != [] {
      var pre := hs[..|hs| - 1];
      var h := hs[|hs| - 1];
      AddFileFromFiles(m, g, pre, files, headers);
      assert h == headers(g)[|hs| - 1];
      AddHeaderFromFiles(AddFile(m, g, pre), g, h, files, headers);
    }
  }

  lemma AddHeaderFromFiles(m: seq<ColumnState>, g: string, h: string,
                           files: seq<string>, headers: string -> seq<string>)
    requires g in files && h in headers(g)
    requires forall i :: 0 <= i < |m| ==> FromFiles(m[i], files, headers)
    ensures forall i :: 0 <= i < |AddHeader(m, g, h)| ==> FromFiles(AddHeader(m, g, h)[i], files, headers)
  {
    var m' := AddHeader(m, g, h);
    if !IsBlank(h) {
      var p := FindHeader(m, h);
      if p < 0 {
        assert m'[|m|] == NewColumn(h, g);
        assert g in NewColumn(h, g).mappings;
        assert FromFiles(NewColumn(h, g), files, headers);
      } else if g !in m[p].mappings {
        var c := m[p].(mappings := m[p].mappings[g := h]);
        assert m' == m[p := c];
        assert EqualsIgnoreCase(h, c.header);
        assert forall f :: f in c.mappings && f != g ==> c.mappings[f] == m[p].mappings[f];
        assert FromFiles(c, files, headers);
      }
    }
  }

  lemma {:induction false} MasterFromFiles(files: seq<string>, headers: string -> seq<string>)
    ensures forall i :: 0 <= i < |Master(files, headers)| ==> FromFiles(Master(files, headers)[i], files, headers)
  {
    if files != [] {
      var pre := files[..|files| - 1];
      var f := files[|files| - 1];
      MasterFromFiles(pre, headers);
      assert forall x :: x in pre ==> x in files;
      AddFileFromFiles(Master(pre, headers), f, headers(f), files, headers);
    }
  }

  /**
   * The rebuilt file columns: each is a selected, non-custom column fed by loaded files only;
   * their names are distinct ignoring case and never blank; and no pair is owned twice.
   */
  lemma MasterWellFormed(files: seq<string>, headers: string -> seq<string>)
    ensures forall i :: 0 <= i < |Master(files, headers)| ==> FromFiles(Master(files, headers)[i], files, headers)
    ensures PairwiseDistinctIgnoreCase(Headers(Master(files, headers)))
    ensures forall i :: 0 <= i < |Master(files, headers)| ==> !IsBlank(Master(files, headers)[i].header)
    ensures UniqueOwnership(Master(files, headers))
  {
    var m := Master(files, headers);
    MasterFromFiles(files, headers);
    MasterHeaders(files, headers);
    DistinctHeadersProperties(AllHeaders(files, headers));
    assert forall i :: 0 <= i < |m| ==> m[i].header == Headers(m)[i];
    OwnershipFromNames(m);
  }

  /**
   * A rebuild keeps unique ownership as long as the kept custom columns carry no mappings.
   */
  lemma RebuildOwnership(cs: seq<ColumnState>, files: seq<string>, headers: string -> seq<string>)
    requires forall i :: 0 <= i < |cs| && cs[i].custom ==> cs[i].mappings == map[]
    ensures UniqueOwnership(Rebuild(cs, files, headers))
  {
    MasterWellFormed(files, headers);
    CustomsUnmapped(cs);
    UnmappedPrefixOwnership(Customs(cs), Master(files, headers));
  }

  /** Columns without mappings put in front of a registry own nothing, so they break no ownership. */
  lemma UnmappedPrefixOwnership(c: seq<ColumnState>, m: seq<ColumnState>)
    requires forall k :: 0 <= k < |c| ==> c[k].mappings == map[]
    requires UniqueOwnership(m)
    ensures UniqueOwnership(c + m)
  {
    var r := c + m;
    forall i, j, f | 0 <= i < |r| && 0 <= j < |r| && i != j && f in r[i].mappings && f in r[j].mappings
      ensures r[i].mappings[f] != r[j].mappings[f]
    {
      assert i >= |c| && j >= |c|;
      assert r[i] == m[i - |c|] && r[j] == m[j - |c|];
    }
  }

  lemma CustomsUnmapped(cs: seq<ColumnState>)
    requires forall i :: 0 <= i < |cs| && cs[i].custom ==> cs[i].mappings == map[]
    ensures forall k :: 0 <= k < |Customs(cs)| ==> Customs(cs)[k].mappings == map[]
  {
    forall k | 0 <= k < |Customs(cs)|
      ensures Customs(cs)[k].mappings == map[]
    {
      var i :| 0 <= i < |cs| && cs[i] == Customs(cs)[k];
    }
  }

  /**
   * Without that premise the rebuild can leave a pair with two owners: a custom column that
   * absorbed a file column by a merge keeps the mapping, and the rebuild maps it again.
   */
  lemma RebuildCanDuplicateOwnership()
    ensures !UniqueOwnership(Rebuild([ColumnState("Nueva Columna", true, "", true, map["a.xlsx" := "Zona"])],
                                     ["a.xlsx"], f => ["Zona"]))
  {
    var headers: string -> seq<string> := f => ["Zona"];
    var files := ["a.xlsx"];
    var r := Rebuild([ColumnState("Nueva Columna", true, "", true, map["a.xlsx" := "Zona"])], files, headers);
    assert files[..0] == [];
    assert !IsBlank("Zona") by { assert !IsWhiteSpace("Zona"[0]); }
    assert AddFile([], "a.xlsx", ["Zona"][..0]) == [];
    assert Master(files, headers) == [NewColumn("Zona", "a.xlsx")];
    assert r[0].mappings["a.xlsx"] == r[1].mappings["a.xlsx"];
  }

  // ----- Which header of each file a rebuilt column maps -----

  function MapGet(m: map<string, string>, k: string): Option<string> {
    if k in m then Some(m[k]) else None
  }

  /** The names of file `f` folded in so far while file `g` is being read up to `hs`. */
  function Seen(files: seq<string>, headers: string -> seq<string>, g: string, hs: seq<string>, f: string): seq<string> {
    if f == g then hs else if f in files then headers(f) else []
  }

  ghost predicate MapsFirstVariants(m: seq<ColumnState>, files: seq<string>, headers: string -> seq<string>,
                              g: string, hs: seq<string>) {
    forall i, f :: 0 <= i < |m| ==>
      MapGet(m[i].mappings, f) == FirstVariant(Seen(files, headers, g, hs, f), m[i].header)
  }

  lemma AddHeaderFirstVariants(m: seq<ColumnState>, files: seq<string>, headers: string -> seq<string>,
                               g: string, hs: seq<string>, h: string)
    requires g !in files
    requires MapsFirstVariants(m, files, headers, g, hs)
    requires PairwiseDistinctIgnoreCase(Headers(m))
    requires forall f, j :: 0 <= j < |Seen(files, headers, g, hs, f)| && !IsBlank(Seen(files, headers, g, hs, f)[j])
               ==> FindHeader(m, Seen(files, headers, g, hs, f)[j]) >= 0
    ensures MapsFirstVariants(AddHeader(m, g, h), files, headers, g, hs + [h])
  {
    var m' := AddHeader(m, g, h);
    var hs' := hs + [h];
    assert hs'[..|hs'| - 1] == hs;
    forall i, f | 0 <= i < |m'|
      ensures MapGet(m'[i].mappings, f) == FirstVariant(Seen(files, headers, g, hs', f), m'[i].header)
    {
      var old' := Seen(files, headers, g, hs, f);
      if !IsBlank(h) {
        var p := FindHeader(m, h);
        if p < 0 && i == |m| && FirstVariant(old', h).Some? {
          // Every name folded in so far already has a column, so none matches the new one.
          assert false;
        } else if p >= 0 && i != p && EqualsIgnoreCase(h, m[i].header) {
          // The names are distinct ignoring case, so `h` matches only column `p`.
          assert false;
        }
      }
    }
  }

  /** The names of `m` differ ignoring case, and every non-blank name seen so far (in a loaded file, or in `g` up to `pre`) has a column. */
  lemma SeenNamesListed(m: seq<ColumnState>, files: seq<string>, headers: string -> seq<string>,
                        g: string, pre: seq<string>)
    requires Headers(m) == DistinctHeaders(AllHeaders(files, headers) + pre)
    ensures PairwiseDistinctIgnoreCase(Headers(m))
    ensures forall f, j :: 0 <= j < |Seen(files, headers, g, pre, f)| && !IsBlank(Seen(files, headers, g, pre, f)[j])
              ==> FindHeader(m, Seen(files, headers, g, pre, f)[j]) >= 0
  {
    DistinctHeadersProperties(AllHeaders(files, headers) + pre);
    forall f, j | 0 <= j < |Seen(files, headers, g, pre, f)| && !IsBlank(Seen(files, headers, g, pre, f)[j])
      ensures FindHeader(m, Seen(files, headers, g, pre, f)[j]) >= 0
    {
      SeenNameListed(m, files, headers, g, pre, f, j);
    }
  }

  /** One seen name has a column. */
  lemma SeenNameListed(m: seq<ColumnState>, files: seq<string>, headers: string -> seq<string>,
                       g: string, pre: seq<string>, f: string, j: int)
    requires Headers(m) == DistinctHeaders(AllHeaders(files, headers) + pre)
    requires 0 <= j < |Seen(files, headers, g, pre, f)| && !IsBlank(Seen(files, headers, g, pre, f)[j])
    ensures FindHeader(m, Seen(files, headers, g, pre, f)[j]) >= 0
  {
    var all := AllHeaders(files, headers);
    var x := Seen(files, headers, g, pre, f)[j];
    var k: int;
    if f == g {
      k := |all| + j;
    } else {
      AllHeadersContains(files, headers, f, x);
      k :| 0 <= k < |all| && all[k] == x;
    }
    assert (all + pre)[k] == x;
    DistinctHeadersProperties(all + pre);
  }

  lemma {:induction false} AddFileFirstVariants(m: seq<ColumnState>, files: seq<string>,
                                                headers: string -> seq<string>, g: string, hs: seq<string>)
    requires g !in files
    requires Headers(m) == DistinctHeaders(AllHeaders(files, headers))
    requires MapsFirstVariants(m, files, headers, g, [])
    ensures MapsFirstVariants(AddFile(m, g, hs), files, headers, g, hs)
  {
    if hs != [] {
      var pre := hs[..|hs| - 1];
      AddFileFirstVariants(m, files, headers, g, pre);
      var m' := AddFile(m, g, pre);
      var all := AllHeaders(files, headers);
      HeadersAddFile(m, g, pre);
      DedupOntoAppend([], all, pre);
      assert Headers(m') == DistinctHeaders(all + pre);
      SeenNamesListed(m', files, headers, g, pre);
      assert pre + [hs[|hs| - 1]] == hs;
      AddHeaderFirstVariants(m', files, headers, g, pre, hs[|hs| - 1]);
    }
  }

  /**
   * With distinct file paths, a rebuilt column maps a file exactly when that file has a
   * non-blank header equal to the column's name ignoring case, and then it maps the first
   * such header of that file: later case variants in the same file are not mapped.
   */
  lemma {:induction false} MasterMapsFirstVariant(files: seq<string>, headers: string -> seq<string>)
    requires Distinct(files)
    ensures forall i, f :: 0 <= i < |Master(files, headers)| ==>
              MapGet(Master(files, headers)[i].mappings, f) ==
                (if f in files then FirstVariant(headers(f), Master(files, headers)[i].header) else None)
  {
    if files != [] {
      var pre := files[..|files| - 1];
      var g := files[|files| - 1];
      MasterMapsFirstVariant(pre, headers);
      var m := Master(pre, headers);
      assert g !in pre;
      FirstVariantsStart(m, pre, headers, g);
      MasterHeaders(pre, headers);
      AddFileFirstVariants(m, pre, headers, g, headers(g));
      assert pre + [g] == files;
      FirstVariantsFinish(Master(files, headers), pre, headers, g, files);
    }
  }

  /** Before any header of a new file `g` is folded in, no column maps `g`. */
  lemma FirstVariantsStart(m: seq<ColumnState>, files: seq<string>, headers: string -> seq<string>, g: string)
    requires g !in files
    requires forall i, f :: 0 <= i < |m| ==>
               MapGet(m[i].mappings, f) == (if f in files then FirstVariant(headers(f), m[i].header) else None)
    ensures MapsFirstVariants(m, files, headers, g, [])
  {
    forall i, f | 0 <= i < |m|
      ensures MapGet(m[i].mappings, f) == FirstVariant(Seen(files, headers, g, [], f), m[i].header)
    {
      if f !in files {
        assert Seen(files, headers, g, [], f) == [];
      }
    }
  }

  /** Once every header of `g` is folded in, the columns map each file of `pre + [g]` to its first variant. */
  lemma FirstVariantsFinish(r: seq<ColumnState>, pre: seq<string>, headers: string -> seq<string>, g: string,
                            files: seq<string>)
    requires files == pre + [g]
    requires MapsFirstVariants(r, pre, headers, g, headers(g))
    ensures forall i, f :: 0 <= i < |r| ==>
              MapGet(r[i].mappings, f) == (if f in files then FirstVariant(headers(f), r[i].header) else None)
  {
    forall i, f | 0 <= i < |r|
      ensures MapGet(r[i].mappings, f) == (if f in files then FirstVariant(headers(f), r[i].header) else None)
    {
      assert f in files <==> f == g || f in pre;
      assert MapGet(r[i].mappings, f) == FirstVariant(Seen(pre, headers, g, headers(g), f), r[i].header);
      if f !in files {
        assert Seen(pre, headers, g, headers(g), f) == [];
      }
    }
  }
}
