/** `save_xml`: the table's rows are split into mandatory-field edits and user-property
    edits, keyed by normalised part name, and every template package whose part has a row
    is rewritten in place. */
module Merge {
  import opened Wrappers
  import opened Strings
  import opened Dicts
  import opened Library
  import opened Schema

  /** One row's edits: the columns that are `Package/Defn` attributes somewhere among the
      loaded parts (`props_defn`) and all the other columns (`props_sup`). */
  datatype Edits = Edits(defnEdits: Dict, supEdits: Dict)

  /** `str(name).strip().lower()`: the key that joins table rows and template packages. */
  function NormKey(name: string): string
  {
    Lower(Strip(name))
  }

  /** The row's cells after the name, keyed by their column names; columns and cells past
      the shorter of the two are dropped. */
  function PropMap(cols: seq<string>, row: seq<string>): Dict
  {
    FromPairs(Zip(Tail(cols), Tail(row)))
  }

  /** `props_defn` and `props_sup` of one row. */
  function SplitRow(cols: seq<string>, row: seq<string>, defnKeys: set<string>): Edits
  {
    var pm := PropMap(cols, row);
    Edits(Select(pm, defnKeys, true), Select(pm, defnKeys, false))
  }

  lemma {:induction false} SelectSizes(d: Dict, keys: set<string>)
    ensures |Select(d, keys, true)| + |Select(d, keys, false)| == |d|
    decreases |d|
  {
    if |d| > 0 {
      SelectSizes(d[1..], keys);
    }
  }

  /** With no column name repeated, both halves of a row's split keep column order: they
      are the row's (column, cell) pairs after the name, on each side of the `Package/Defn`
      attribute names. */
  lemma SplitRowInOrder(cols: seq<string>, row: seq<string>, defnKeys: set<string>)
    requires forall i, j :: 1 <= i < j < |cols| ==> cols[i] != cols[j]
    ensures SplitRow(cols, row, defnKeys).defnEdits == Select(Zip(Tail(cols), Tail(row)), defnKeys, true)
    ensures SplitRow(cols, row, defnKeys).supEdits == Select(Zip(Tail(cols), Tail(row)), defnKeys, false)
  {
    var ps := Zip(Tail(cols), Tail(row));
    ZipSpec(Tail(cols), Tail(row));
    assert forall i :: 0 <= i < |ps| ==> ps[i].0 == cols[i + 1];
    FromDistinctPairs(ps);
  }

  /** Every column of a row goes to exactly one of `props_defn` and `props_sup`, decided
      by membership in the `Package/Defn` attribute names; a later column of the same
      name overwrites an earlier one. */
  lemma ColumnRouted(cols: seq<string>, row: seq<string>, defnKeys: set<string>, j: nat)
    requires 1 <= j < |cols| && j < |row|
    requires forall j' :: j < j' < |cols| && j' < |row| ==> cols[j'] != cols[j]
    ensures var e := SplitRow(cols, row, defnKeys);
      && ((cols[j], row[j]) in e.defnEdits <==> cols[j] in defnKeys)
      && ((cols[j], row[j]) in e.supEdits <==> cols[j] !in defnKeys)
      && |e.defnEdits| + |e.supEdits| == |PropMap(cols, row)|
  {
    var ps := Zip(Tail(cols), Tail(row));
    var pm := PropMap(cols, row);
    ZipSpec(Tail(cols), Tail(row));
    assert ps[j - 1] == (cols[j], row[j]);
    FromPairsLastWins(ps, j - 1);
    FromPairsSpec(ps);
    SelectSpec(pm, defnKeys, true);
    SelectSpec(pm, defnKeys, false);
    var i :| 0 <= i < |pm| && pm[i].0 == cols[j];
    GetFirst(pm, cols[j], i);
    assert pm[i] == (cols[j], row[j]);
    SelectSizes(pm, defnKeys);
  }

  /** Every row has a first cell, the part name. */
  predicate AllNamed(rows: seq<seq<string>>)
  {
    forall i :: 0 <= i < |rows| ==> |rows[i]| > 0
  }

  /** Step 1: `update_map`, keyed by the normalised part name of each row; a later row with
      the same key replaces an earlier one. A row without cells adds nothing here; the
      save rejects such a table first (`UpdateMapOf`). */
  function UpdateMap(rows: seq<seq<string>>, cols: seq<string>, defnKeys: set<string>): map<string, Edits>
    decreases |rows|
  {
    if |rows| == 0 then map[]
    else
      var n := |rows| - 1;
      var m := UpdateMap(rows[..n], cols, defnKeys);
      if |rows[n]| == 0 then m else m[NormKey(rows[n][0]) := SplitRow(cols, rows[n], defnKeys)]
  }

  /** Step 1 as the save runs it: `None` when a row has no cells, since the source then
      fails on `values[0]` before changing anything. */
  function UpdateMapOf(rows: seq<seq<string>>, cols: seq<string>, defnKeys: set<string>): Option<map<string, Edits>>
  {
    if AllNamed(rows) then Some(UpdateMap(rows, cols, defnKeys)) else None
  }

  /** Step 1: the table's rows are read in order into the update map; a row with no cells
      stops the save. */
  method CollectUpdates(table: seq<seq<string>>, cols: seq<string>, defnKeys: set<string>)
    returns (updates: Option<map<string, Edits>>)
    ensures updates == UpdateMapOf(table, cols, defnKeys)
  {
    var m: map<string, Edits> := map[];
    for i := 0 to |table|
      invariant forall k :: 0 <= k < i ==> |table[k]| > 0
      invariant m == UpdateMap(table[..i], cols, defnKeys)
    {
      var row := table[i];
      if |row| == 0 {
        assert !AllNamed(table);
        return None;
      }
      NextRow(table, i, cols, defnKeys);
      m := m[NormKey(row[0]) := SplitRow(cols, row, defnKeys)];
    }
    assert table[..|table|] == table;
    return Some(m);
  }

  /** The map of the first `i + 1` rows extends the map of the first `i`. */
  lemma NextRow(table: seq<seq<string>>, i: nat, cols: seq<string>, defnKeys: set<string>)
    requires i < |table| && |table[i]| > 0
    ensures UpdateMap(table[..i + 1], cols, defnKeys) ==
      UpdateMap(table[..i], cols, defnKeys)[NormKey(table[i][0]) := SplitRow(cols, table[i], defnKeys)]
  {
    assert table[..i + 1][..i] == table[..i];
  }

  /** The normalised names of the rows. */
  function RowNameKeys(rows: seq<seq<string>>): set<string>
    requires AllNamed(rows)
  {
    set i | 0 <= i < |rows| :: NormKey(rows[i][0])
  }

  /** The map's keys are exactly the rows' normalised names. */
  lemma {:induction false} UpdateMapKeys(rows: seq<seq<string>>, cols: seq<string>, defnKeys: set<string>)
    requires AllNamed(rows)
    ensures UpdateMap(rows, cols, defnKeys).Keys == RowNameKeys(rows)
    decreases |rows|
  {
    if |rows| > 0 {
      var init := rows[..|rows| - 1];
      assert forall i :: 0 <= i < |init| ==> init[i] == rows[i];
      UpdateMapKeys(init, cols, defnKeys);
      RowNameKeysSnoc(rows);
    }
  }

  /** The last row adds its own name to the names of the rows before it. */
  lemma RowNameKeysSnoc(rows: seq<seq<string>>)
    requires |rows| > 0 && AllNamed(rows)
    ensures AllNamed(rows[..|rows| - 1])
    ensures RowNameKeys(rows) == RowNameKeys(rows[..|rows| - 1]) + {NormKey(rows[|rows| - 1][0])}
  {
    var init := rows[..|rows| - 1];
    assert forall i :: 0 <= i < |init| ==> init[i] == rows[i];
  }

  /** A key maps to the edits of the last row carrying it. */
  lemma {:induction false} UpdateMapLastWins(rows: seq<seq<string>>, cols: seq<string>, defnKeys: set<string>, i: nat)
    requires AllNamed(rows) && i < |rows|
    requires forall j :: i < j < |rows| ==> NormKey(rows[j][0]) != NormKey(rows[i][0])
    ensures NormKey(rows[i][0]) in UpdateMap(rows, cols, defnKeys)
    ensures UpdateMap(rows, cols, defnKeys)[NormKey(rows[i][0])] == SplitRow(cols, rows[i], defnKeys)
    decreases |rows|
  {
    var init := rows[..|rows| - 1];
    assert forall r :: 0 <= r < |init| ==> init[r] == rows[r];
    if i < |rows| - 1 {
      UpdateMapLastWins(init, cols, defnKeys, i);
    }
  }

  /** The `Package/Defn` attributes after each mandatory-field edit is written, trimmed, in order. */
  function SetStripped(defn: Attrs, edits: Dict): Attrs
    decreases |edits|
  {
    if |edits| == 0 then defn
    else SetStripped(defn[edits[0].0 := Strip(edits[0].1)], edits[1..])
  }

  /** Edited fields take their trimmed new values; every other field is kept. */
  lemma {:induction false} SetStrippedSpec(defn: Attrs, edits: Dict)
    requires DistinctKeys(edits)
    ensures SetStripped(defn, edits).Keys == defn.Keys + set e | e in edits :: e.0
    ensures forall e :: e in edits ==> SetStripped(defn, edits)[e.0] == Strip(e.1)
    ensures forall k :: k in defn && k !in Keys(edits) ==> SetStripped(defn, edits)[k] == defn[k]
    decreases |edits|
  {
    if |edits| > 0 {
      var rest := edits[1..];
      assert Keys(edits) == [edits[0].0] + Keys(rest);
      assert forall e :: e in rest ==> e.0 != edits[0].0 by {
        forall e | e in rest ensures e.0 != edits[0].0 {
          var i :| 0 <= i < |rest| && rest[i] == e;
          assert edits[i + 1] == e;
        }
      }
      assert edits[0].0 !in Keys(rest);
      SetStrippedSpec(defn[edits[0].0 := Strip(edits[0].1)], rest);
      assert forall e :: e in edits ==> e == edits[0] || e in rest;
    }
  }

  /** Step 2c: the template's properties for the part, in template order, each with its
      edited value when `props_sup` has one and its template value otherwise; an empty
      value is dropped in strict mode. */
  function MaskProps(mask: Dict, sup: Dict, strict: bool): seq<UserProp>
    decreases |mask|
  {
    if |mask| == 0 then []
    else
      var val := GetOr(sup, mask[0].0, mask[0].1);
      (if strict && val == "" then [] else [UserProp(mask[0].0, Some(val))])
      + MaskProps(mask[1..], sup, strict)
  }

  /** The value a template property resolves to. */
  function Resolved(sup: Dict, entry: (string, string)): string
  {
    GetOr(sup, entry.0, entry.1)
  }

  /** Without strict mode the mask is emitted whole: same names, same order, each with its
      resolved value. */
  lemma {:induction false} MaskPropsKeepsOrder(mask: Dict, sup: Dict)
    ensures |MaskProps(mask, sup, false)| == |mask|
    ensures forall i :: 0 <= i < |mask| ==>
      MaskProps(mask, sup, false)[i] == UserProp(mask[i].0, Some(Resolved(sup, mask[i])))
    decreases |mask|
  {
    if |mask| > 0 {
      MaskPropsKeepsOrder(mask[1..], sup);
    }
  }

  /** Editing only B of a template part with properties A, B, C rewrites them as A, B', C. */
  lemma MaskOrderExample()
    ensures MaskProps([("A", "1"), ("B", "2"), ("C", "3")], [("B", "x")], false)
         == [UserProp("A", Some("1")), UserProp("B", Some("x")), UserProp("C", Some("3"))]
  {
    var mask, sup := [("A", "1"), ("B", "2"), ("C", "3")], [("B", "x")];
    MaskPropsKeepsOrder(mask, sup);
    assert Get(sup, "A") == None && Get(sup, "B") == Some("x") && Get(sup, "C") == None;
  }

  /** The user properties whose value is not empty, in order. */
  function NonEmpty(props: seq<UserProp>): seq<UserProp>
    decreases |props|
  {
    if |props| == 0 then []
    else (if props[0].val == Some("") then [] else [props[0]]) + NonEmpty(props[1..])
  }

  /** Strict mode emits the same list with the empty-valued properties taken out. */
  lemma {:induction false} StrictDropsEmpty(mask: Dict, sup: Dict)
    ensures MaskProps(mask, sup, true) == NonEmpty(MaskProps(mask, sup, false))
    decreases |mask|
  {
    if |mask| > 0 {
      StrictDropsEmpty(mask[1..], sup);
      var m := MaskProps(mask, sup, false);
      assert m[1..] == MaskProps(mask[1..], sup, false);
    }
  }

  /** Step 2d: the edited properties that are neither in the mask nor among the row's
      mandatory-field edits (both compared case-insensitively) and have a value, in column
      order. */
  function NewProps(sup: Dict, maskKeys: set<string>, defnKeys: set<string>): seq<UserProp>
    decreases |sup|
  {
    if |sup| == 0 then []
    else NewProp(sup[0], maskKeys, defnKeys) + NewProps(sup[1..], maskKeys, defnKeys)
  }

  /** What one edit contributes: its property when it has a value and a name, up to case,
      new to the mask and to the mandatory-field edits; nothing otherwise. */
  function NewProp(e: (string, string), maskKeys: set<string>, defnKeys: set<string>): seq<UserProp>
  {
    var (k, v) := e;
    if v == "" || Lower(k) in maskKeys || Lower(k) in defnKeys then [] else [UserProp(k, Some(v))]
  }

  /** An edit is appended exactly when it has a value and its name, up to case, is neither
      a mask name nor a mandatory-field edit. */
  lemma {:induction false} NewPropsSpec(sup: Dict, maskKeys: set<string>, defnKeys: set<string>)
    ensures forall u :: u in NewProps(sup, maskKeys, defnKeys) <==>
      exists e :: e in sup && e.1 != "" && Lower(e.0) !in maskKeys && Lower(e.0) !in defnKeys
                  && u == UserProp(e.0, Some(e.1))
    decreases |sup|
  {
    if |sup| > 0 {
      NewPropsSpec(sup[1..], maskKeys, defnKeys);
      assert forall e :: e in sup <==> e == sup[0] || e in sup[1..];
    }
  }

  /** The new properties keep column order: those of two runs of edits are the first run's
      followed by the second's, and one edit yields its property exactly when it has a
      value and its name, up to case, is neither a mask name nor a mandatory-field edit. */
  lemma {:induction false} NewPropsAppend(a: Dict, b: Dict, maskKeys: set<string>, defnKeys: set<string>)
    ensures NewProps(a + b, maskKeys, defnKeys) == NewProps(a, maskKeys, defnKeys) + NewProps(b, maskKeys, defnKeys)
    decreases |a|
  {
    if |a| == 0 {
      assert a + b == b;
    } else {
      var x, rest := a[0], a[1..];
      assert a == [x] + rest;
      assert a + b == [x] + (rest + b);
      calc {
        NewProps(a + b, maskKeys, defnKeys);
        { NewPropsCons(x, rest + b, maskKeys, defnKeys); }
        NewProp(x, maskKeys, defnKeys) + NewProps(rest + b, maskKeys, defnKeys);
        { NewPropsAppend(rest, b, maskKeys, defnKeys); }
        NewProp(x, maskKeys, defnKeys) + (NewProps(rest, maskKeys, defnKeys) + NewProps(b, maskKeys, defnKeys));
        { NewPropsCons(x, rest, maskKeys, defnKeys); }
        NewProps(a, maskKeys, defnKeys) + NewProps(b, maskKeys, defnKeys);
      }
    }
  }

  /** An edit in front contributes its own property ahead of the rest's. */
  lemma NewPropsCons(x: (string, string), s: Dict, maskKeys: set<string>, defnKeys: set<string>)
    ensures NewProps([x] + s, maskKeys, defnKeys) == NewProp(x, maskKeys, defnKeys) + NewProps(s, maskKeys, defnKeys)
  {
    assert ([x] + s)[0] == x && ([x] + s)[1..] == s;
  }

  /** One edit is appended exactly when it has a value and a name new to the mask and to the
      mandatory-field edits, up to case. */
  lemma NewPropsOne(k: string, v: string, maskKeys: set<string>, defnKeys: set<string>)
    ensures NewProps([(k, v)], maskKeys, defnKeys) ==
      if v != "" && Lower(k) !in maskKeys && Lower(k) !in defnKeys then [UserProp(k, Some(v))] else []
  {
    assert [(k, v)][1..] == [];
  }

  /** The name under which a template package can be merged: it has a `LibPart`, a
      `Package/Defn` and a `LibPart/Defn`, and a non-empty `CellName`. */
  function MergeName(p: Package): Option<string>
  {
    if p.defn.Some? && p.libPart.Some? && p.libPart.value.defn.Some? then IndexName(p) else None
  }

  /** One iteration of step 2: the package after the merge, and whether it was counted. */
  function MergePackage(p: Package, updates: map<string, Edits>, index: map<string, Dict>, strict: bool): (Package, bool)
  {
    match MergeName(p)
    case None => (p, false)
    case Some(pname) =>
      if NormKey(pname) !in updates then (p, false)
      else
        var e := updates[NormKey(pname)];
        var mask := if pname in index then index[pname] else [];
        var props := MaskProps(mask, e.supEdits, strict)
                     + NewProps(e.supEdits, LowerSet(Keys(mask)), LowerSet(Keys(e.defnEdits)));
        var cellName := GetOr(e.defnEdits, "CellName", pname);
        (Package(Some(SetStripped(p.defn.value, e.defnEdits)),
                 Some(LibPart(Some(map["CellName" := cellName]), Some(props)))), true)
  }

  /** A package is left exactly as it was, and not counted, when it lacks a `LibPart`, a
      `Package/Defn` or a `LibPart/Defn`, has an empty `CellName`, or its normalised name
      has no row; otherwise it is counted. */
  lemma MergeSkips(p: Package, updates: map<string, Edits>, index: map<string, Dict>, strict: bool)
    ensures var (q, merged) := MergePackage(p, updates, index, strict);
      && (merged <==> p.libPart.Some? && p.defn.Some? && p.libPart.value.defn.Some?
                      && "CellName" in p.libPart.value.defn.value
                      && p.libPart.value.defn.value["CellName"] != ""
                      && NormKey(p.libPart.value.defn.value["CellName"]) in updates)
      && (!merged ==> q == p)
  {
  }

  /** A merged package: its `Package/Defn` takes the trimmed mandatory-field edits and
      keeps its other attributes; its `LibPart/Defn` keeps only `CellName`, replaced when
      the row edits it; its user properties are the mask's followed by the new ones. */
  lemma MergedPackage(p: Package, updates: map<string, Edits>, index: map<string, Dict>, strict: bool)
    requires MergePackage(p, updates, index, strict).1
    requires DistinctKeys(updates[NormKey(MergeName(p).value)].defnEdits)
    ensures var q := MergePackage(p, updates, index, strict).0;
      var pname := MergeName(p).value;
      var e := updates[NormKey(pname)];
      var mask := if pname in index then index[pname] else [];
      && q.defn.Some? && q.libPart.Some?
      && q.defn.value.Keys == p.defn.value.Keys + (set x | x in e.defnEdits :: x.0)
      && (forall x :: x in e.defnEdits ==> q.defn.value[x.0] == Strip(x.1))
      && (forall k :: k in p.defn.value && k !in Keys(e.defnEdits) ==> q.defn.value[k] == p.defn.value[k])
      && q.libPart.value.defn == Some(map["CellName" := GetOr(e.defnEdits, "CellName", pname)])
      && UserProps(q.libPart.value) == MaskProps(mask, e.supEdits, strict)
           + NewProps(e.supEdits, LowerSet(Keys(mask)), LowerSet(Keys(e.defnEdits)))
  {
    var pname := MergeName(p).value;
    SetStrippedSpec(p.defn.value, updates[NormKey(pname)].defnEdits);
  }

  /** A row's edits name each field once, in both halves. */
  lemma SplitRowDistinct(cols: seq<string>, row: seq<string>, defnKeys: set<string>)
    ensures DistinctKeys(SplitRow(cols, row, defnKeys).defnEdits)
    ensures DistinctKeys(SplitRow(cols, row, defnKeys).supEdits)
  {
    var pm := PropMap(cols, row);
    FromPairsSpec(Zip(Tail(cols), Tail(row)));
    SelectSpec(pm, defnKeys, true);
    SelectSpec(pm, defnKeys, false);
  }

  /** Every entry of the update map names each field once, so `MergedPackage` applies to
      every package a save merges. */
  lemma {:induction false} UpdateMapDistinct(rows: seq<seq<string>>, cols: seq<string>, defnKeys: set<string>)
    ensures forall k :: k in UpdateMap(rows, cols, defnKeys) ==>
      DistinctKeys(UpdateMap(rows, cols, defnKeys)[k].defnEdits) && DistinctKeys(UpdateMap(rows, cols, defnKeys)[k].supEdits)
    decreases |rows|
  {
    if |rows| > 0 {
      var n := |rows| - 1;
      UpdateMapDistinct(rows[..n], cols, defnKeys);
      if |rows[n]| > 0 {
        SplitRowDistinct(cols, rows[n], defnKeys);
      }
    }
  }

  /** How many packages of `doc` a merge counts. */
  function MergedCount(doc: seq<Package>, updates: map<string, Edits>, index: map<string, Dict>, strict: bool): nat
    decreases |doc|
  {
    if |doc| == 0 then 0
    else MergedCount(doc[..|doc| - 1], updates, index, strict)
         + (if MergePackage(doc[|doc| - 1], updates, index, strict).1 then 1 else 0)
  }

  /** Step 2: every template package is replaced, in place, by its merged form, and the
      merged ones are counted. */
  method MergeInPlace(pkgs: array<Package>, updates: map<string, Edits>, index: map<string, Dict>, strict: bool)
    returns (count: nat)
    modifies pkgs
    ensures forall i :: 0 <= i < pkgs.Length ==> pkgs[i] == MergePackage(old(pkgs[i]), updates, index, strict).0
    ensures count == MergedCount(old(pkgs[..]), updates, index, strict)
  {
    var merge := p => MergePackage(p, updates, index, strict);
    ghost var orig := pkgs[..];
    count := ReplaceEach(pkgs, merge);
    CountWhereMerged(orig, merge, updates, index, strict);
  }

  /** How many packages of `doc` the per-package step `f` counts. */
  function CountWhere(doc: seq<Package>, f: Package -> (Package, bool)): nat
    decreases |doc|
  {
    if |doc| == 0 then 0
    else CountWhere(doc[..|doc| - 1], f) + (if f(doc[|doc| - 1]).1 then 1 else 0)
  }

  /** The loop of step 2 for a per-package step `f`: each element is replaced by what `f`
      makes of it, and the elements `f` flags are counted. */
  method ReplaceEach(pkgs: array<Package>, f: Package -> (Package, bool)) returns (count: nat)
    modifies pkgs
    ensures forall i :: 0 <= i < pkgs.Length ==> pkgs[i] == f(old(pkgs[i])).0
    ensures count == CountWhere(old(pkgs[..]), f)
  {
    ghost var orig := pkgs[..];
    count := 0;
    for i := 0 to pkgs.Length
      invariant forall j :: 0 <= j < i ==> pkgs[j] == f(orig[j]).0
      invariant forall j :: i <= j < pkgs.Length ==> pkgs[j] == orig[j]
      invariant count == CountWhere(orig[..i], f)
    {
      assert orig[..i + 1][..i] == orig[..i];
      var r := f(pkgs[i]);
      pkgs[i] := r.0;
      if r.1 {
        count := count + 1;
      }
    }
    assert orig[..pkgs.Length] == orig;
  }

  /** Counting with the merge step is the merged count. */
  lemma {:induction false} CountWhereMerged(doc: seq<Package>, f: Package -> (Package, bool),
                                            updates: map<string, Edits>, index: map<string, Dict>, strict: bool)
    requires forall p :: f(p) == MergePackage(p, updates, index, strict)
    ensures CountWhere(doc, f) == MergedCount(doc, updates, index, strict)
    decreases |doc|
  {
    if |doc| > 0 {
      CountWhereMerged(doc[..|doc| - 1], f, updates, index, strict);
    }
  }

  /** A template package with a `LibPart`, both `Defn`s and a non-empty `CellName` is
      merged exactly when some attached row's name equals its `CellName` once both are
      trimmed and lowercased: "U1A" in the table updates a template part "u1a ". */
  lemma MergedIffRowMatches(p: Package, rows: seq<seq<string>>, cols: seq<string>, defnKeys: set<string>,
                            index: map<string, Dict>, strict: bool)
    requires AllNamed(rows)
    requires MergeName(p).Some?
    ensures MergePackage(p, UpdateMap(rows, cols, defnKeys), index, strict).1 <==>
      NormKey(MergeName(p).value) in RowNameKeys(rows)
  {
    UpdateMapKeys(rows, cols, defnKeys);
  }
}
