/** Reading a schema out of XML: the column list of a loaded library (`_extract_props`) and
    the per-part property lists of a template (`_extract_template_parts`). */
module Schema {
  import opened Wrappers
  import opened Sorting
  import opened Dicts
  import opened Library

  /** `n` names a `Package/Defn` attribute or a user property of `p`. */
  ghost predicate HasName(p: LoadedPart, n: string)
  {
    var ups := UserProps(p.libPart.value);
    Attr(p.defn, n).Some? || exists m :: 0 <= m < |ups| && ups[m].name == n
  }

  /** `_extract_props`: every attribute name and user-property name of the loaded parts,
      sorted and without duplicates. The source fails with an exception at the first part
      that has no `Package/Defn`; that outcome is `None`. */
  method CollectPropNames(parts: seq<LoadedPart>) returns (r: Option<seq<string>>)
    ensures r.None? <==> exists i :: 0 <= i < |parts| && parts[i].defn.None?
    ensures r.Some? ==> StrictlySorted(r.value)
    ensures r.Some? ==> forall n :: n in r.value <==> exists i :: 0 <= i < |parts| && HasName(parts[i], n)
  {
    var names: seq<string> := [];
    for i := 0 to |parts|
      invariant forall k :: 0 <= k < i ==> parts[k].defn.Some?
      invariant StrictlySorted(names)
      invariant forall n :: n in names <==> exists k :: 0 <= k < i && HasName(parts[k], n)
    {
      if parts[i].defn.None? {
        return None;
      }
      names := AddPartNames(names, parts[i]);
    }
    return Some(names);
  }

  /** One part's contribution to `_extract_props`: its `Package/Defn` attribute names, then
      its user property names, added to the sorted name list. */
  method AddPartNames(names: seq<string>, p: LoadedPart) returns (r: seq<string>)
    requires StrictlySorted(names) && p.defn.Some?
    ensures StrictlySorted(r)
    ensures forall n :: n in r <==> n in names || HasName(p, n)
  {
    r := names;
    var attrs := p.defn.value.Keys;
    while attrs != {}
      invariant attrs <= p.defn.value.Keys
      invariant StrictlySorted(r)
      invariant forall n :: n in r <==> n in names || (n in p.defn.value && n !in attrs)
      decreases attrs
    {
      var a :| a in attrs;
      r := Insert(r, a);
      attrs := attrs - {a};
    }
    var ups := UserProps(p.libPart.value);
    for j := 0 to |ups|
      invariant StrictlySorted(r)
      invariant forall n :: n in r <==> n in names || n in p.defn.value || exists m :: 0 <= m < j && ups[m].name == n
    {
      r := Insert(r, ups[j].name);
    }
  }

  /** The name under which a template package is indexed: its `CellName`, when present and
      non-empty. */
  function IndexName(p: Package): Option<string>
  {
    match CellName(p)
    case Some(n) => if n != "" then Some(n) else None
    case None => None
  }

  /** `_extract_template_parts`: each indexed package's name mapped to its user properties
      in document order (a missing `val` read as ''). */
  function TemplateParts(doc: seq<Package>): map<string, Dict>
    decreases |doc|
  {
    if |doc| == 0 then map[]
    else
      var p := doc[|doc| - 1];
      var r := TemplateParts(doc[..|doc| - 1]);
      match IndexName(p)
      case None => r
      case Some(n) => r[n := UserDict(p.libPart.value)]
  }

  /** The index holds exactly the names of the packages that have a non-empty `CellName`;
      packages without a `LibPart`, without its `Defn` or with an empty name are skipped. */
  lemma {:induction false} TemplatePartsKeys(doc: seq<Package>)
    ensures forall n :: n in TemplateParts(doc) <==> exists i :: 0 <= i < |doc| && IndexName(doc[i]) == Some(n)
    decreases |doc|
  {
    if |doc| > 0 {
      var init := doc[..|doc| - 1];
      TemplatePartsKeys(init);
      assert forall i :: 0 <= i < |init| ==> init[i] == doc[i];
    }
  }

  /** A name maps to the user properties of the last package carrying it: a later package
      with the same `CellName` replaces an earlier one. */
  lemma {:induction false} TemplatePartsLastWins(doc: seq<Package>, i: nat)
    requires i < |doc| && IndexName(doc[i]).Some?
    requires forall j :: i < j < |doc| ==> IndexName(doc[j]) != IndexName(doc[i])
    ensures IndexName(doc[i]).value in TemplateParts(doc)
    ensures TemplateParts(doc)[IndexName(doc[i]).value] == UserDict(doc[i].libPart.value)
    decreases |doc|
  {
    if i < |doc| - 1 {
      var init := doc[..|doc| - 1];
      assert forall j :: 0 <= j < |init| ==> init[j] == doc[j];
      TemplatePartsLastWins(init, i);
    }
  }

  /** The mask a save uses for a part keeps the template's document order: when the last
      package with that name repeats no user property name, its entry is its user
      properties, in order, with their values. */
  lemma TemplateMaskInOrder(doc: seq<Package>, i: nat)
    requires i < |doc| && IndexName(doc[i]).Some?
    requires forall j :: i < j < |doc| ==> IndexName(doc[j]) != IndexName(doc[i])
    requires var ups := UserProps(doc[i].libPart.value);
      forall a, b :: 0 <= a < b < |ups| ==> ups[a].name != ups[b].name
    ensures IndexName(doc[i]).value in TemplateParts(doc)
    ensures TemplateParts(doc)[IndexName(doc[i]).value] == UserPairs(doc[i].libPart.value)
  {
    TemplatePartsLastWins(doc, i);
    UserDictInOrder(doc[i].libPart.value);
  }
}
