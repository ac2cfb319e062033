/** The part of an OrCAD symbol-library XML document the engine reads and writes:

      Package*
        Defn              attributes = the package's mandatory fields
        LibPart
          Defn            attribute CellName = the part's name
          NormalView
            SymbolUserProp*
              Defn        attributes name, val

    Elements are values here; attributes are maps (their order on the element is not kept). */
module Library {
  import opened Wrappers
  import opened Dicts

  type Attrs = map<string, string>

  /** One `SymbolUserProp/Defn` element; `val` may be missing from the XML. */
  datatype UserProp = UserProp(name: string, val: Option<string>)

  /** `LibPart`, with its optional `Defn` and the user properties under its optional `NormalView`. */
  datatype LibPart = LibPart(defn: Option<Attrs>, normalView: Option<seq<UserProp>>)

  /** `Package`, with its optional `Defn` and its optional `LibPart`. */
  datatype Package = Package(defn: Option<Attrs>, libPart: Option<LibPart>)

  /** A package kept by XML loading, which drops every package that has no `LibPart`. */
  type LoadedPart = p: Package | p.libPart.Some? witness Package(None, Some(LibPart(None, None)))

  /** `element.get(key)` on an element that may be missing. */
  function Attr(defn: Option<Attrs>, key: string): Option<string>
  {
    if defn.Some? && key in defn.value then Some(defn.value[key]) else None
  }

  /** The `SymbolUserProp/Defn` elements of a `LibPart`, in document order. */
  function UserProps(lib: LibPart): seq<UserProp>
  {
    if lib.normalView.Some? then lib.normalView.value else []
  }

  /** `sup.get('val', '')` */
  function ValOrEmpty(u: UserProp): string
  {
    if u.val.Some? then u.val.value else ""
  }

  /** `(name, val)` of each user property, in document order. */
  function UserPairs(lib: LibPart): (r: seq<(string, string)>)
    ensures |r| == |UserProps(lib)|
    ensures forall i :: 0 <= i < |r| ==> r[i] == (UserProps(lib)[i].name, ValOrEmpty(UserProps(lib)[i]))
  {
    var ups := UserProps(lib);
    seq(|ups|, i requires 0 <= i < |ups| => (ups[i].name, ValOrEmpty(ups[i])))
  }

  /** The user properties as a dict from name to value; a repeated name keeps its first
      position and its last value. */
  function UserDict(lib: LibPart): Dict
  {
    FromPairs(UserPairs(lib))
  }

  /** With no user property name repeated, the dict holds the user properties in document
      order, each with its value (a missing `val` read as ''). */
  lemma UserDictInOrder(lib: LibPart)
    requires forall i, j :: 0 <= i < j < |UserProps(lib)| ==> UserProps(lib)[i].name != UserProps(lib)[j].name
    ensures UserDict(lib) == UserPairs(lib)
  {
    FromDistinctPairs(UserPairs(lib));
  }

  /** `LibPart/Defn@CellName`, absent when the `LibPart`, its `Defn` or the attribute is. */
  function CellName(p: Package): Option<string>
  {
    if p.libPart.Some? then Attr(p.libPart.value.defn, "CellName") else None
  }

  /** The packages XML loading keeps, in document order. */
  function LoadParts(doc: seq<Package>): seq<LoadedPart>
    decreases |doc|
  {
    if |doc| == 0 then []
    else
      var init := LoadParts(doc[..|doc| - 1]);
      var p := doc[|doc| - 1];
      if p.libPart.Some? then init + [p] else init
  }

  /** The loaded parts are exactly the document's packages that have a `LibPart`, and
      there are no more of them than packages. */
  lemma {:induction false} LoadPartsMembers(doc: seq<Package>)
    ensures forall p :: p in LoadParts(doc) <==> p in doc && p.libPart.Some?
    ensures |LoadParts(doc)| <= |doc|
    decreases |doc|
  {
    if |doc| > 0 {
      LoadPartsMembers(doc[..|doc| - 1]);
      assert doc == doc[..|doc| - 1] + [doc[|doc| - 1]];
    }
  }

  /** Loading keeps the document's order and its repeats: the parts of two halves are the
      parts of the first followed by those of the second. */
  lemma {:induction false} LoadPartsAppend(a: seq<Package>, b: seq<Package>)
    ensures LoadParts(a + b) == LoadParts(a) + LoadParts(b)
    decreases |b|
  {
    if |b| == 0 {
      assert a + b == a;
    } else {
      var n := |b| - 1;
      var ab := a + b;
      LoadPartsAppend(a, b[..n]);
      assert ab[..|ab| - 1] == a + b[..n] && ab[|ab| - 1] == b[n];
      assert LoadParts(ab) == LoadParts(a + b[..n]) + (if b[n].libPart.Some? then [b[n]] else []);
    }
  }

  /** One package is kept, once, exactly when it has a `LibPart`. */
  lemma LoadPartsOne(p: Package)
    ensures LoadParts([p]) == if p.libPart.Some? then [p] else []
  {
    assert [p][..0] == [];
  }

  /** The names of every `Package/Defn` attribute among the loaded parts: the columns a
      save writes back as mandatory fields rather than as user properties. */
  function DefnKeys(parts: seq<LoadedPart>): (r: set<string>)
    ensures forall k :: k in r <==> exists i :: 0 <= i < |parts| && Attr(parts[i].defn, k).Some?
    decreases |parts|
  {
    if |parts| == 0 then {}
    else
      var init := parts[..|parts| - 1];
      var p := parts[|parts| - 1];
      assert forall i :: 0 <= i < |init| ==> init[i] == parts[i];
      DefnKeys(init) + (if p.defn.Some? then p.defn.value.Keys else {})
  }
}
