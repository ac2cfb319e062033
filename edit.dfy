/** The property routing of `_save_edit`: where one edited cell of a loaded part is written. */
module Edit {
  import opened Wrappers
  import opened Dicts
  import opened Library
  import opened Table

  /** The position of the first user property with the given name; the list's length when
      none has it. */
  function FirstNamed(ups: seq<UserProp>, name: string): (i: nat)
    ensures i <= |ups|
    ensures i < |ups| ==> ups[i].name == name
    ensures forall m :: 0 <= m < i ==> ups[m].name != name
    decreases |ups|
  {
    if |ups| == 0 then 0
    else if ups[0].name == name then 0
    else 1 + FirstNamed(ups[1..], name)
  }

  /** An edit goes to the `Package/Defn` attribute of that name when there is one; else to
      the first user property of that name; else a new user property is appended under
      `NormalView`, which is created when missing. */
  function RouteEdit(p: LoadedPart, col: string, value: string): LoadedPart
  {
    if Attr(p.defn, col).Some? then p.(defn := Some(p.defn.value[col := value]))
    else
      var lib := p.libPart.value;
      var ups := UserProps(lib);
      var i := FirstNamed(ups, col);
      var ups' := if i < |ups| then ups[i := ups[i].(val := Some(value))] else ups + [UserProp(col, Some(value))];
      p.(libPart := Some(lib.(normalView := Some(ups'))))
  }

  /** Exactly one place takes the new value and nothing else changes. */
  lemma RouteEditSpec(p: LoadedPart, col: string, value: string)
    ensures var q := RouteEdit(p, col, value);
      var ups := UserProps(p.libPart.value);
      var ups' := UserProps(q.libPart.value);
      && (Attr(p.defn, col).Some? ==>
            q.libPart == p.libPart && q.defn == Some(p.defn.value[col := value]))
      && (Attr(p.defn, col).None? ==>
            && q.defn == p.defn && q.libPart.value.defn == p.libPart.value.defn
            && ((exists m :: 0 <= m < |ups| && ups[m].name == col) ==>
                  exists m :: 0 <= m < |ups| && ups[m].name == col
                    && (forall m' :: 0 <= m' < m ==> ups[m'].name != col)
                    && ups' == ups[m := UserProp(col, Some(value))])
            && ((forall m :: 0 <= m < |ups| ==> ups[m].name != col) ==>
                  ups' == ups + [UserProp(col, Some(value))]))
  {
    var ups := UserProps(p.libPart.value);
    var i := FirstNamed(ups, col);
    if Attr(p.defn, col).None? && exists m :: 0 <= m < |ups| && ups[m].name == col {
      assert i < |ups|;
    }
  }

  /** When the column is not both an attribute and a user property, and names at most one
      user property, the row rebuilt from the edited part shows the new value. */
  lemma EditShownInRow(props: seq<string>, p: LoadedPart, j: nat, value: string)
    requires Buildable(p) && j < |props|
    requires var ups := UserProps(p.libPart.value);
      Attr(p.defn, props[j]).Some? ==> forall m :: 0 <= m < |ups| ==> ups[m].name != props[j]
    requires var ups := UserProps(p.libPart.value);
      forall m, m' :: 0 <= m < m' < |ups| && ups[m].name == props[j] ==> ups[m'].name != props[j]
    ensures Buildable(RouteEdit(p, props[j], value))
    ensures BuildRow(props, RouteEdit(p, props[j], value))[j + 1] == value
  {
    var col := props[j];
    var q := RouteEdit(p, col, value);
    var ups := UserProps(p.libPart.value);
    var ups' := UserProps(q.libPart.value);
    RouteEditSpec(p, col, value);
    if Attr(p.defn, col).None? {
      var i := FirstNamed(ups, col);
      if i < |ups| {
        assert ups'[i].name == col && ValOrEmpty(ups'[i]) == value;
        assert forall m' :: i < m' < |ups'| ==> ups'[m'].name != col;
        RowCellUser(props, q, j, i);
      } else {
        assert ups'[|ups|].name == col && ValOrEmpty(ups'[|ups|]) == value;
        RowCellUser(props, q, j, |ups|);
      }
    } else {
      RowCellAttr(props, q, j);
    }
  }

  /** One case `EditShownInRow` excludes: an edit of a column that is both a `Package/Defn`
      attribute and a user property goes to the attribute, while the row keeps showing the
      user property. */
  lemma EditToAttrHidden()
    ensures var p := Package(Some(map["X" := "a"]), Some(LibPart(None, Some([UserProp("X", Some("b"))]))));
      BuildRow(["X"], RouteEdit(p, "X", "v"))[1] == "b"
  {
    var p := Package(Some(map["X" := "a"]), Some(LibPart(None, Some([UserProp("X", Some("b"))]))));
    RowCellUser(["X"], RouteEdit(p, "X", "v"), 0, 0);
  }

  /** The other case: an edit of a name carried by two user properties goes to the first,
      while the row shows the last. */
  lemma EditToFirstHidden()
    ensures var p := Package(None, Some(LibPart(Some(map["CellName" := "U1"]),
                                                Some([UserProp("X", Some("b")), UserProp("X", Some("c"))]))));
      BuildRow(["X"], RouteEdit(p, "X", "v"))[1] == "c"
  {
    var p := Package(None, Some(LibPart(Some(map["CellName" := "U1"]),
                                        Some([UserProp("X", Some("b")), UserProp("X", Some("c"))]))));
    var q := RouteEdit(p, "X", "v");
    assert UserProps(q.libPart.value) == [UserProp("X", Some("v")), UserProp("X", Some("c"))];
    RowCellUser(["X"], q, 0, 1);
  }
}
