/** The spreadsheet window's state and the handlers that change it: loading a library,
    loading a template, importing a CSV, searching, editing a cell, validating and saving. */
module App {
  import opened Wrappers
  import opened Strings
  import opened Sorting
  import opened Dicts
  import opened Library
  import opened Schema
  import opened Table
  import opened Merge
  import Compare
  import Validate

  /** The rows in table order: the attached ones, in insertion order. */
  function Shown(rows: seq<seq<string>>, attached: seq<bool>): (r: seq<seq<string>>)
    requires |attached| == |rows|
    ensures |r| <= |rows|
    decreases |rows|
  {
    if |rows| == 0 then []
    else Shown(rows[..|rows| - 1], attached[..|rows| - 1]) + (if attached[|rows| - 1] then [rows[|rows| - 1]] else [])
  }

  /** A row is shown exactly when some attached position holds it. */
  lemma {:induction false} ShownMembers(rows: seq<seq<string>>, attached: seq<bool>)
    requires |attached| == |rows|
    ensures forall r :: r in Shown(rows, attached) <==> exists i :: 0 <= i < |rows| && attached[i] && rows[i] == r
    decreases |rows|
  {
    if |rows| > 0 {
      var n := |rows| - 1;
      ShownMembers(rows[..n], attached[..n]);
      assert forall i :: 0 <= i < n ==> rows[..n][i] == rows[i] && attached[..n][i] == attached[i];
    }
  }

  /** The table keeps insertion order: the rows shown from two runs of rows are those of
      the first run followed by those of the second. */
  lemma {:induction false} ShownAppend(r1: seq<seq<string>>, a1: seq<bool>, r2: seq<seq<string>>, a2: seq<bool>)
    requires |a1| == |r1| && |a2| == |r2|
    ensures Shown(r1 + r2, a1 + a2) == Shown(r1, a1) + Shown(r2, a2)
    decreases |r2|
  {
    if |r2| == 0 {
      assert r1 + r2 == r1 && a1 + a2 == a1;
    } else {
      var n := |r2| - 1;
      var r2', a2' := r2[..n], a2[..n];
      var last := if a2[n] then [r2[n]] else [];
      assert r2 == r2' + [r2[n]] && a2 == a2' + [a2[n]];
      assert r1 + r2 == (r1 + r2') + [r2[n]] && a1 + a2 == (a1 + a2') + [a2[n]];
      calc {
        Shown(r1 + r2, a1 + a2);
        { ShownSnoc(r1 + r2', a1 + a2', r2[n], a2[n]); }
        Shown(r1 + r2', a1 + a2') + last;
        { ShownAppend(r1, a1, r2', a2'); }
        Shown(r1, a1) + Shown(r2', a2') + last;
        { ShownSnoc(r2', a2', r2[n], a2[n]); }
        Shown(r1, a1) + Shown(r2, a2);
      }
    }
  }

  /** One more row is shown, at the end, exactly when it is attached. */
  lemma ShownSnoc(rows: seq<seq<string>>, attached: seq<bool>, row: seq<string>, a: bool)
    requires |attached| == |rows|
    ensures Shown(rows + [row], attached + [a]) == Shown(rows, attached) + (if a then [row] else [])
  {
    var rs, ats := rows + [row], attached + [a];
    assert rs[..|rs| - 1] == rows && ats[..|rs| - 1] == attached;
  }

  /** With every row attached the table shows them all, in order. */
  lemma {:induction false} ShownAll(rows: seq<seq<string>>, attached: seq<bool>)
    requires |attached| == |rows| && forall i :: 0 <= i < |attached| ==> attached[i]
    ensures Shown(rows, attached) == rows
    decreases |rows|
  {
    if |rows| > 0 {
      var n := |rows| - 1;
      ShownAll(rows[..n], attached[..n]);
      assert rows[..n] + [rows[n]] == rows;
    }
  }

  /** `n` in decimal. */
  function Decimal(n: nat): string
    decreases n
  {
    var d := ['0' as char + (n % 10) as char];
    if n < 10 then d else Decimal(n / 10) + d
  }

  /** The status text `validate_csv` leaves in `current_filter`. */
  function ValidatedStatus(updates: nat, adds: nat): string
  {
    "Validated (upd " + Decimal(updates) + ", add " + Decimal(adds) + ")"
  }

  /** A cell edit in a table of `width` columns: a row shorter than the table is first
      filled with empty cells up to `width`, then column `ci` takes `value`. Cells past
      `width` are kept. */
  function SetCell(row: seq<string>, width: nat, ci: nat, value: string): (r: seq<string>)
    requires ci < width
    ensures |r| == if |row| < width then width else |row|
    ensures r[ci] == value
    ensures forall j :: 0 <= j < |r| && j != ci ==> r[j] == if j < |row| then row[j] else ""
  {
    var filled := if |row| < width then row + seq(width - |row|, _ => "") else row;
    filled[ci := value]
  }

  /** Every cell of every row trimmed. */
  function TrimCells(rows: seq<seq<string>>): (r: seq<seq<string>>)
    ensures |r| == |rows|
    ensures forall i :: 0 <= i < |r| ==> |r[i]| == |rows[i]|
    ensures forall i, j :: 0 <= i < |r| && 0 <= j < |r[i]| ==> r[i][j] == Strip(rows[i][j])
  {
    seq(|rows|, i requires 0 <= i < |rows| => seq(|rows[i]|, j requires 0 <= j < |rows[i]| => Strip(rows[i][j])))
  }

  /** What the Save button ends in; writing the file is not modelled. */
  datatype SaveOutcome =
    | NoTemplate            // "Load template first."
    | RowWithoutName        // a table row with no cells: the source fails on `values[0]`
    | Saved(count: nat)     // the number of template packages merged

  class Spreadsheet {
    /** The loaded template's packages, merged in place by a save; null before one is loaded. */
    var template: array?<Package>
    /** The loaded library's packages that have a `LibPart`. */
    var parts: seq<LoadedPart>
    var props: seq<string>
    var columns: seq<string>
    /** Every row inserted since the table was last filled, in insertion order, and
        which of them are attached (visible). */
    var rows: seq<seq<string>>
    var attached: seq<bool>
    var csvData: seq<seq<string>>
    var updatedParts: set<string>
    var currentFilter: string

    ghost predicate Valid()
      reads this
    {
      |attached| == |rows|
    }

    /** The rows in the table, in order. */
    function TableRows(): seq<seq<string>>
      reads this
      requires Valid()
    {
      Shown(rows, attached)
    }

    constructor ()
      ensures Valid()
      ensures template == null && parts == [] && props == [] && columns == [] && rows == []
      ensures csvData == [] && updatedParts == {} && currentFilter == ""
    {
      template := null;
      parts := [];
      props := [];
      columns := [];
      rows := [];
      attached := [];
      csvData := [];
      updatedParts := {};
      currentFilter := "";
    }

    /** The table is refilled with one row per part, all attached, under the columns
        `PartName` and the property names. */
    method PopulateTable()
      requires Valid() && forall i :: 0 <= i < |parts| ==> Buildable(parts[i])
      modifies this`columns, this`rows, this`attached
      ensures Valid() && columns == ["PartName"] + props
      ensures |rows| == |parts| && forall i :: 0 <= i < |parts| ==> rows[i] == BuildRow(props, parts[i])
      ensures forall i :: 0 <= i < |attached| ==> attached[i]
    {
      columns := ["PartName"] + props;
      var built: seq<seq<string>> := [];
      var shown: seq<bool> := [];
      for i := 0 to |parts|
        invariant |built| == i && |shown| == i
        invariant forall j :: 0 <= j < i ==> built[j] == BuildRow(props, parts[j]) && shown[j]
      {
        built := built + [BuildRow(props, parts[i])];
        shown := shown + [true];
      }
      rows, attached := built, shown;
    }

    /** Loading a library keeps its packages that have a `LibPart`; when one lacks a
        `Package/Defn` the property scan fails and the names and table stay as they were;
        otherwise the properties are the sorted distinct attribute and user property names
        and the table shows one row per part. */
    method LoadXml(doc: seq<Package>) returns (ok: bool)
      requires Valid()
      modifies this`parts, this`props, this`columns, this`rows, this`attached
      ensures Valid() && parts == LoadParts(doc)
      ensures ok <==> forall i :: 0 <= i < |parts| ==> parts[i].defn.Some?
      ensures !ok ==> props == old(props) && columns == old(columns) && rows == old(rows) && attached == old(attached)
      ensures ok ==> StrictlySorted(props)
      ensures ok ==> forall n :: n in props <==> exists i :: 0 <= i < |parts| && HasName(parts[i], n)
      ensures ok ==> columns == ["PartName"] + props && TableRows() == rows
      ensures ok ==> |rows| == |parts| && forall i :: 0 <= i < |parts| ==> rows[i] == BuildRow(props, parts[i])
    {
      parts := LoadParts(doc);
      var names := CollectPropNames(parts);
      if names.None? {
        return false;
      }
      props := names.value;
      PopulateTable();
      ShownAll(rows, attached);
      return true;
    }

    /** A newly loaded template replaces the previous one. */
    method LoadTemplate(doc: seq<Package>)
      modifies this`template
      ensures template != null && fresh(template) && template[..] == doc
    {
      template := new Package[|doc|](i requires 0 <= i < |doc| => doc[i]);
    }

    /** The table is cleared and `data` inserted, every row attached. */
    method InsertRows(data: seq<seq<string>>)
      modifies this`rows, this`attached
      ensures Valid() && rows == data && TableRows() == data
      ensures forall i :: 0 <= i < |attached| ==> attached[i]
    {
      var inserted: seq<seq<string>> := [];
      var shown: seq<bool> := [];
      for i := 0 to |data|
        invariant inserted == data[..i] && |shown| == i
        invariant forall j :: 0 <= j < i ==> shown[j]
      {
        inserted := inserted + [data[i]];
        shown := shown + [true];
      }
      assert inserted == data;
      rows, attached := inserted, shown;
      ShownAll(rows, attached);
    }

    /** A CSV is accepted when it has a header row naming a `PartName` column anywhere;
        its data rows, every cell trimmed, become both the compared data and the table,
        and the header's tail becomes the property names. A rejected file changes nothing. */
    method ImportCsv(input: seq<seq<string>>) returns (ok: bool)
      requires Valid()
      modifies this`csvData, this`props, this`columns, this`rows, this`attached
      ensures Valid()
      ensures ok <==> |input| > 0 && "PartName" in input[0]
      ensures !ok ==> csvData == old(csvData) && props == old(props) && columns == old(columns)
                      && rows == old(rows) && attached == old(attached)
      ensures ok ==> columns == input[0] && props == Tail(input[0])
      ensures ok ==> |csvData| == |input| - 1
      ensures ok ==> forall i :: 0 <= i < |csvData| ==> |csvData[i]| == |input[i + 1]|
      ensures ok ==> forall i, j :: 0 <= i < |csvData| && 0 <= j < |csvData[i]| ==> csvData[i][j] == Strip(input[i + 1][j])
      ensures ok ==> rows == csvData && TableRows() == csvData
    {
      if |input| == 0 || "PartName" !in input[0] {
        return false;
      }
      csvData := TrimCells(input[1..]);
      props := Tail(input[0]);
      columns := input[0];
      InsertRows(csvData);
      return true;
    }

    /** Searching keeps attached exactly the rows whose joined, lowercased cells contain
        the trimmed, lowercased term, and records the term. */
    method ApplySearch(input: string)
      requires Valid()
      modifies this`attached, this`currentFilter
      ensures Valid() && currentFilter == SearchTerm(input)
      ensures forall i :: 0 <= i < |rows| ==> attached[i] == Matches(SearchTerm(input), rows[i])
      ensures forall r :: r in TableRows() <==> r in rows && Matches(SearchTerm(input), r)
    {
      var term := SearchTerm(input);
      currentFilter := term;
      var shown := attached;
      var i := 0;
      while i < |rows|
        invariant 0 <= i <= |rows| && |shown| == |rows|
        invariant forall j :: 0 <= j < i ==> shown[j] == Matches(term, rows[j])
      {
        shown := shown[i := Matches(term, rows[i])];
        i := i + 1;
      }
      attached := shown;
      ShownMembers(rows, attached);
    }

    /** Editing a cell changes that cell of the table and nothing else: writing the value
        back into the parts starts from `int(row_id)` on a row id that is a UUID, which
        raises and is swallowed, so neither the parts nor the update history change. */
    method SaveEdit(r: nat, ci: nat, value: string)
      requires Valid() && r < |rows| && ci < |columns|
      modifies this`rows
      ensures Valid()
      ensures rows == old(rows)[r := SetCell(old(rows)[r], |columns|, ci, value)]
      ensures TableRows() == Shown(rows, attached)
    {
      rows := rows[r := SetCell(rows[r], |columns|, ci, value)];
    }

    /** The Compare button's report over the imported data and the current property names. */
    function CompareToTemplate(): (c: Compare.CompareOutcome)
      reads this, template
      ensures template == null <==> c.NoTemplate?
      ensures template != null ==> c == Compare.CompareToTemplate(Some(template[..]), csvData, props)
      ensures template != null && csvData == [] ==> c.NoCsv?
      ensures template != null && csvData != [] && (forall i :: 0 <= i < |csvData| ==> |csvData[i]| > 0) ==>
                (c.ExactMatch? <==>
                  forall i :: 0 <= i < |csvData| && Compare.Considered(csvData[i], TemplateParts(template[..])) ==>
                    Compare.SameNames(Compare.RowKeys(props, csvData[i]), Keys(TemplateParts(template[..])[csvData[i][0]])))
    {
      if template == null then Compare.NoTemplate
      else
        var c := Compare.CompareToTemplate(Some(template[..]), csvData, props);
        if csvData != [] && (forall i :: 0 <= i < |csvData| ==> |csvData[i]| > 0) then
          Compare.ExactMatchIff(template[..], csvData, props);
          c
        else c
    }

    /** Validation classifies the table's part names against the template and leaves the
        counts in the status filter text. */
    method ValidateCsv() returns (v: Validate.Validation)
      requires Valid()
      modifies this`currentFilter
      ensures template == null <==> v.NoTemplate?
      ensures template == null ==> currentFilter == old(currentFilter)
      ensures v.Classified? ==> v == Validate.ValidateCsv(Some(template[..]), columns, TableRows())
      ensures v.Classified? ==>
                && |v.toUpdate| + |v.toAdd| == |TableRows()|
                && multiset(v.toUpdate) + multiset(v.toAdd) == multiset(Validate.PartNames(columns, TableRows()))
                && (forall p :: p in v.toUpdate ==> Validate.Known(p, Validate.TemplateKeys(TemplateParts(template[..]))))
                && (forall p :: p in v.toAdd ==> !Validate.Known(p, Validate.TemplateKeys(TemplateParts(template[..]))))
                && currentFilter == ValidatedStatus(|v.toUpdate|, |v.toAdd|)
    {
      if template == null {
        return Validate.NoTemplate;
      }
      v := Validate.ValidateCsv(Some(template[..]), columns, TableRows());
      Validate.ValidateCounts(template[..], columns, TableRows());
      currentFilter := ValidatedStatus(|v.toUpdate|, |v.toAdd|);
    }

    /** Saving first turns every table row into an update keyed by its trimmed, lowercased
        name, then merges every template package in place; the template is changed even
        though writing it out is left to a file dialog. */
    method SaveXml(strict: bool) returns (outcome: SaveOutcome)
      requires Valid()
      modifies template
      ensures template == null ==> outcome == NoTemplate
      ensures template != null ==>
        var upd := UpdateMapOf(TableRows(), columns, DefnKeys(parts));
        && (outcome == RowWithoutName <==> upd.None?)
        && (upd.None? ==> template[..] == old(template[..]))
        && (upd.Some? ==>
              var index := TemplateParts(old(template[..]));
              && outcome == Saved(MergedCount(old(template[..]), upd.value, index, strict))
              && forall i :: 0 <= i < template.Length ==>
                   template[i] == MergePackage(old(template[i]), upd.value, index, strict).0)
    {
      if template == null {
        return NoTemplate;
      }
      var updates := CollectUpdates(TableRows(), columns, DefnKeys(parts));
      if updates.None? {
        return RowWithoutName;
      }
      var count := MergeInPlace(template, updates.value, TemplateParts(template[..]), strict);
      return Saved(count);
    }
  }
}
