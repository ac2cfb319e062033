/** `compare_to_template`: for every imported row whose part name is a template part, the
    property names the table adds to and removes from the template's list for that part,
    compared case-insensitively. */
module Compare {
  import opened Wrappers
  import opened Strings
  import opened Sorting
  import opened Dicts
  import opened Library
  import opened Schema

  /** The stripped, non-empty names among `cols`, in column order. */
  function StrippedNames(cols: seq<string>): (r: seq<string>)
    ensures forall k :: k in r <==> k != "" && exists j :: 0 <= j < |cols| && Strip(cols[j]) == k
    decreases |cols|
  {
    if |cols| == 0 then []
    else
      var init := cols[..|cols| - 1];
      var k := Strip(cols[|cols| - 1]);
      assert forall j :: 0 <= j < |init| ==> init[j] == cols[j];
      StrippedNames(init) + (if k != "" then [k] else [])
  }

  /** The row's property names: the trimmed, non-empty column names paired with a cell of
      the row after its name cell; columns past the row's end take no part. */
  function RowKeys(props: seq<string>, row: seq<string>): seq<string>
  {
    var n := if |props| <= |row| - 1 then |props| else if |row| == 0 then 0 else |row| - 1;
    StrippedNames(props[..n])
  }

  /** The names whose lowercase form is not in `others`, in their original order. */
  function Unmatched(names: seq<string>, others: set<string>): (r: seq<string>)
    ensures forall k :: k in r <==> k in names && Lower(k) !in others
    decreases |names|
  {
    if |names| == 0 then []
    else
      var init := names[..|names| - 1];
      var k := names[|names| - 1];
      assert names == init + [k];
      Unmatched(init, others) + (if Lower(k) !in others then [k] else [])
  }

  /** One line pair of the report: a part and its added and removed property names. */
  datatype Diff = Diff(part: string, added: seq<string>, removed: seq<string>)

  /** The comparison of one row against the template's properties for its part: the
      row's names that the template lacks up to case (`added`) and the template's names
      the row lacks up to case (`removed`), each sorted with duplicates dropped. */
  function RowDiff(props: seq<string>, row: seq<string>, tmpl: Dict): Diff
    requires |row| > 0
  {
    var csvKeys := RowKeys(props, row);
    var tmplKeys := Keys(tmpl);
    Diff(row[0], SortDistinct(Unmatched(csvKeys, LowerSet(tmplKeys))),
                 SortDistinct(Unmatched(tmplKeys, LowerSet(csvKeys))))
  }

  /** `added` lists, sorted and once each, the row's column names unknown to the template;
      `removed` lists the template names the row lacks, both compared case-insensitively. */
  lemma RowDiffContents(props: seq<string>, row: seq<string>, tmpl: Dict)
    requires |row| > 0
    ensures var d := RowDiff(props, row, tmpl);
      && StrictlySorted(d.added) && StrictlySorted(d.removed)
      && (forall k :: k in d.added <==> k in RowKeys(props, row) && Lower(k) !in LowerSet(Keys(tmpl)))
      && (forall k :: k in d.removed <==> k in Keys(tmpl) && Lower(k) !in LowerSet(RowKeys(props, row)))
  {
  }

  /** Nothing is unmatched exactly when every name's lowercase form is among `others`. */
  lemma NoneUnmatchedIff(names: seq<string>, others: set<string>)
    ensures SortDistinct(Unmatched(names, others)) == [] <==> forall k :: k in names ==> Lower(k) in others
  {
    HeadIsMember(SortDistinct(Unmatched(names, others)));
  }

  /** Two name lists agree up to case. */
  predicate SameNames(a: seq<string>, b: seq<string>)
  {
    LowerSet(a) == LowerSet(b)
  }

  /** A row differs from the template when it adds or removes a name. */
  predicate Differs(d: Diff)
  {
    d.added != [] || d.removed != []
  }

  /** A row shows no difference exactly when its lowercased column names and the
      template's lowercased property names are the same set. */
  lemma NoDiffIffSameNames(props: seq<string>, row: seq<string>, tmpl: Dict)
    requires |row| > 0
    ensures !Differs(RowDiff(props, row, tmpl)) <==> SameNames(RowKeys(props, row), Keys(tmpl))
  {
    var a, b := RowKeys(props, row), Keys(tmpl);
    NoneUnmatchedIff(a, LowerSet(b));
    NoneUnmatchedIff(b, LowerSet(a));
    if LowerSet(a) == LowerSet(b) {
      assert forall k :: k in a ==> Lower(k) in LowerSet(a);
      assert forall k :: k in b ==> Lower(k) in LowerSet(b);
    }
  }

  /** The report over all rows, in row order. `None` when a row has no cells at all: the
      source then fails reading `row[0]` and shows nothing. */
  function CompareRows(props: seq<string>, rows: seq<seq<string>>, index: map<string, Dict>): Option<seq<Diff>>
    decreases |rows|
  {
    if |rows| == 0 then Some([])
    else if |rows[0]| == 0 then None
    else
      var rest := CompareRows(props, rows[1..], index);
      var name := rows[0][0];
      if rest.None? || name == "" || name !in index then rest
      else
        var d := RowDiff(props, rows[0], index[name]);
        if Differs(d) then Some([d] + rest.value) else rest
  }

  /** Only a row whose name is, exactly and case-sensitively, a template part is compared. */
  predicate Considered(row: seq<string>, index: map<string, Dict>)
  {
    |row| > 0 && row[0] != "" && row[0] in index
  }

  /** Every row has cells, and every compared row names the same properties as the
      template, up to case. */
  predicate AllAgree(props: seq<string>, rows: seq<seq<string>>, index: map<string, Dict>)
    decreases |rows|
  {
    |rows| == 0
    || (&& |rows[0]| > 0
        && (Considered(rows[0], index) ==> SameNames(RowKeys(props, rows[0]), Keys(index[rows[0][0]])))
        && AllAgree(props, rows[1..], index))
  }

  /** The report is empty exactly when all rows agree with the template. */
  lemma {:induction false} CompareRowsEmptyIff(props: seq<string>, rows: seq<seq<string>>, index: map<string, Dict>)
    ensures CompareRows(props, rows, index) == Some([]) <==> AllAgree(props, rows, index)
    decreases |rows|
  {
    if |rows| > 0 {
      CompareRowsEmptyIff(props, rows[1..], index);
      if Considered(rows[0], index) {
        NoDiffIffSameNames(props, rows[0], index[rows[0][0]]);
      }
    }
  }

  /** `AllAgree` spelled out row by row. */
  lemma {:induction false} AllAgreeIff(props: seq<string>, rows: seq<seq<string>>, index: map<string, Dict>)
    ensures AllAgree(props, rows, index) <==>
      && (forall i :: 0 <= i < |rows| ==> |rows[i]| > 0)
      && (forall i :: 0 <= i < |rows| && Considered(rows[i], index) ==>
            SameNames(RowKeys(props, rows[i]), Keys(index[rows[i][0]])))
    decreases |rows|
  {
    if |rows| > 0 {
      AllAgreeIff(props, rows[1..], index);
      assert forall i :: 1 <= i < |rows| ==> rows[1..][i - 1] == rows[i];
    }
  }

  /** What the Compare button reports. */
  datatype CompareOutcome =
    | NoTemplate           // "Load template first."
    | NoCsv                // "Import CSV first."
    | RowWithoutName       // an imported row with no cells: the source fails on `row[0]`
    | ExactMatch           // "CSV and template match exactly."
    | Differences(diffs: seq<Diff>)

  /** `compare_to_template` over the imported rows (`csv_data`) and the current columns. */
  function CompareToTemplate(template: Option<seq<Package>>, csvData: seq<seq<string>>, props: seq<string>): CompareOutcome
  {
    if template.None? then NoTemplate
    else if |csvData| == 0 then NoCsv
    else
      match CompareRows(props, csvData, TemplateParts(template.value))
      case None => RowWithoutName
      case Some(ds) => if ds == [] then ExactMatch else Differences(ds)
  }

  /** The "match exactly" message appears exactly when every compared row has the
      template's property names for its part, up to case; rows naming no template part
      never count against it. */
  lemma ExactMatchIff(doc: seq<Package>, csvData: seq<seq<string>>, props: seq<string>)
    requires csvData != [] && forall i :: 0 <= i < |csvData| ==> |csvData[i]| > 0
    ensures var index := TemplateParts(doc);
      CompareToTemplate(Some(doc), csvData, props) == ExactMatch <==>
        forall i :: 0 <= i < |csvData| && Considered(csvData[i], index) ==>
          SameNames(RowKeys(props, csvData[i]), Keys(index[csvData[i][0]]))
  {
    CompareRowsEmptyIff(props, csvData, TemplateParts(doc));
    AllAgreeIff(props, csvData, TemplateParts(doc));
  }
}
