/** The spreadsheet's rows: how `populate_table` turns a loaded part into a row, and the
    match test `apply_search` uses to decide which rows stay attached. */
module Table {
  import opened Wrappers
  import opened Strings
  import opened Dicts
  import opened Library

  /** A row can be built for `p` unless it has neither a `LibPart/Defn` nor a `Package/Defn`
      (the source then fails reading the fallback name). */
  predicate Buildable(p: LoadedPart)
  {
    p.libPart.value.defn.Some? || p.defn.Some?
  }

  /** The text Tk shows for a missing value: the name cell is Python's `None`, which the
      table stores as the string "None". */
  const MissingName := "None"

  /** Cell 0: `LibPart/Defn@CellName` when that `Defn` exists, else `Package/Defn@name`;
      a missing attribute shows as "None". */
  function RowName(p: LoadedPart): string
    requires Buildable(p)
  {
    var lib := p.libPart.value;
    var n := if lib.defn.Some? then Attr(lib.defn, "CellName") else Attr(p.defn, "name");
    if n.Some? then n.value else MissingName
  }

  /** A property cell: the user property of that name, else the `Package/Defn` attribute,
      else ''. */
  function CellValue(p: LoadedPart, col: string): string
  {
    match Get(UserDict(p.libPart.value), col)
    case Some(v) => v
    case None => if Attr(p.defn, col).Some? then Attr(p.defn, col).value else ""
  }

  /** The row `populate_table` inserts for one part: its name, then one cell per column. */
  function BuildRow(props: seq<string>, p: LoadedPart): (row: seq<string>)
    requires Buildable(p)
    ensures |row| == |props| + 1 && row[0] == RowName(p)
  {
    [RowName(p)] + seq(|props|, j requires 0 <= j < |props| => CellValue(p, props[j]))
  }

  /** A property cell shows the last user property of that name, a missing `val` as ''. */
  lemma RowCellUser(props: seq<string>, p: LoadedPart, j: nat, m: nat)
    requires Buildable(p) && j < |props|
    requires m < |UserProps(p.libPart.value)| && UserProps(p.libPart.value)[m].name == props[j]
    requires forall m' :: m < m' < |UserProps(p.libPart.value)| ==> UserProps(p.libPart.value)[m'].name != props[j]
    ensures BuildRow(props, p)[j + 1] == ValOrEmpty(UserProps(p.libPart.value)[m])
  {
    FromPairsLastWins(UserPairs(p.libPart.value), m);
  }

  /** With no user property of that name, a property cell shows the `Package/Defn`
      attribute of that name, else ''. */
  lemma RowCellAttr(props: seq<string>, p: LoadedPart, j: nat)
    requires Buildable(p) && j < |props|
    requires forall m :: 0 <= m < |UserProps(p.libPart.value)| ==> UserProps(p.libPart.value)[m].name != props[j]
    ensures BuildRow(props, p)[j + 1] == if Attr(p.defn, props[j]).Some? then Attr(p.defn, props[j]).value else ""
  {
    var pairs := UserPairs(p.libPart.value);
    assert props[j] !in Keys(pairs);
    FromPairsAbsent(pairs, props[j]);
  }

  /** The search box's text, trimmed and lowercased. */
  function SearchTerm(input: string): string
  {
    Lower(Strip(input))
  }

  /** A row stays attached when the term occurs in its lowercased, space-joined cells. */
  predicate Matches(term: string, row: seq<string>)
  {
    Contains(Lower(JoinSpaced(row)), term)
  }

  /** An empty search reattaches every row. */
  lemma EmptySearchMatchesAll(input: string, row: seq<string>)
    requires Strip(input) == ""
    ensures Matches(SearchTerm(input), row)
  {
    assert SearchTerm(input) == "";
  }

  /** A term found in one cell keeps the row. */
  lemma CellHitMatches(term: string, row: seq<string>, j: nat)
    requires j < |row| && Contains(Lower(row[j]), term)
    ensures Matches(term, row)
  {
    JoinedCellInside(row, j);
    var pre, post :| JoinSpaced(row) == pre + row[j] + post;
    LowerConcat(pre + row[j], post);
    LowerConcat(pre, row[j]);
    ContainsInside(Lower(pre), Lower(row[j]), Lower(post), term);
  }
}
