/** `validate_csv`: every part name in the table is classified as an update of a template
    part or as a new part, by case-insensitive comparison with the template's names. */
module Validate {
  import opened Wrappers
  import opened Strings
  import opened Dicts
  import opened Library
  import opened Schema

  /** The template's part names, lowercased. */
  function TemplateKeys(index: map<string, Dict>): set<string>
  {
    set n | n in index :: Lower(n)
  }

  /** A name matches a template part up to case. */
  predicate Known(p: string, keys: set<string>)
  {
    Lower(p) in keys
  }

  /** The names that are (`known`) or are not (`!known`) template names up to case, in
      table order. */
  function Classify(names: seq<string>, keys: set<string>, known: bool): seq<string>
    decreases |names|
  {
    if |names| == 0 then []
    else
      var p := names[0];
      (if Known(p, keys) == known then [p] else []) + Classify(names[1..], keys, known)
  }

  /** A bucket holds only names of the input on its side of the template keys. */
  lemma {:induction false} ClassifyMembers(names: seq<string>, keys: set<string>, known: bool)
    ensures forall p :: p in Classify(names, keys, known) ==> p in names && Known(p, keys) == known
    decreases |names|
  {
    if |names| > 0 {
      ClassifyMembers(names[1..], keys, known);
    }
  }

  /** Every name lands in exactly one bucket: the two buckets together are the table's
      names, counted with repetition. */
  lemma {:induction false} ClassifyPartition(names: seq<string>, keys: set<string>)
    ensures multiset(Classify(names, keys, true)) + multiset(Classify(names, keys, false)) == multiset(names)
    decreases |names|
  {
    if |names| > 0 {
      var x, rest := names[0], names[1..];
      ClassifyPartition(rest, keys);
      ClassifyStep(names, keys);
      MultisetCons(x, rest);
      if Known(x, keys) {
        MultisetCons(x, Classify(rest, keys, true));
      } else {
        MultisetCons(x, Classify(rest, keys, false));
      }
    }
  }

  /** Putting one name in front adds it once to the multiset. */
  lemma MultisetCons(x: string, s: seq<string>)
    ensures multiset([x] + s) == multiset{x} + multiset(s)
  {
  }

  /** The bucket sizes add up to the number of names. */
  lemma {:induction false} ClassifySizes(names: seq<string>, keys: set<string>)
    ensures |Classify(names, keys, true)| + |Classify(names, keys, false)| == |names|
    decreases |names|
  {
    if |names| > 0 {
      ClassifySizes(names[1..], keys);
      ClassifyStep(names, keys);
    }
  }

  /** The first name goes to exactly one bucket; the rest are classified alike. */
  lemma ClassifyStep(names: seq<string>, keys: set<string>)
    requires |names| > 0
    ensures names == [names[0]] + names[1..]
    ensures var head, rest := [names[0]], names[1..];
      if Known(names[0], keys) then
        Classify(names, keys, true) == head + Classify(rest, keys, true)
        && Classify(names, keys, false) == Classify(rest, keys, false)
      else
        Classify(names, keys, true) == Classify(rest, keys, true)
        && Classify(names, keys, false) == head + Classify(rest, keys, false)
  {
  }

  /** `table.set(iid, column)`: the row's cell in that column, '' past the row's end. */
  function CellAt(row: seq<string>, i: nat): string
  {
    if i < |row| then row[i] else ""
  }

  /** The position of the first column with the given name; the column count when none has it. */
  function ColumnIndex(columns: seq<string>, name: string): (i: nat)
    ensures i <= |columns|
    ensures i < |columns| ==> columns[i] == name
    ensures forall j :: 0 <= j < i ==> columns[j] != name
    decreases |columns|
  {
    if |columns| == 0 then 0
    else if columns[0] == name then 0
    else 1 + ColumnIndex(columns[1..], name)
  }

  /** Each table row's `PartName` cell, trimmed, in table order. */
  function PartNames(columns: seq<string>, rows: seq<seq<string>>): (r: seq<string>)
    ensures |r| == |rows|
  {
    var c := ColumnIndex(columns, "PartName");
    seq(|rows|, i requires 0 <= i < |rows| => Strip(CellAt(rows[i], c)))
  }

  datatype Validation =
    | NoTemplate                                      // "Load template first."
    | Classified(toUpdate: seq<string>, toAdd: seq<string>)

  /** `validate_csv` over the rows currently attached to the table. */
  function ValidateCsv(template: Option<seq<Package>>, columns: seq<string>, rows: seq<seq<string>>): Validation
  {
    if template.None? then NoTemplate
    else
      var keys := TemplateKeys(TemplateParts(template.value));
      var names := PartNames(columns, rows);
      Classified(Classify(names, keys, true), Classify(names, keys, false))
  }

  /** With a template, each attached row is counted once, under "To Update" when its
      trimmed name matches a template part up to case and under "To Add" otherwise
      (`TemplateKeys` holds the template's lowercase names). */
  lemma ValidateCounts(doc: seq<Package>, columns: seq<string>, rows: seq<seq<string>>)
    ensures var v := ValidateCsv(Some(doc), columns, rows);
      && v.Classified?
      && |v.toUpdate| + |v.toAdd| == |rows|
      && multiset(v.toUpdate) + multiset(v.toAdd) == multiset(PartNames(columns, rows))
      && (forall p :: p in v.toUpdate ==> Known(p, TemplateKeys(TemplateParts(doc))))
      && (forall p :: p in v.toAdd ==> !Known(p, TemplateKeys(TemplateParts(doc))))
  {
    ClassifyPartition(PartNames(columns, rows), TemplateKeys(TemplateParts(doc)));
    ClassifySizes(PartNames(columns, rows), TemplateKeys(TemplateParts(doc)));
    ClassifyMembers(PartNames(columns, rows), TemplateKeys(TemplateParts(doc)), true);
    ClassifyMembers(PartNames(columns, rows), TemplateKeys(TemplateParts(doc)), false);
  }
}
