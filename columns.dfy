/** The column handling of process_csv_to_patterns: every csv.DictReader row
    becomes a dictionary keyed by lower-cased, trimmed column names, and the
    synonym table then fills canonical columns that the row lacks. */
module Columns {
  import opened Options
  import Text

  /** One (column name, value) item of a csv.DictReader row dictionary, in
      the dictionary's order. The name is None for the key under which
      DictReader files the surplus fields of a long line; the value is None
      for a field missing from a short line. A dictionary never repeats a
      name; the model accepts any sequence of items. */
  datatype Cell = Cell(header: Option<string>, value: Option<string>)

  type Row = seq<Cell>

  /** A row dictionary: column name to value. */
  type Fields = map<string, Option<string>>

  /** `if key:` skips the None name and the empty name. */
  predicate HasName(c: Cell) {
    c.header.Some? && |c.header.value| > 0
  }

  /** key.lower().strip() */
  function ColumnKey(name: string): string {
    Text.Strip(Text.Lower(name))
  }

  predicate NamesColumn(c: Cell, key: string) {
    HasName(c) && ColumnKey(c.header.value) == key
  }

  /** The dictionary built from a row by assigning, cell after cell, the
      value to the normalised column name. */
  function NormalizedColumns(row: Row): Fields {
    if |row| == 0 then map[]
    else
      var fields := NormalizedColumns(row[..|row| - 1]);
      var c := row[|row| - 1];
      if HasName(c) then fields[ColumnKey(c.header.value) := c.value] else fields
  }

  /** The last cell adds its own column, if it has a name, to those of the
      cells before it. */
  lemma NormalizedColumnsLast(row: Row, key: string)
    requires |row| > 0
    ensures key in NormalizedColumns(row)
            <==> key in NormalizedColumns(row[..|row| - 1]) || NamesColumn(row[|row| - 1], key)
  {
  }

  /** Some named cell of the row normalises to key. */
  predicate Named(row: Row, key: string) {
    exists j :: 0 <= j < |row| && NamesColumn(row[j], key)
  }

  lemma NamedLast(row: Row, key: string)
    requires |row| > 0
    ensures Named(row, key) <==> Named(row[..|row| - 1], key) || NamesColumn(row[|row| - 1], key)
  {
    var init := row[..|row| - 1];
    if j :| 0 <= j < |init| && NamesColumn(init[j], key) {
      assert row[j] == init[j];
    }
    if j :| 0 <= j < |row| - 1 && NamesColumn(row[j], key) {
      assert init[j] == row[j];
    }
  }

  /** A column is present exactly when some named cell normalises to it. */
  lemma {:induction false} NormalizedColumnsKeys(row: Row, key: string)
    ensures key in NormalizedColumns(row) <==> Named(row, key)
  {
    if |row| > 0 {
      NormalizedColumnsKeys(row[..|row| - 1], key);
      NormalizedColumnsLast(row, key);
      NamedLast(row, key);
    }
  }

  /** The last cell whose name normalises to a column supplies its value. */
  lemma {:induction false} NormalizedColumnsLastWins(row: Row, key: string, j: nat)
    requires j < |row| && NamesColumn(row[j], key)
    requires forall j' :: j < j' < |row| ==> !NamesColumn(row[j'], key)
    ensures key in NormalizedColumns(row) && NormalizedColumns(row)[key] == row[j].value
  {
    var last := |row| - 1;
    if j < last {
      var init := row[..last];
      assert forall i :: 0 <= i < last ==> init[i] == row[i];
      NormalizedColumnsLastWins(init, key, j);
      assert !NamesColumn(row[last], key);
    }
  }

  /** The loop at regex_pattern_generator.py:284-290 for one row. */
  method NormalizeColumns(row: Row) returns (fields: Fields)
    ensures fields == NormalizedColumns(row)
  {
    fields := map[];
    for j := 0 to |row|
      invariant fields == NormalizedColumns(row[..j])
    {
      var cell := row[j];
      if HasName(cell) {
        fields := fields[ColumnKey(cell.header.value) := cell.value];
      }
      assert row[..j + 1][..j] == row[..j];
    }
    assert row[..|row|] == row;
  }

  /** column_mapping, in its insertion order: synonym, canonical name. */
  const ColumnMapping: seq<(string, string)> := [
    ("name", "pattern_name"),
    ("regex", "pattern"),
    ("regex_pattern", "pattern"),
    ("pattern_regex", "pattern"),
    ("desc", "description"),
    ("colour", "color"),
    ("hex_color", "color"),
    ("priority_level", "priority"),
    ("processing_order", "priority"),
    ("order", "priority")
  ]

  /** The table entry would copy the row's value into the canonical column. */
  predicate Supplies(row: Fields, entry: (string, string), canonical: string) {
    entry.1 == canonical && entry.0 in row
  }

  /** The first loop of the mapping: for each table entry in order, copy the
      synonym's value when the row has the synonym and lacks the canonical
      column. */
  function SynonymFill(row: Fields, table: seq<(string, string)>): Fields {
    if |table| == 0 then map[]
    else
      var filled := SynonymFill(row, table[..|table| - 1]);
      var entry := table[|table| - 1];
      if entry.0 in row && entry.1 !in row then filled[entry.1 := row[entry.0]] else filled
  }

  /** mapped_row: the synonym copies, then every original column written over
      them. */
  function MapColumns(row: Fields): Fields {
    SynonymFill(row, ColumnMapping) + row
  }

  lemma {:induction false} SynonymFillKeys(row: Fields, table: seq<(string, string)>, canonical: string)
    ensures canonical in row ==> canonical !in SynonymFill(row, table)
    ensures canonical !in row ==>
      (canonical in SynonymFill(row, table) <==> exists j :: 0 <= j < |table| && Supplies(row, table[j], canonical))
  {
    if |table| > 0 {
      var last := |table| - 1;
      var init := table[..last];
      SynonymFillKeys(row, init, canonical);
      assert forall j :: 0 <= j < last ==> init[j] == table[j];
      if !Supplies(row, table[last], canonical) {
        assert (exists j :: 0 <= j < |table| && Supplies(row, table[j], canonical))
           <==> (exists j :: 0 <= j < |init| && Supplies(row, init[j], canonical));
      }
    }
  }

  lemma {:induction false} SynonymFillLastWins(row: Fields, table: seq<(string, string)>, canonical: string, j: nat)
    requires canonical !in row
    requires j < |table| && Supplies(row, table[j], canonical)
    requires forall j' :: j < j' < |table| ==> !Supplies(row, table[j'], canonical)
    ensures canonical in SynonymFill(row, table) && SynonymFill(row, table)[canonical] == row[table[j].0]
  {
    var last := |table| - 1;
    if j < last {
      var init := table[..last];
      assert forall i :: 0 <= i < last ==> init[i] == table[i];
      SynonymFillLastWins(row, init, canonical, j);
      assert !Supplies(row, table[last], canonical);
    }
  }

  /** After mapping, a column that the row has keeps its own value, and a
      column that it lacks is present exactly when one of its synonyms is. */
  lemma MapColumnsKeys(row: Fields, canonical: string)
    ensures canonical in row ==> canonical in MapColumns(row) && MapColumns(row)[canonical] == row[canonical]
    ensures canonical !in row ==>
      (canonical in MapColumns(row) <==>
        exists j :: 0 <= j < |ColumnMapping| && Supplies(row, ColumnMapping[j], canonical))
  {
    SynonymFillKeys(row, ColumnMapping, canonical);
  }

  /** A column that the row lacks takes the value of the synonym that comes
      last in the table among those the row has. */
  lemma MapColumnsLastSynonym(row: Fields, canonical: string, j: nat)
    requires canonical !in row
    requires j < |ColumnMapping| && Supplies(row, ColumnMapping[j], canonical)
    requires forall j' :: j < j' < |ColumnMapping| ==> !Supplies(row, ColumnMapping[j'], canonical)
    ensures canonical in MapColumns(row) && MapColumns(row)[canonical] == row[ColumnMapping[j].0]
  {
    SynonymFillLastWins(row, ColumnMapping, canonical, j);
  }

  /** With both "regex" and "pattern_regex" columns and no "pattern" column,
      the pattern comes from "pattern_regex", the later table entry. */
  lemma LaterSynonymWins(row: Fields)
    requires "regex" in row && "pattern_regex" in row && "pattern" !in row
    ensures "pattern" in MapColumns(row) && MapColumns(row)["pattern"] == row["pattern_regex"]
  {
    MapColumnsLastSynonym(row, "pattern", 3);
  }

  /** The first mapping loop (regex_pattern_generator.py:310-313), over any
      synonym table. */
  method FillSynonyms(row: Fields, table: seq<(string, string)>) returns (filled: Fields)
    ensures filled == SynonymFill(row, table)
  {
    filled := map[];
    for t := 0 to |table|
      invariant filled == SynonymFill(row, table[..t])
    {
      var (original, canonical) := table[t];
      if original in row && canonical !in row {
        filled := filled[canonical := row[original]];
      }
      assert table[..t + 1][..t] == table[..t];
    }
    assert table[..|table|] == table;
  }

  /** The second mapping loop (regex_pattern_generator.py:315-317): every
      original column is written over the synonym copies. */
  method OverlayRow(filled: Fields, row: Fields) returns (mapped: Fields)
    ensures mapped == filled + row
  {
    mapped := filled;
    var pending := row.Keys;
    while pending != {}
      invariant pending <= row.Keys
      invariant mapped == filled + map k | k in row.Keys - pending :: row[k]
      decreases pending
    {
      var key :| key in pending;
      mapped := mapped[key := row[key]];
      pending := pending - {key};
    }
    assert row == map k | k in row.Keys - pending :: row[k];
  }

  /** The mapping loops at regex_pattern_generator.py:310-317 for one row. */
  method ApplyColumnMapping(row: Fields) returns (mapped: Fields)
    ensures mapped == MapColumns(row)
  {
    var filled := FillSynonyms(row, ColumnMapping);
    mapped := OverlayRow(filled, row);
  }
}
