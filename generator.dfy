/** process_csv_to_patterns: from the rows of an uploaded CSV file to the
    generated REGEX_PATTERNS source and its statistics, or an error
    message. */
module Generator {
  import opened Options
  import Numbers
  import opened Columns
  import opened Rules
  import opened Ordering
  import opened Render

  /** The statistics returned with the code. */
  datatype Counts = Counts(patternCount: nat, csvRows: nat, priorities: nat)

  datatype Generated =
    | Success(code: string, counts: Counts)
    | Failure(error: string)

  const NoDataRows: string := "No data rows found in CSV file"
  const NoValidRows: string :=
    "No valid rows found in CSV file. Check that pattern_name and pattern columns exist and are not empty."
  const InfinityToInteger: string := "cannot convert float infinity to integer"

  /** normalized_rows: each row's dictionary of normalised column names. */
  function NormalizedRows(rows: seq<Row>): (ns: seq<Fields>)
    ensures |ns| == |rows|
    ensures forall k :: 0 <= k < |rows| ==> ns[k] == NormalizedColumns(rows[k])
  {
    if |rows| == 0 then [] else NormalizedRows(rows[..|rows| - 1]) + [NormalizedColumns(rows[|rows| - 1])]
  }

  /** processed_rows: the kept rows in input order, each filled in with the
      defaults for its position among all rows. */
  function Retain(ns: seq<Fields>): seq<Entry> {
    if |ns| == 0 then []
    else
      var n := |ns| - 1;
      var row := ProcessRow(MapColumns(ns[n]), n);
      Retain(ns[..n]) + (if row.Some? then [row.value] else [])
  }

  /** A row that is kept and whose priority rounds to infinity. */
  predicate RowOverflows(n: Fields) {
    var mapped := MapColumns(n);
    Keeps(mapped) && PriorityOverflows(Get(mapped, "priority"))
  }

  /** Some row makes the processing loop raise OverflowError. */
  predicate AnyOverflow(ns: seq<Fields>) {
    |ns| > 0 && (AnyOverflow(ns[..|ns| - 1]) || RowOverflows(ns[|ns| - 1]))
  }

  /** One more row for the overflow test. */
  lemma AnyOverflowStep(ns: seq<Fields>, i: nat)
    requires i < |ns|
    ensures AnyOverflow(ns[..i + 1]) <==> AnyOverflow(ns[..i]) || RowOverflows(ns[i])
  {
    assert ns[..i + 1][..i] == ns[..i];
    assert ns[..i + 1][i] == ns[i];
  }

  /** An overflow among the first rows is an overflow of all of them. */
  lemma {:induction false} AnyOverflowPrefix(ns: seq<Fields>, j: nat)
    requires j <= |ns| && AnyOverflow(ns[..j])
    ensures AnyOverflow(ns)
    decreases |ns| - j
  {
    if j < |ns| {
      AnyOverflowStep(ns, j);
      AnyOverflowPrefix(ns, j + 1);
    } else {
      assert ns[..j] == ns;
    }
  }

  /** The positions of the kept rows, in increasing order. */
  function KeptIndices(ns: seq<Fields>): seq<nat> {
    if |ns| == 0 then []
    else
      var n := |ns| - 1;
      KeptIndices(ns[..n]) + (if Keeps(MapColumns(ns[n])) then [n] else [])
  }

  /** len(set(row['priority'] for row in processed_rows)): the number of
      distinct priority texts. */
  function PriorityTexts(es: seq<Entry>): set<string> {
    set e | e in es :: Numbers.IntToString(e.priority)
  }

  /** What process_csv_to_patterns returns for the given rows. */
  function Generate(rows: seq<Row>): Generated {
    if |rows| == 0 then Failure(NoDataRows)
    else if AnyOverflow(NormalizedRows(rows)) then Failure(InfinityToInteger)
    else
      var processed := Retain(NormalizedRows(rows));
      if |processed| == 0 then Failure(NoValidRows)
      else
        var sorted := StableSort(processed);
        Success(RenderCode(sorted), Counts(|sorted|, |sorted|, |PriorityTexts(sorted)|))
  }

  /** One more row of processed_rows. */
  lemma RetainStep(ns: seq<Fields>, i: nat)
    requires i < |ns|
    ensures Retain(ns[..i + 1]) == Retain(ns[..i])
      + (if Keeps(MapColumns(ns[i])) then [BuildEntry(MapColumns(ns[i]), i)] else [])
  {
    assert ns[..i + 1][..i] == ns[..i];
    assert ns[..i + 1][i] == ns[i];
  }

  /** One more rule's lines after any fixed header. */
  lemma EntriesLinesStep(header: seq<string>, es: seq<Entry>, k: nat)
    requires k < |es|
    ensures header + EntriesLines(es[..k + 1]) == header + EntriesLines(es[..k]) + EntryLines(es[k])
  {
    assert es[..k + 1][..k] == es[..k];
    assert EntriesLines(es[..k + 1]) == EntriesLines(es[..k]) + EntryLines(es[k]);
  }

  /** The loop at regex_pattern_generator.py:284-291. */
  method NormalizeAll(rows: seq<Row>) returns (normalizedRows: seq<Fields>)
    ensures normalizedRows == NormalizedRows(rows)
  {
    normalizedRows := [];
    for j := 0 to |rows|
      invariant normalizedRows == NormalizedRows(rows[..j])
    {
      var normalized := NormalizeColumns(rows[j]);
      normalizedRows := normalizedRows + [normalized];
      assert rows[..j + 1][..j] == rows[..j];
    }
    assert rows[..|rows|] == rows;
  }

  /** The loop at regex_pattern_generator.py:307-345: map each row's columns, skip it when a
      required column is missing or empty, fill in its defaults. None when
      a priority raises OverflowError, which ends the loop. */
  method ProcessRows(normalizedRows: seq<Fields>) returns (processed: Option<seq<Entry>>)
    ensures processed == if AnyOverflow(normalizedRows) then None else Some(Retain(normalizedRows))
  {
    var kept := [];
    for i := 0 to |normalizedRows|
      invariant kept == Retain(normalizedRows[..i])
      invariant !AnyOverflow(normalizedRows[..i])
    {
      RetainStep(normalizedRows, i);
      AnyOverflowStep(normalizedRows, i);
      var mapped := ApplyColumnMapping(normalizedRows[i]);
      if !Keeps(mapped) {
        continue;
      }
      if PriorityOverflows(Get(mapped, "priority")) {
        AnyOverflowPrefix(normalizedRows, i + 1);
        return None;
      }
      kept := kept + [BuildEntry(mapped, i)];
    }
    assert normalizedRows[..|normalizedRows|] == normalizedRows;
    return Some(kept);
  }

  /** The loop at regex_pattern_generator.py:361-375 and the closing line. */
  method BuildCodeLines(sorted: seq<Entry>) returns (codeLines: seq<string>)
    ensures codeLines == CodeLines(sorted)
  {
    codeLines := HeaderLines;
    for k := 0 to |sorted|
      invariant codeLines == HeaderLines + EntriesLines(sorted[..k])
    {
      EntriesLinesStep(HeaderLines, sorted, k);
      codeLines := codeLines + EntryLines(sorted[k]);
    }
    assert sorted[..|sorted|] == sorted;
    codeLines := codeLines + [Footer];
  }

  /** The body of process_csv_to_patterns after the file is decoded and
      parsed: normalise, map and fill each row, sort, render, count. */
  method ProcessCsvToPatterns(rows: seq<Row>) returns (result: Generated)
    ensures result == Generate(rows)
  {
    if |rows| == 0 {
      return Failure(NoDataRows);
    }
    var normalizedRows := NormalizeAll(rows);
    var kept := ProcessRows(normalizedRows);
    if kept.None? {
      return Failure(InfinityToInteger);
    }
    var processed := kept.value;
    if |processed| == 0 {
      return Failure(NoValidRows);
    }
    var sorted := StableSort(processed);
    var codeLines := BuildCodeLines(sorted);
    var code := JoinLines(codeLines);
    var priorities := PriorityTexts(sorted);
    return Success(code, Counts(|sorted|, |sorted|, |priorities|));
  }

  /** Retain holds one entry per kept position. */
  lemma {:induction false} RetainLength(ns: seq<Fields>)
    ensures |Retain(ns)| == |KeptIndices(ns)|
  {
    if |ns| > 0 {
      RetainLength(ns[..|ns| - 1]);
    }
  }

  /** The kept positions are increasing positions of rows that have both
      required columns. */
  lemma {:induction false} KeptIndicesValid(ns: seq<Fields>)
    ensures forall m :: 0 <= m < |KeptIndices(ns)| ==>
      KeptIndices(ns)[m] < |ns| && Keeps(MapColumns(ns[KeptIndices(ns)[m]]))
    ensures forall m, m' :: 0 <= m < m' < |KeptIndices(ns)| ==> KeptIndices(ns)[m] < KeptIndices(ns)[m']
  {
    if |ns| > 0 {
      var n := |ns| - 1;
      KeptIndicesValid(ns[..n]);
      assert forall i :: 0 <= i < n ==> ns[..n][i] == ns[i];
    }
  }

  /** Every row with both required columns is kept. */
  lemma {:induction false} KeptIndicesComplete(ns: seq<Fields>, i: nat)
    requires i < |ns| && Keeps(MapColumns(ns[i]))
    ensures i in KeptIndices(ns)
  {
    var n := |ns| - 1;
    if i < n {
      KeptIndicesComplete(ns[..n], i);
    }
  }

  /** Retain's m-th entry is the kept row at the m-th kept position, filled
      in for that position. */
  lemma {:induction false} RetainEntries(ns: seq<Fields>, m: nat)
    requires m < |KeptIndices(ns)|
    ensures KeptIndices(ns)[m] < |ns| && Keeps(MapColumns(ns[KeptIndices(ns)[m]]))
    ensures m < |Retain(ns)|
    ensures Retain(ns)[m] == BuildEntry(MapColumns(ns[KeptIndices(ns)[m]]), KeptIndices(ns)[m])
  {
    var n := |ns| - 1;
    KeptIndicesValid(ns);
    RetainLength(ns);
    RetainLength(ns[..n]);
    if m < |KeptIndices(ns[..n])| {
      RetainEntries(ns[..n], m);
    }
  }

  /** A row's position among all rows is at least its position among the
      kept rows. */
  lemma {:induction false} KeptIndexAtLeast(ns: seq<Fields>, m: nat)
    requires m < |KeptIndices(ns)|
    ensures KeptIndices(ns)[m] >= m
  {
    if m > 0 {
      KeptIndexAtLeast(ns, m - 1);
      KeptIndicesValid(ns);
    }
  }

  /** A processed row without a colour gets the palette colour of its
      position among all data rows, skipped rows included, so every skipped
      row before it moves it along the palette. */
  lemma DefaultColorPosition(ns: seq<Fields>, m: nat)
    requires m < |KeptIndices(ns)|
    requires var i := KeptIndices(ns)[m];
      i < |ns| && !Truthy(Get(MapColumns(ns[i]), "color"))
    ensures m < |Retain(ns)|
    ensures Retain(ns)[m].color == DefaultColor(KeptIndices(ns)[m])
    ensures KeptIndices(ns)[m] >= m
  {
    RetainEntries(ns, m);
    KeptIndexAtLeast(ns, m);
  }

  /** No row is kept exactly when no row has both required columns. */
  lemma RetainEmpty(ns: seq<Fields>)
    ensures |Retain(ns)| == 0 <==> forall i :: 0 <= i < |ns| ==> !Keeps(MapColumns(ns[i]))
  {
    RetainLength(ns);
    if |Retain(ns)| > 0 {
      KeptIndicesValid(ns);
      var i := KeptIndices(ns)[0];
      assert Keeps(MapColumns(ns[i]));
    }
    if i :| 0 <= i < |ns| && Keeps(MapColumns(ns[i])) {
      KeptIndicesComplete(ns, i);
    }
  }

  /** RetainEmpty, stated on the rows as read. */
  lemma RetainEmptyRows(rows: seq<Row>)
    ensures |Retain(NormalizedRows(rows))| == 0 <==>
      forall i :: 0 <= i < |rows| ==> !Keeps(MapColumns(NormalizedColumns(rows[i])))
  {
    RetainEmpty(NormalizedRows(rows));
  }

  /** The generator fails on a file without data rows, with OverflowError's
      message when a kept row's priority rounds to infinity, and otherwise
      only for want of a usable row. */
  lemma GenerateFailures(rows: seq<Row>)
    ensures |rows| == 0 ==> Generate(rows) == Failure(NoDataRows)
    ensures |rows| > 0 && AnyOverflow(NormalizedRows(rows)) ==> Generate(rows) == Failure(InfinityToInteger)
    ensures |rows| > 0 && !AnyOverflow(NormalizedRows(rows)) ==>
      (Generate(rows).Failure? <==> |Retain(NormalizedRows(rows))| == 0)
    ensures |rows| > 0 && !AnyOverflow(NormalizedRows(rows)) && Generate(rows).Failure? ==>
      Generate(rows).error == NoValidRows
  {
  }

  /** Past the first two checks, the generator fails exactly when no row has
      both a pattern_name and a pattern. */
  lemma GenerateNoKeptRow(rows: seq<Row>)
    ensures |rows| > 0 && !AnyOverflow(NormalizedRows(rows)) ==>
      (Generate(rows).Failure? <==>
        forall i :: 0 <= i < |rows| ==> !Keeps(MapColumns(NormalizedColumns(rows[i]))))
  {
    GenerateFailures(rows);
    RetainEmptyRows(rows);
  }

  /** A kept row whose priority is an integer of magnitude at least
      FloatOverflow fails the whole request. */
  lemma GenerateOverflow(rows: seq<Row>, i: nat, n: int)
    requires i < |rows|
    requires var mapped := MapColumns(NormalizedColumns(rows[i]));
      Keeps(mapped) && Get(mapped, "priority") == Some(Numbers.IntToString(n))
    requires n >= Numbers.FloatOverflow || n <= -Numbers.FloatOverflow
    ensures Generate(rows) == Failure(InfinityToInteger)
  {
    Numbers.ParseIntToString(n);
    AnyOverflowStep(NormalizedRows(rows), i);
    AnyOverflowPrefix(NormalizedRows(rows), i + 1);
  }

  lemma PriorityTextsCons(es: seq<Entry>)
    requires |es| > 0
    ensures PriorityTexts(es) == {Numbers.IntToString(es[0].priority)} + PriorityTexts(es[1..])
  {
    assert es == [es[0]] + es[1..];
    assert forall e :: e in es <==> e == es[0] || e in es[1..];
  }

  lemma {:induction false} PriorityTextsBound(es: seq<Entry>)
    ensures |PriorityTexts(es)| <= |es|
    ensures |es| > 0 ==> |PriorityTexts(es)| >= 1
  {
    if |es| > 0 {
      var rest := es[1..];
      PriorityTextsBound(rest);
      PriorityTextsCons(es);
      var t := Numbers.IntToString(es[0].priority);
      assert t in PriorityTexts(es);
      assert |{t} + PriorityTexts(rest)| <= 1 + |PriorityTexts(rest)|;
    }
  }

  /** On success both row counts are the number of kept rows, and the
      number of distinct priorities is between one and that number. */
  lemma GenerateCounts(rows: seq<Row>)
    requires Generate(rows).Success?
    ensures var c := Generate(rows).counts;
      && c.patternCount == c.csvRows == |KeptIndices(NormalizedRows(rows))|
      && 1 <= c.priorities <= c.patternCount
  {
    var processed := Retain(NormalizedRows(rows));
    RetainLength(NormalizedRows(rows));
    var sorted := StableSort(processed);
    assert |sorted| == |processed| by {
      assert |multiset(sorted)| == |multiset(processed)|;
    }
    PriorityTextsBound(sorted);
  }

  /** The distinct priorities of the rows, as ints. */
  function Priorities(es: seq<Entry>): set<int> {
    set e | e in es :: e.priority
  }

  lemma PrioritiesCons(es: seq<Entry>)
    requires |es| > 0
    ensures Priorities(es) == {es[0].priority} + Priorities(es[1..])
  {
    assert es == [es[0]] + es[1..];
    assert forall e :: e in es <==> e == es[0] || e in es[1..];
  }

  /** Distinct priorities have distinct texts, so counting the texts counts
      the priorities. */
  lemma {:induction false} PriorityTextsCount(es: seq<Entry>)
    ensures |PriorityTexts(es)| == |Priorities(es)|
  {
    if |es| > 0 {
      var rest := es[1..];
      PriorityTextsCount(rest);
      PriorityTextsCons(es);
      PrioritiesCons(es);
      var t, p := Numbers.IntToString(es[0].priority), es[0].priority;
      if t in PriorityTexts(rest) {
        var e :| e in rest && Numbers.IntToString(e.priority) == t;
        Numbers.IntToStringInjective(e.priority, p);
        assert p in Priorities(rest);
      } else {
        assert p !in Priorities(rest);
      }
    }
  }

  /** On success, priorities is the number of distinct priorities among the
      kept rows. */
  lemma GeneratePriorities(rows: seq<Row>)
    requires Generate(rows).Success?
    ensures Generate(rows).counts.priorities == |Priorities(Retain(NormalizedRows(rows)))|
  {
    var processed := Retain(NormalizedRows(rows));
    var sorted := StableSort(processed);
    PriorityTextsCount(sorted);
    assert forall e :: e in sorted <==> e in processed by {
      forall e ensures e in sorted <==> e in processed {
        assert e in sorted <==> e in multiset(sorted);
        assert e in processed <==> e in multiset(processed);
      }
    }
    assert Priorities(sorted) == Priorities(processed);
  }

  /** The generated code lists the kept rows in the order list.sort leaves
      them: any stable sort of the kept rows by (priority, name) renders to
      the same code, and when no field holds a line break, reading the code
      back gives that order's rules. */
  lemma GenerateCode(rows: seq<Row>, out: seq<Entry>)
    requires Generate(rows).Success?
    requires StablySorted(out, Retain(NormalizedRows(rows)))
    ensures Generate(rows).code == RenderCode(out)
    ensures (forall k :: 0 <= k < |out| ==> SingleLine(out[k])) ==>
      ReadCode(Generate(rows).code) == Some(RenderedAll(out))
  {
    StablySortedIsStableSort(out, Retain(NormalizedRows(rows)));
    if forall k :: 0 <= k < |out| ==> SingleLine(out[k]) {
      CodeRoundTrip(out);
    }
  }
}
