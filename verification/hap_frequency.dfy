/**
  The program as a whole (`main`, lines 11-95): read the FASTA records into
  the sample table, parse the population map if one is given, group the
  sequences by population, count haplotype frequencies per group and lay
  them out as the output table. The warnings printed for samples missing
  from the map are returned alongside the table.
 */
module HapFrequency {
  import opened Wrappers
  import opened OrderedDict
  import opened Fasta
  import opened Popmap
  import opened Grouping
  import opened Counting
  import opened FreqTable
  import opened Text

  /** Why the program stops without writing a table. */
  datatype RunError = PopmapFailed(popmapError: PopmapError) | TableFailed(tableError: TableError)

  /** The table written to the output file and the warnings printed on the way. */
  datatype Output = Output(table: Table, warnings: seq<string>)

  /** Line 41: the warning for a sample the population map does not name. */
  function Warning(id: string): string {
    "Warning: Sample " + id + " isn't in popmap."
  }

  function Warnings(ids: seq<string>): (ws: seq<string>)
    ensures |ws| == |ids|
    ensures forall i :: 0 <= i < |ids| ==> ws[i] == Warning(ids[i])
  {
    seq(|ids|, i requires 0 <= i < |ids| => Warning(ids[i]))
  }

  /** Lines 23-25: no map without a population map file, otherwise its parse. */
  function Assignments(popmap: Option<seq<string>>): Result<Option<map<string, string>>, PopmapError> {
    match popmap
    case None => Success(None)
    case Some(lines) =>
      match ParsePopmap(lines)
      case Failure(e) => Failure(e)
      case Success(m) => Success(Some(m))
  }

  /** `main` on the lines of the FASTA file and, if given, of the population map file. */
  function Run(fasta: seq<string>, popmap: Option<seq<string>>): Result<Output, RunError> {
    match Assignments(popmap)
    case Failure(e) => Failure(PopmapFailed(e))
    case Success(assign) => Tabulate(SampleTable(ReadFasta(fasta)), assign)
  }

  /** Lines 27-83: from the sample table and the optional map to the output. */
  function Tabulate(samples: Dict<string, string>, assign: Option<map<string, string>>): Result<Output, RunError> {
    var g := Group(samples, assign);
    match Lookup(g.pops, Total)
    case None => Failure(TableFailed(MissingGroup(Total)))
    case Some(all) =>
      match FillAll(InitRows(all), g.pops)
      case Failure(e) => Failure(TableFailed(e))
      case Success(rows) => Success(Output(BuildTable(Keys(g.pops), rows), Warnings(g.unmapped)))
  }

  /**
    "TOTAL" is the first group; its distinct haplotypes are the distinct
    sample sequences, and every group's haplotypes are among them.
   */
  lemma TotalGroup(samples: Dict<string, string>, assign: Option<map<string, string>>)
    ensures var g := Group(samples, assign);
      && |g.pops| > 0 && g.pops[0].0 == Total
      && Lookup(g.pops, Total) == Some(g.pops[0].1)
      && Dedup(g.pops[0].1) == Dedup(Values(samples))
      && CoversAll(Dedup(Values(samples)), g.pops)
  {
    var g := Group(samples, assign);
    match assign
    case None =>
      GroupWithoutPopmap(samples);
      assert Keys(g.pops)[0] == g.pops[0].0;
      assert CoversAll(Dedup(Values(samples)), g.pops);
    case Some(m) =>
      GroupWithPopmap(samples, m);
      DedupAppendPresent(Values(samples), Members(samples, m, Total));
  }

  /** A haplotype's frequency in each group, as a table cell. */
  function CellsOf(pops: Dict<string, seq<string>>, hap: string): seq<string> {
    seq(|pops|, j requires 0 <= j < |pops| => CellText(Cell(pops, hap, pops[j].0)))
  }

  /**
    Lines 44-83 on groups whose haplotypes all come from `all`: the fill never
    misses a row; the header names the groups in order; there is one line per
    distinct haplotype of `all`, in order of first occurrence, holding the
    haplotype and then its frequency in each group.
   */
  lemma TableOfGroups(pops: Dict<string, seq<string>>, all: seq<string>)
    requires CoversAll(Dedup(all), pops)
    ensures FillAll(InitRows(all), pops).Success?
    ensures var t := BuildTable(Keys(pops), FillAll(InitRows(all), pops).value);
      && t.header == [HaplotypeColumn] + Keys(pops)
      && |t.body| == |Dedup(all)|
      && forall i :: 0 <= i < |t.body| ==> t.body[i] == [Dedup(all)[i]] + CellsOf(pops, Dedup(all)[i])
  {
    var rows0 := InitRows(all);
    FillAllOutcome(rows0, pops);
    var rows := FillAll(rows0, pops).value;
    FillAllCells(rows0, pops);
    var t := BuildTable(Keys(pops), rows);
    forall i | 0 <= i < |t.body|
      ensures t.body[i] == [Dedup(all)[i]] + CellsOf(pops, Dedup(all)[i])
    {
      var hap := rows[i].0;
      assert Keys(rows)[i] == hap;
      TableLine(rows0, rows, pops, hap, rows[i].1);
    }
  }

  /** One line of the table: the haplotype's row holds exactly its cells. */
  lemma TableLine(rows0: Rows, rows: Rows, pops: Dict<string, seq<string>>, hap: string, row: Row)
    requires forall i :: 0 <= i < |rows0| ==> rows0[i].1 == []
    requires forall h :: Lookup(rows, h) == match Lookup(rows0, h)
      case None => None
      case Some(r) => Some(RowOf(r, h, pops))
    requires Lookup(rows, hap) == Some(row)
    ensures RowCells(hap, row, Keys(pops)) == [hap] + CellsOf(pops, hap)
  {
    FilledRow(rows0, rows, pops, hap, row);
    forall q ensures Lookup(row, q) == Cell(pops, hap, q) {
      RowOfCells(hap, pops, q);
    }
    LineCells(pops, hap, row);
  }

  /** A filled row is the reference row of its haplotype, started empty. */
  lemma FilledRow(rows0: Rows, rows: Rows, pops: Dict<string, seq<string>>, hap: string, row: Row)
    requires forall i :: 0 <= i < |rows0| ==> rows0[i].1 == []
    requires forall h :: Lookup(rows, h) == match Lookup(rows0, h)
      case None => None
      case Some(r) => Some(RowOf(r, h, pops))
    requires Lookup(rows, hap) == Some(row)
    ensures row == RowOf([], hap, pops)
  {
    assert Lookup(rows0, hap).Some?;
    var j := IndexOf(Keys(rows0), hap);
    assert Lookup(rows0, hap) == Some(rows0[j].1);
  }

  /** A row holding exactly a haplotype's cells prints them in group order. */
  lemma LineCells(pops: Dict<string, seq<string>>, hap: string, row: Row)
    requires forall q :: Lookup(row, q) == Cell(pops, hap, q)
    ensures RowCells(hap, row, Keys(pops)) == [hap] + CellsOf(pops, hap)
  {
    var a := RowCells(hap, row, Keys(pops));
    var b := [hap] + CellsOf(pops, hap);
    assert |a| == |b| && a[0] == b[0];
    forall k | 0 < k < |a| ensures a[k] == b[k] {
      assert Keys(pops)[k - 1] == pops[k - 1].0;
    }
  }

  /** The program fails exactly when the population map has a line without a label. */
  lemma RunFailure(fasta: seq<string>, popmap: Option<seq<string>>)
    ensures Run(fasta, popmap).Failure? <==> popmap.Some? && ParsePopmap(popmap.value).Failure?
    ensures Run(fasta, popmap).Failure? ==> Run(fasta, popmap).error == PopmapFailed(ParsePopmap(popmap.value).error)
  {
    if Assignments(popmap).Success? {
      TabulateTable(SampleTable(ReadFasta(fasta)), Assignments(popmap).value);
    }
  }

  /**
    Tabulating never fails: the header is "Haplotype" followed by the groups,
    "TOTAL" first; the lines are the distinct sample sequences in order of
    first occurrence, each followed by its frequency in every group; a warning
    is printed for each sample the map does not name.
   */
  lemma TabulateTable(samples: Dict<string, string>, assign: Option<map<string, string>>)
    ensures var g := Group(samples, assign);
      var haps := Dedup(Values(samples));
      && Tabulate(samples, assign).Success?
      && Tabulate(samples, assign).value.table.header == [HaplotypeColumn] + Keys(g.pops)
      && Tabulate(samples, assign).value.table.header[1] == Total
      && |Tabulate(samples, assign).value.table.body| == |haps|
      && (forall i :: 0 <= i < |haps| ==> Tabulate(samples, assign).value.table.body[i] == [haps[i]] + CellsOf(g.pops, haps[i]))
      && Tabulate(samples, assign).value.warnings == Warnings(g.unmapped)
  {
    var g := Group(samples, assign);
    TotalGroup(samples, assign);
    var all := g.pops[0].1;
    TableOfGroups(g.pops, all);
    TabulateFilled(samples, assign);
    assert Keys(g.pops)[0] == Total;
  }

  /** What `Tabulate` returns once the "TOTAL" group is found and every haplotype has a row. */
  lemma TabulateFilled(samples: Dict<string, string>, assign: Option<map<string, string>>)
    requires var g := Group(samples, assign);
      && |g.pops| > 0 && Lookup(g.pops, Total) == Some(g.pops[0].1)
      && FillAll(InitRows(g.pops[0].1), g.pops).Success?
    ensures var g := Group(samples, assign);
      Tabulate(samples, assign) == Success(Output(
        BuildTable(Keys(g.pops), FillAll(InitRows(g.pops[0].1), g.pops).value), Warnings(g.unmapped)))
  {
  }

  /**
    `main` end to end: unless the population map fails to parse, the program
    writes the table of the samples read from the FASTA file. Its header is
    "Haplotype", "TOTAL" and then the other groups; it has one line per
    distinct sample sequence, in order of first occurrence, holding that
    sequence and its frequency in each group; and a warning is printed for
    each sample the map does not name.
   */
  lemma RunOutput(fasta: seq<string>, popmap: Option<seq<string>>)
    ensures Run(fasta, popmap).Success? <==> Assignments(popmap).Success?
    ensures Run(fasta, popmap).Success? ==>
      var samples := SampleTable(ReadFasta(fasta));
      var g := Group(samples, Assignments(popmap).value);
      var haps := Dedup(Values(samples));
      var out := Run(fasta, popmap).value;
      && out.table.header == [HaplotypeColumn] + Keys(g.pops)
      && out.table.header[1] == Total
      && |out.table.body| == |haps|
      && (forall i :: 0 <= i < |haps| ==> out.table.body[i] == [haps[i]] + CellsOf(g.pops, haps[i]))
      && out.warnings == Warnings(g.unmapped)
  {
    if Assignments(popmap).Success? {
      TabulateTable(SampleTable(ReadFasta(fasta)), Assignments(popmap).value);
    }
  }

  /** Without a population map there is one group, "TOTAL", and no warning. */
  lemma TabulateWithoutPopmap(samples: Dict<string, string>)
    ensures Tabulate(samples, None).Success?
    ensures Tabulate(samples, None).value.table.header == [HaplotypeColumn, Total]
    ensures Tabulate(samples, None).value.warnings == []
  {
    TabulateTable(samples, None);
    GroupWithoutPopmap(samples);
  }

  /** Each line of the table has one cell per group after the haplotype. */
  lemma TabulateLineWidth(samples: Dict<string, string>, assign: Option<map<string, string>>)
    ensures Tabulate(samples, assign).Success?
    ensures var t := Tabulate(samples, assign).value.table;
      forall i :: 0 <= i < |t.body| ==> |t.body[i]| == |t.header|
  {
    TabulateTable(samples, assign);
  }

  /**
    Lines 64-82 on a table whose haplotypes and population names hold no tab:
    every line of the written file splits at its tabs into as many fields as
    the header. A sequence holding a tab breaks this (`TabbedCellAddsField`).
   */
  lemma TabulateFields(samples: Dict<string, string>, assign: Option<map<string, string>>)
    requires forall i :: 0 <= i < |samples| ==> '\t' !in samples[i].1
    requires assign.Some? ==> forall p :: p in assign.value.Values ==> '\t' !in p
    ensures Tabulate(samples, assign).Success?
    ensures var t := Tabulate(samples, assign).value.table;
      && |t.header| > 0 && (forall i :: 0 <= i < |t.body| ==> |t.body[i]| > 0)
      && |FileLines(t)| == |t.body| + 1
      && forall i :: 0 <= i < |FileLines(t)| ==> |TabFields(FileLines(t)[i])| == |t.header|
  {
    TabulateLineWidth(samples, assign);
    TableTabFree(samples, assign);
    TableFields(Tabulate(samples, assign).value.table);
  }

  /**
    `main` end to end, for a FASTA file whose records hold no tab: every line
    of the written file has as many tab-separated fields as the header.
   */
  lemma RunFields(fasta: seq<string>, popmap: Option<seq<string>>)
    requires forall i :: 0 <= i < |ReadFasta(fasta)| ==> '\t' !in ReadFasta(fasta)[i].sequence
    ensures Run(fasta, popmap).Success? ==>
      var t := Run(fasta, popmap).value.table;
      && |t.header| > 0 && (forall i :: 0 <= i < |t.body| ==> |t.body[i]| > 0)
      && forall i :: 0 <= i < |FileLines(t)| ==> |TabFields(FileLines(t)[i])| == |t.header|
  {
    if Assignments(popmap).Success? {
      var records := ReadFasta(fasta);
      var samples := SampleTable(records);
      SamplesTabFree(records);
      if popmap.Some? {
        PopulationsNoSpace(popmap.value);
        forall p | p in Assignments(popmap).value.value.Values ensures '\t' !in p {
          NoSpaceTabFree(p);
        }
      }
      TabulateFields(samples, Assignments(popmap).value);
    }
  }

  /** The sample table holds the records' sequences, so no tab when they hold none. */
  lemma SamplesTabFree(records: seq<Record>)
    requires forall i :: 0 <= i < |records| ==> '\t' !in records[i].sequence
    ensures forall i :: 0 <= i < |SampleTable(records)| ==> '\t' !in SampleTable(records)[i].1
  {
    var d := SampleTable(records);
    forall i | 0 <= i < |d| ensures '\t' !in d[i].1 {
      var j :| LastRecord(records, d[i].0, j) && d[i].1 == records[j].sequence;
    }
  }

  /** A tab is whitespace. */
  lemma NoSpaceTabFree(s: string)
    requires NoSpace(s)
    ensures '\t' !in s
  {
    forall k | 0 <= k < |s| ensures s[k] != '\t' {
      assert !IsSpace(s[k]);
    }
  }

  /** A table of equally wide lines without tabs is written as lines of that many fields. */
  lemma TableFields(t: Table)
    requires |t.header| > 0 && forall i :: 0 <= i < |t.body| ==> |t.body[i]| == |t.header|
    requires TabFree(t)
    ensures |FileLines(t)| == |t.body| + 1
    ensures forall i :: 0 <= i < |FileLines(t)| ==> |TabFields(FileLines(t)[i])| == |t.header|
  {
    FileLinesFields(t);
  }

  /** No cell of the tabulated table holds a tab. */
  lemma TableTabFree(samples: Dict<string, string>, assign: Option<map<string, string>>)
    requires forall i :: 0 <= i < |samples| ==> '\t' !in samples[i].1
    requires assign.Some? ==> forall p :: p in assign.value.Values ==> '\t' !in p
    ensures Tabulate(samples, assign).Success?
    ensures TabFree(Tabulate(samples, assign).value.table)
  {
    TabulateTable(samples, assign);
    KeysTabFree(samples, assign);
    HapsTabFree(samples);
    ShapeTabFree(Tabulate(samples, assign).value.table, Group(samples, assign).pops, Dedup(Values(samples)));
  }

  /** The distinct sample sequences hold no tab when no sample's sequence does. */
  lemma HapsTabFree(samples: Dict<string, string>)
    requires forall i :: 0 <= i < |samples| ==> '\t' !in samples[i].1
    ensures forall i :: 0 <= i < |Dedup(Values(samples))| ==> '\t' !in Dedup(Values(samples))[i]
  {
    var haps := Dedup(Values(samples));
    forall i | 0 <= i < |haps| ensures '\t' !in haps[i] {
      assert haps[i] in Values(samples);
      var k :| 0 <= k < |samples| && Values(samples)[k] == haps[i];
    }
  }

  /** A table laid out from tab-free keys and haplotypes holds no tab. */
  lemma ShapeTabFree(t: Table, pops: Dict<string, seq<string>>, haps: seq<string>)
    requires t.header == [HaplotypeColumn] + Keys(pops)
    requires forall j :: 0 <= j < |t.header| ==> '\t' !in t.header[j]
    requires |t.body| == |haps|
    requires forall i :: 0 <= i < |haps| ==> t.body[i] == [haps[i]] + CellsOf(pops, haps[i])
    requires forall i :: 0 <= i < |haps| ==> '\t' !in haps[i]
    ensures TabFree(t)
  {
    forall i, j | 0 <= i < |t.body| && 0 <= j < |t.body[i]|
      ensures '\t' !in t.body[i][j]
    {
      if j > 0 {
        assert t.body[i][j] == CellsOf(pops, haps[i])[j - 1];
        CellTextTabFree(Cell(pops, haps[i], pops[j - 1].0));
      }
    }
  }

  /** The header cells: "Haplotype", "TOTAL" and population names. */
  lemma KeysTabFree(samples: Dict<string, string>, assign: Option<map<string, string>>)
    requires assign.Some? ==> forall p :: p in assign.value.Values ==> '\t' !in p
    ensures var ks := [HaplotypeColumn] + Keys(Group(samples, assign).pops);
      forall j :: 0 <= j < |ks| ==> '\t' !in ks[j]
  {
    var g := Group(samples, assign);
    var ks := [HaplotypeColumn] + Keys(g.pops);
    match assign
    case None =>
      GroupWithoutPopmap(samples);
    case Some(m) =>
      GroupWithPopmap(samples, m);
      LabelsWithin(samples, m);
      forall j | 0 < j < |ks| ensures '\t' !in ks[j] {
        assert ks[j] in Dedup([Total] + Labels(samples, m));
      }
  }
}
