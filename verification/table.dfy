/**
  The frequency table (lines 44-83): `hapTotals` maps every distinct haplotype
  of "TOTAL" to a row, a row maps pops to the haplotype's frequency there;
  the table has a header naming the pops and one tab-separated line per row.
 */
module FreqTable {
  import opened Wrappers
  import opened OrderedDict
  import opened Counting

  /** `hapTotals[hap]`: the pops the haplotype occurs in, with its frequency. */
  type Row = Dict<string, Share>

  /** `hapTotals`. */
  type Rows = Dict<string, Row>

  /** The KeyErrors the table code can raise: a haplotype without a row, a missing group. */
  datatype TableError = MissingRow(hap: string) | MissingGroup(pop: string)

  /** Lines 44-46: an empty row for each distinct haplotype, in first-occurrence order. */
  function InitRows(haps: seq<string>): (rows: Rows)
    ensures Keys(rows) == Dedup(haps)
    ensures forall i :: 0 <= i < |rows| ==> rows[i].1 == []
  {
    if |haps| == 0 then []
    else
      var d := InitRows(haps[..|haps| - 1]);
      PutEmptyRow(d, haps, haps[|haps| - 1]);
      Put(d, haps[|haps| - 1], [])
  }

  /** Adding the last haplotype's empty row keeps the rows those of `InitRows`. */
  lemma PutEmptyRow(d: Rows, haps: seq<string>, h: string)
    requires |haps| > 0 && h == haps[|haps| - 1]
    requires Keys(d) == Dedup(haps[..|haps| - 1]) && forall i :: 0 <= i < |d| ==> d[i].1 == []
    ensures Keys(Put(d, h, [])) == Dedup(haps)
    ensures forall i :: 0 <= i < |Put(d, h, [])| ==> Put(d, h, [])[i].1 == []
  {
    DedupLast(haps);
  }

  /**
    Line 61, `hapTotals[key][pop] = f`: a KeyError when the haplotype has no
    row; otherwise only that row changes, gaining the pop's cell.
   */
  function FillOne(r: Rows, pop: string, hap: string, f: Share): (r': Result<Rows, TableError>)
    ensures r'.Success? <==> hap in Keys(r)
    ensures r'.Failure? ==> r'.error == MissingRow(hap)
    ensures r'.Success? ==> Keys(r'.value) == Keys(r)
    ensures r'.Success? ==>
      (forall k :: Lookup(r'.value, k) == if k == hap then Some(Put(Lookup(r, hap).value, pop, f)) else Lookup(r, k))
  {
    match Lookup(r, hap)
    case None => Failure(MissingRow(hap))
    case Some(row) => Success(Put(r, hap, Put(row, pop, f)))
  }

  /** Lines 58-61 for one pop: `hapTotals[key][pop] = f` for every counted haplotype, in order. */
  function Fill(rows: Rows, pop: string, fs: seq<(string, Share)>): Result<Rows, TableError> {
    if |fs| == 0 then Success(rows)
    else
      match Fill(rows, pop, fs[..|fs| - 1])
      case Failure(e) => Failure(e)
      case Success(r) => FillOne(r, pop, fs[|fs| - 1].0, fs[|fs| - 1].1)
  }

  /** `fs[i]` is the first entry whose haplotype has no row. */
  ghost predicate FirstMissing(haps: seq<string>, fs: seq<(string, Share)>, i: int) {
    0 <= i < |fs| && fs[i].0 !in haps && forall j :: 0 <= j < i ==> fs[j].0 in haps
  }

  /** Filling succeeds exactly when every counted haplotype has a row, and never adds or removes rows. */
  lemma {:induction false} FillOutcome(rows: Rows, pop: string, fs: seq<(string, Share)>)
    ensures Fill(rows, pop, fs).Success? <==> HaveRows(Keys(rows), fs)
    ensures Fill(rows, pop, fs).Success? ==> Keys(Fill(rows, pop, fs).value) == Keys(rows)
  {
    if |fs| > 0 {
      var n := |fs| - 1;
      var p := fs[..n];
      FillOutcome(rows, pop, p);
      HaveRowsLast(Keys(rows), fs);
      if Fill(rows, pop, p).Success? {
        var r := Fill(rows, pop, p).value;
        assert Fill(rows, pop, fs) == FillOne(r, pop, fs[n].0, fs[n].1);
      }
    }
  }

  /** Every counted haplotype has a row. */
  predicate HaveRows(haps: seq<string>, fs: seq<(string, Share)>) {
    forall i :: 0 <= i < |fs| ==> fs[i].0 in haps
  }

  lemma HaveRowsLast(haps: seq<string>, fs: seq<(string, Share)>)
    requires |fs| > 0
    ensures HaveRows(haps, fs) <==> HaveRows(haps, fs[..|fs| - 1]) && fs[|fs| - 1].0 in haps
  {
    assert forall i :: 0 <= i < |fs| - 1 ==> fs[..|fs| - 1][i] == fs[i];
  }

  /** A failed fill reports the first counted haplotype without a row. */
  lemma {:induction false} FillFailure(rows: Rows, pop: string, fs: seq<(string, Share)>)
    requires Fill(rows, pop, fs).Failure?
    ensures exists i :: FirstMissing(Keys(rows), fs, i) && Fill(rows, pop, fs).error == MissingRow(fs[i].0)
  {
    var n := |fs| - 1;
    var p := fs[..n];
    assert forall i :: 0 <= i < n ==> p[i] == fs[i];
    if Fill(rows, pop, p).Failure? {
      FillFailure(rows, pop, p);
      var i :| FirstMissing(Keys(rows), p, i) && Fill(rows, pop, p).error == MissingRow(p[i].0);
      assert FirstMissing(Keys(rows), fs, i);
    } else {
      FillOutcome(rows, pop, p);
      assert FirstMissing(Keys(rows), fs, n);
    }
  }

  /** A row after one pop's cell is set, if the haplotype has a frequency there. */
  function SetCell(row: Row, pop: string, f: Option<Share>): Row {
    match f
    case None => row
    case Some(v) => Put(row, pop, v)
  }

  /** One step of filling: the row of the new haplotype gets its cell, the other rows stay. */
  lemma FillLast(rows: Rows, pop: string, fs: Dict<string, Share>, hap: string)
    requires |fs| > 0
    requires Distinct(Keys(fs[..|fs| - 1]))
    requires Fill(rows, pop, fs[..|fs| - 1]).Success?
    requires forall k :: Lookup(Fill(rows, pop, fs[..|fs| - 1]).value, k) == match Lookup(rows, k)
      case None => None
      case Some(row) => Some(SetCell(row, pop, Lookup(fs[..|fs| - 1], k)))
    requires Fill(rows, pop, fs).Success?
    ensures Lookup(Fill(rows, pop, fs).value, hap) == match Lookup(rows, hap)
      case None => None
      case Some(row) => Some(SetCell(row, pop, Lookup(fs, hap)))
  {
    var n := |fs| - 1;
    var (h, f) := fs[n];
    var r := Fill(rows, pop, fs[..n]).value;
    assert Fill(rows, pop, fs) == FillOne(r, pop, h, f);
    LookupLast(fs, hap);
  }

  /** Filling sets, in each haplotype's row, this pop's cell to the haplotype's frequency. */
  lemma {:induction false} FillCells(rows: Rows, pop: string, fs: Dict<string, Share>)
    requires Fill(rows, pop, fs).Success?
    ensures forall hap :: Lookup(Fill(rows, pop, fs).value, hap) == match Lookup(rows, hap)
      case None => None
      case Some(row) => Some(SetCell(row, pop, Lookup(fs, hap)))
  {
    if |fs| == 0 {
      forall hap
        ensures Lookup(Fill(rows, pop, fs).value, hap) == match Lookup(rows, hap)
          case None => None
          case Some(row) => Some(SetCell(row, pop, Lookup(fs, hap)))
      {
        assert Lookup(fs, hap) == None;
      }
    } else {
      var n := |fs| - 1;
      PrefixIsDict(fs, n);
      var p: Dict<string, Share> := fs[..n];
      FillCells(rows, pop, p);
      FillOutcome(rows, pop, p);
      forall hap
        ensures Lookup(Fill(rows, pop, fs).value, hap) == match Lookup(rows, hap)
          case None => None
          case Some(row) => Some(SetCell(row, pop, Lookup(fs, hap)))
      {
        FillLast(rows, pop, fs, hap);
      }
    }
  }

  /** Lines 48-61: filling the rows pop by pop with each group's frequencies. */
  function FillAll(rows: Rows, pops: seq<(string, seq<string>)>): Result<Rows, TableError> {
    if |pops| == 0 then Success(rows)
    else
      match FillAll(rows, pops[..|pops| - 1])
      case Failure(e) => Failure(e)
      case Success(r) => Fill(r, pops[|pops| - 1].0, Frequencies(pops[|pops| - 1].1))
  }

  /** Every haplotype of the group `g` has a row. */
  ghost predicate Covers(haps: seq<string>, g: seq<string>) {
    forall h :: h in g ==> h in haps
  }

  /** Every haplotype of every group has a row. */
  ghost predicate CoversAll(haps: seq<string>, pops: seq<(string, seq<string>)>) {
    forall i :: 0 <= i < |pops| ==> Covers(haps, pops[i].1)
  }

  /** The counted haplotypes of a group are its haplotypes. */
  lemma FrequenciesCover(haps: seq<string>, g: seq<string>)
    ensures HaveRows(haps, Frequencies(g)) <==> Covers(haps, g)
  {
    var fs := Frequencies(g);
    assert forall h :: h in g <==> h in Keys(fs);
    if !Covers(haps, g) {
      var h :| h in g && h !in haps;
      var j := IndexOf(Keys(fs), h);
      assert fs[j].0 == h;
    }
  }

  /** One more group: the previous ones covered and this one too. */
  lemma CoversAllLast(haps: seq<string>, pops: seq<(string, seq<string>)>)
    requires |pops| > 0
    ensures CoversAll(haps, pops) <==> CoversAll(haps, pops[..|pops| - 1]) && Covers(haps, pops[|pops| - 1].1)
  {
    assert forall i :: 0 <= i < |pops| - 1 ==> pops[..|pops| - 1][i] == pops[i];
  }

  /**
    The table fills without a KeyError exactly when every haplotype of every
    group has a row; a failure names a haplotype of some group without one.
   */
  lemma {:induction false} FillAllOutcome(rows: Rows, pops: seq<(string, seq<string>)>)
    ensures FillAll(rows, pops).Success? <==> CoversAll(Keys(rows), pops)
    ensures FillAll(rows, pops).Success? ==> Keys(FillAll(rows, pops).value) == Keys(rows)
    ensures FillAll(rows, pops).Failure? ==> exists i ::
      0 <= i < |pops| && FillAll(rows, pops).error.MissingRow? &&
      FillAll(rows, pops).error.hap in pops[i].1 && FillAll(rows, pops).error.hap !in Keys(rows)
  {
    if |pops| > 0 {
      var n := |pops| - 1;
      var p := pops[..n];
      FillAllOutcome(rows, p);
      CoversAllLast(Keys(rows), pops);
      if FillAll(rows, p).Success? {
        FillAllLast(rows, pops);
      } else {
        var i :| 0 <= i < n && FillAll(rows, p).error.MissingRow? &&
          FillAll(rows, p).error.hap in p[i].1 && FillAll(rows, p).error.hap !in Keys(rows);
        assert p[i] == pops[i];
      }
    }
  }

  /** The last group's step, once the previous groups filled without error. */
  lemma FillAllLast(rows: Rows, pops: seq<(string, seq<string>)>)
    requires |pops| > 0
    requires FillAll(rows, pops[..|pops| - 1]).Success?
    requires Keys(FillAll(rows, pops[..|pops| - 1]).value) == Keys(rows)
    ensures FillAll(rows, pops).Success? <==> Covers(Keys(rows), pops[|pops| - 1].1)
    ensures FillAll(rows, pops).Success? ==> Keys(FillAll(rows, pops).value) == Keys(rows)
    ensures FillAll(rows, pops).Failure? ==>
      FillAll(rows, pops).error.MissingRow? &&
      FillAll(rows, pops).error.hap in pops[|pops| - 1].1 && FillAll(rows, pops).error.hap !in Keys(rows)
  {
    var n := |pops| - 1;
    var r := FillAll(rows, pops[..n]).value;
    var g := pops[n].1;
    var fs := Frequencies(g);
    assert FillAll(rows, pops) == Fill(r, pops[n].0, fs);
    FillOutcome(r, pops[n].0, fs);
    FrequenciesCover(Keys(rows), g);
    if Fill(r, pops[n].0, fs).Failure? {
      FillFailure(r, pops[n].0, fs);
      var i :| FirstMissing(Keys(r), fs, i) && Fill(r, pops[n].0, fs).error == MissingRow(fs[i].0);
      assert Keys(fs)[i] == fs[i].0;
    }
  }

  /** The reference row of a haplotype: the cells set by the groups in `pops`, in order. */
  function RowOf(row: Row, hap: string, pops: seq<(string, seq<string>)>): Row {
    if |pops| == 0 then row
    else SetCell(RowOf(row, hap, pops[..|pops| - 1]), pops[|pops| - 1].0, Lookup(Frequencies(pops[|pops| - 1].1), hap))
  }

  /** Every row of the filled table is its haplotype's reference row. */
  lemma {:induction false} FillAllCells(rows: Rows, pops: seq<(string, seq<string>)>)
    requires FillAll(rows, pops).Success?
    ensures forall hap :: Lookup(FillAll(rows, pops).value, hap) == match Lookup(rows, hap)
      case None => None
      case Some(row) => Some(RowOf(row, hap, pops))
  {
    if |pops| > 0 {
      var n := |pops| - 1;
      FillAllCells(rows, pops[..n]);
      FillCells(FillAll(rows, pops[..n]).value, pops[n].0, Frequencies(pops[n].1));
    }
  }

  /**
    The cell of `hap` in column `pop`: the haplotype's frequency in that pop's
    group, or nothing when the group lacks it or there is no such group.
   */
  function Cell(pops: Dict<string, seq<string>>, hap: string, pop: string): Option<Share> {
    match Lookup(pops, pop)
    case None => None
    case Some(g) => if hap in g then Some(Frequency(multiset(g)[hap], |g|)) else None
  }

  /** Looking a pop up after its cell may have been set. */
  lemma LookupSetCell(row: Row, pop: string, f: Option<Share>, q: string)
    ensures Lookup(SetCell(row, pop, f), q) == if q == pop && f.Some? then f else Lookup(row, q)
  {
  }

  /** Starting from an empty row, a haplotype's row holds exactly its cells. */
  lemma {:induction false} RowOfCells(hap: string, pops: Dict<string, seq<string>>, pop: string)
    ensures Lookup(RowOf([], hap, pops), pop) == Cell(pops, hap, pop)
  {
    if |pops| > 0 {
      var n := |pops| - 1;
      CellLast(pops, hap, pop);
      var p: Dict<string, seq<string>> := pops[..n];
      var row := RowOf([], hap, p);
      var o := Lookup(Frequencies(pops[n].1), hap);
      assert RowOf([], hap, pops) == SetCell(row, pops[n].0, o);
      RowOfCells(hap, p, pop);
      LookupSetCell(row, pops[n].0, o, pop);
    }
  }

  /** The cells of the last group, or else those of the groups before it. */
  lemma CellLast(pops: Dict<string, seq<string>>, hap: string, pop: string)
    requires |pops| > 0
    ensures Distinct(Keys(pops[..|pops| - 1]))
    ensures Cell(pops, hap, pop) == if pop == pops[|pops| - 1].0 then Lookup(Frequencies(pops[|pops| - 1].1), hap)
      else Cell(pops[..|pops| - 1], hap, pop)
    ensures Cell(pops[..|pops| - 1], hap, pops[|pops| - 1].0) == None
  {
    LookupLast(pops, pop);
    if pop == pops[|pops| - 1].0 {
      FrequencyOf(pops[|pops| - 1].1, hap);
    }
  }

  /** The text of a cell: the four-decimal frequency, or `str(0.0000)`. */
  function CellText(c: Option<Share>): string {
    match c
    case None => ZeroCell
    case Some(f) => Format(f)
  }

  /** The table as cells: a header and one line per haplotype row. */
  datatype Table = Table(header: seq<string>, body: seq<seq<string>>)

  /** The title of the first column. */
  const HaplotypeColumn := "Haplotype"

  /** Lines 75-81: the haplotype followed by one cell per pop, in `popOrder`. */
  function RowCells(hap: string, row: Row, popOrder: seq<string>): seq<string> {
    [hap] + seq(|popOrder|, j requires 0 <= j < |popOrder| => CellText(Lookup(row, popOrder[j])))
  }

  /** Lines 67-82: the header and the rows, in the order of `hapTotals`. */
  function BuildTable(popOrder: seq<string>, rows: Rows): Table {
    Table([HaplotypeColumn] + popOrder, seq(|rows|, i requires 0 <= i < |rows| => RowCells(rows[i].0, rows[i].1, popOrder)))
  }

  /** `a + "\t" + b + ...`: the cells joined by a separator. */
  function Join(cells: seq<string>, sep: char): string
    requires |cells| > 0
  {
    if |cells| == 1 then cells[0] else Join(cells[..|cells| - 1], sep) + [sep] + cells[|cells| - 1]
  }

  /** One line of the output file: the cells separated by tabs, then a newline. */
  function TabbedLine(cells: seq<string>): string
    requires |cells| > 0
  {
    Join(cells, '\t') + "\n"
  }

  /** The lines written to the output file, header first. */
  function FileLines(t: Table): seq<string>
    requires |t.header| > 0
    requires forall i :: 0 <= i < |t.body| ==> |t.body[i]| > 0
  {
    [TabbedLine(t.header)] + seq(|t.body|, i requires 0 <= i < |t.body| => TabbedLine(t.body[i]))
  }

  /** Splitting a line at every separator (`str.split(sep)`). */
  function Split(s: string, sep: char): (parts: seq<string>)
    ensures |parts| > 0
  {
    if |s| == 0 then [""]
    else
      var parts := Split(s[..|s| - 1], sep);
      var c := s[|s| - 1];
      if c == sep then parts + [""]
      else parts[..|parts| - 1] + [parts[|parts| - 1] + [c]]
  }

  /** A text without the separator is one part. */
  lemma {:induction false} SplitNone(s: string, sep: char)
    requires sep !in s
    ensures Split(s, sep) == [s]
  {
    if |s| > 0 {
      SplitNone(s[..|s| - 1], sep);
      assert s[..|s| - 1] + [s[|s| - 1]] == s;
    }
  }

  /** A separator followed by a text without one adds that text as a last part. */
  lemma {:induction false} SplitAfter(x: string, c: string, sep: char)
    requires sep !in c
    ensures Split(x + [sep] + c, sep) == Split(x, sep) + [c]
  {
    if |c| == 0 {
      assert x + [sep] + c == x + [sep];
      assert (x + [sep])[..|x|] == x;
    } else {
      var c' := c[..|c| - 1];
      var s := x + [sep] + c;
      assert s[..|s| - 1] == x + [sep] + c';
      SplitAfter(x, c', sep);
      assert c' + [c[|c| - 1]] == c;
    }
  }

  /** Splitting a joined line gives the cells back when no cell holds the separator. */
  lemma {:induction false} SplitJoin(cells: seq<string>, sep: char)
    requires |cells| > 0
    requires forall i :: 0 <= i < |cells| ==> sep !in cells[i]
    ensures Split(Join(cells, sep), sep) == cells
  {
    if |cells| == 1 {
      SplitNone(cells[0], sep);
    } else {
      var n := |cells| - 1;
      SplitJoin(cells[..n], sep);
      SplitAfter(Join(cells[..n], sep), cells[n], sep);
      assert cells[..n] + [cells[n]] == cells;
    }
  }

  /** The fields of a written line: the text before its newline, split at tabs. */
  function TabFields(line: string): seq<string> {
    if |line| > 0 && line[|line| - 1] == '\n' then Split(line[..|line| - 1], '\t') else Split(line, '\t')
  }

  /** No cell of the table holds a tab. */
  predicate TabFree(t: Table) {
    && (forall j :: 0 <= j < |t.header| ==> '\t' !in t.header[j])
    && (forall i, j :: 0 <= i < |t.body| && 0 <= j < |t.body[i]| ==> '\t' !in t.body[i][j])
  }

  /** A written line reads back as the cells it was written from when none holds a tab. */
  lemma LineFields(cells: seq<string>)
    requires |cells| > 0 && forall j :: 0 <= j < |cells| ==> '\t' !in cells[j]
    ensures TabFields(TabbedLine(cells)) == cells
  {
    var j := Join(cells, '\t');
    assert TabbedLine(cells)[..|j|] == j;
    SplitJoin(cells, '\t');
  }

  /**
    Lines 67-82 write a tab-separated file: one line for the header and one
    per row, and each line reads back as its cells when no cell holds a tab.
   */
  lemma FileLinesFields(t: Table)
    requires |t.header| > 0 && forall i :: 0 <= i < |t.body| ==> |t.body[i]| > 0
    requires TabFree(t)
    ensures |FileLines(t)| == |t.body| + 1
    ensures TabFields(FileLines(t)[0]) == t.header
    ensures forall i :: 0 < i < |FileLines(t)| ==> TabFields(FileLines(t)[i]) == t.body[i - 1]
  {
    LineFields(t.header);
    forall i | 0 < i < |FileLines(t)|
      ensures TabFields(FileLines(t)[i]) == t.body[i - 1]
    {
      BodyLine(t, i);
      LineFields(t.body[i - 1]);
    }
  }

  lemma BodyLine(t: Table, i: nat)
    requires |t.header| > 0 && forall i :: 0 <= i < |t.body| ==> |t.body[i]| > 0
    requires 0 < i <= |t.body|
    ensures FileLines(t)[i] == TabbedLine(t.body[i - 1])
  {
  }

  /** How often `sep` occurs in the cells, all together. */
  function Occurrences(cells: seq<string>, sep: char): nat {
    if |cells| == 0 then 0 else Occurrences(cells[..|cells| - 1], sep) + multiset(cells[|cells| - 1])[sep]
  }

  /** Every separator ends a part, so there is one part more than separators. */
  lemma {:induction false} SplitCount(s: string, sep: char)
    ensures |Split(s, sep)| == multiset(s)[sep] + 1
  {
    if |s| > 0 {
      var p := s[..|s| - 1];
      SplitCount(p, sep);
      assert s == p + [s[|s| - 1]];
    }
  }

  /** A joined line holds the separators of its cells and one between each two. */
  lemma {:induction false} JoinCount(cells: seq<string>, sep: char)
    requires |cells| > 0
    ensures multiset(Join(cells, sep))[sep] == |cells| - 1 + Occurrences(cells, sep)
  {
    if |cells| > 1 {
      var n := |cells| - 1;
      JoinCount(cells[..n], sep);
      assert cells[..n][..n - 1] == cells[..n - 1];
    } else {
      assert cells[..0] == [];
    }
  }

  /**
    Lines 75-82 write each cell as it is, so every tab inside a cell adds one
    field to its line: the line has as many fields as cells plus tabs in them.
   */
  lemma LineFieldCount(cells: seq<string>)
    requires |cells| > 0
    ensures |TabFields(TabbedLine(cells))| == |cells| + Occurrences(cells, '\t')
  {
    var j := Join(cells, '\t');
    assert TabbedLine(cells)[..|j|] == j;
    SplitCount(j, '\t');
    JoinCount(cells, '\t');
  }

  /** For example, a cell `A<tab>C` reads back as two fields, so its line gains one. */
  lemma TabbedCellAddsField()
    ensures TabFields(TabbedLine(["A\tC", "1.0000"])) == ["A", "C", "1.0000"]
  {
    var j := "A\tC" + ['\t'] + "1.0000";
    assert Split(j, '\t') == ["A", "C", "1.0000"] by {
      SplitNone("A", '\t');
      SplitAfter("A", "C", '\t');
      assert "A\tC" == "A" + ['\t'] + "C";
      SplitAfter("A\tC", "1.0000", '\t');
    }
    assert TabbedLine(["A\tC", "1.0000"]) == j + "\n" by {
      assert Join(["A\tC", "1.0000"], '\t') == j;
    }
    assert (j + "\n")[..|j|] == j;
  }

  /** Digits and the decimal point are not tabs, so no cell text holds one. */
  lemma CellTextTabFree(c: Option<Share>)
    ensures '\t' !in CellText(c)
  {
    if c.Some? {
      var n := RoundHalfEven(10000 * c.value.count, c.value.total);
      var a := Decimal(n / 10000);
      var b := FourDigits(n % 10000);
      DigitsTabFree(a);
      DigitsTabFree(b);
    }
  }

  lemma DigitsTabFree(s: string)
    requires AllDigits(s)
    ensures '\t' !in s
  {
    forall k | 0 <= k < |s| ensures s[k] != '\t' {
      assert IsDigit(s[k]);
    }
  }
}
