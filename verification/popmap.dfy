/**
  The population map parser (`parsePopmap`): each non-blank line names a
  sample and its population label; later lines override earlier ones.
 */
module Popmap {
  import opened Wrappers
  import opened Text

  /** A non-blank line with fewer than two fields: `stuff[1]` raises IndexError. */
  datatype PopmapError = MissingLabel(line: nat)

  /** What one line of the file is. */
  datatype Entry = Skip | Bad | Assign(sample: string, population: string)

  /** The whitespace-separated fields of a line, after stripping it. */
  function Fields(line: string): seq<string> {
    Tokens(Strip(line))
  }

  /**
    Blank lines are skipped; otherwise the first two fields are the sample and
    its label, and any further fields are ignored.
   */
  function EntryOf(line: string): (e: Entry)
    ensures e.Skip? <==> AllSpace(line)
    ensures e.Bad? <==> !AllSpace(line) && |Fields(line)| < 2
    ensures e.Assign? ==> |Fields(line)| >= 2 && e.sample == Fields(line)[0] && e.population == Fields(line)[1]
  {
    var l := Strip(line);
    if l == "" then Skip
    else
      var stuff := Tokens(l);
      if |stuff| < 2 then Bad else Assign(stuff[0], stuff[1])
  }

  /** Entry `e` assigns sample `k` to a population. */
  predicate Defines(e: Entry, k: string) {
    e.Assign? && e.sample == k
  }

  /** The entry for `k` is set by line `i` and by no later line. */
  ghost predicate LastDefinition(es: seq<Entry>, k: string, i: int) {
    0 <= i < |es| && Defines(es[i], k)
    && forall j :: i < j < |es| ==> !Defines(es[j], k)
  }

  /** What the parse of `es` is when it succeeds with `m`. */
  ghost predicate Parsed(es: seq<Entry>, m: map<string, string>) {
    && (forall k :: k in m <==> exists i :: 0 <= i < |es| && Defines(es[i], k))
    && (forall k :: k in m ==> exists i :: LastDefinition(es, k, i) && m[k] == es[i].population)
  }

  /**
    The loop of `parsePopmap` over already classified lines: the map of the
    assignments, or the index of the first line without a label field.
   */
  function ParseEntries(es: seq<Entry>): (r: Result<map<string, string>, PopmapError>)
    ensures r.Failure? <==> exists i :: 0 <= i < |es| && es[i].Bad?
    ensures r.Failure? ==>
      && r.error.line < |es| && es[r.error.line].Bad?
      && forall j :: 0 <= j < r.error.line ==> !es[j].Bad?
    ensures r.Success? ==> Parsed(es, r.value)
  {
    if |es| == 0 then Success(map[])
    else
      var p := es[..|es| - 1];
      var e := es[|es| - 1];
      assert forall i :: 0 <= i < |p| ==> p[i] == es[i];
      assert p + [e] == es;
      match ParseEntries(p)
      case Failure(err) => Failure(err)
      case Success(m) =>
        match e
        case Skip =>
          ParsedSkip(p, e, m);
          Success(m)
        case Bad => Failure(MissingLabel(|es| - 1))
        case Assign(k, v) =>
          ParsedAssign(p, e, m);
          Success(m[k := v])
  }

  lemma ParsedSkip(p: seq<Entry>, e: Entry, m: map<string, string>)
    requires Parsed(p, m) && e.Skip?
    ensures Parsed(p + [e], m)
  {
    var es := p + [e];
    assert forall i :: 0 <= i < |p| ==> es[i] == p[i];
    forall k | k in m
      ensures exists i :: LastDefinition(es, k, i) && m[k] == es[i].population
    {
      var i :| LastDefinition(p, k, i) && m[k] == p[i].population;
      assert LastDefinition(es, k, i);
    }
  }

  lemma ParsedAssign(p: seq<Entry>, e: Entry, m: map<string, string>)
    requires Parsed(p, m) && e.Assign?
    ensures Parsed(p + [e], m[e.sample := e.population])
  {
    var es := p + [e];
    var m' := m[e.sample := e.population];
    assert forall i :: 0 <= i < |p| ==> es[i] == p[i];
    assert LastDefinition(es, e.sample, |p|);
    forall k | k in m'
      ensures exists i :: LastDefinition(es, k, i) && m'[k] == es[i].population
    {
      if k != e.sample {
        var i :| LastDefinition(p, k, i) && m[k] == p[i].population;
        assert LastDefinition(es, k, i);
      }
    }
  }

  /** Every line of the file, classified. */
  function EntriesOf(lines: seq<string>): (es: seq<Entry>)
    ensures |es| == |lines|
    ensures forall i :: 0 <= i < |lines| ==> es[i] == EntryOf(lines[i])
  {
    seq(|lines|, i requires 0 <= i < |lines| => EntryOf(lines[i]))
  }

  /**
    `parsePopmap`: the sample-to-population map of the file's lines. It fails,
    at the first such line, exactly when a non-blank line has a single field.
   */
  function ParsePopmap(lines: seq<string>): (r: Result<map<string, string>, PopmapError>)
    ensures r.Failure? <==> exists i :: 0 <= i < |lines| && EntryOf(lines[i]).Bad?
    ensures r.Failure? ==>
      && r.error.line < |lines| && EntryOf(lines[r.error.line]).Bad?
      && forall j :: 0 <= j < r.error.line ==> !EntryOf(lines[j]).Bad?
    ensures r.Success? ==> Parsed(EntriesOf(lines), r.value)
  {
    var es := EntriesOf(lines);
    var r := ParseEntries(es);
    assert r.Failure? ==> es[r.error.line] == EntryOf(lines[r.error.line]);
    r
  }

  /** A well-formed line overrides whatever the earlier lines said about its sample. */
  lemma LastLineWins(lines: seq<string>, line: string)
    requires ParsePopmap(lines).Success? && EntryOf(line).Assign?
    ensures ParsePopmap(lines + [line]) ==
      Success(ParsePopmap(lines).value[EntryOf(line).sample := EntryOf(line).population])
  {
    var es := EntriesOf(lines + [line]);
    assert es[..|es| - 1] == EntriesOf(lines);
  }

  /** A blank line changes nothing. */
  lemma BlankLineSkipped(lines: seq<string>, line: string)
    requires AllSpace(line)
    ensures ParsePopmap(lines + [line]) == ParsePopmap(lines)
  {
    var es := EntriesOf(lines + [line]);
    assert es[..|es| - 1] == EntriesOf(lines);
  }

  /** A population name is a field of its line, so it holds no whitespace. */
  lemma PopulationsNoSpace(lines: seq<string>)
    ensures ParsePopmap(lines).Success? ==>
      forall p :: p in ParsePopmap(lines).value.Values ==> NoSpace(p)
  {
    if ParsePopmap(lines).Success? {
      EntriesNoSpace(lines);
      ParsedNoSpace(EntriesOf(lines), ParsePopmap(lines).value);
    }
  }

  lemma EntriesNoSpace(lines: seq<string>)
    ensures forall i :: 0 <= i < |EntriesOf(lines)| && EntriesOf(lines)[i].Assign? ==> NoSpace(EntriesOf(lines)[i].population)
  {
    forall i | 0 <= i < |lines| && EntriesOf(lines)[i].Assign?
      ensures NoSpace(EntriesOf(lines)[i].population)
    {
      var e := EntryOf(lines[i]);
      assert e.population == Fields(lines[i])[1];
    }
  }

  lemma ParsedNoSpace(es: seq<Entry>, m: map<string, string>)
    requires Parsed(es, m)
    requires forall i :: 0 <= i < |es| && es[i].Assign? ==> NoSpace(es[i].population)
    ensures forall p :: p in m.Values ==> NoSpace(p)
  {
    forall p | p in m.Values ensures NoSpace(p) {
      var k :| k in m && m[k] == p;
      var i :| LastDefinition(es, k, i) && m[k] == es[i].population;
    }
  }
}
