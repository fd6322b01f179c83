/**
  From records to populations: the sample table `seqs` (identifier to
  sequence, last record wins) and the population groups `pops` (pop to the
  list of sequences of the samples assigned to it, plus the synthetic "TOTAL").
 */
module Grouping {
  import opened Wrappers
  import opened OrderedDict
  import opened Fasta

  /** The reserved pop of the group that holds every sample. */
  const Total := "TOTAL"

  /** The record with identifier `k` that is the last one with that identifier. */
  ghost predicate LastRecord(records: seq<Record>, k: string, j: int) {
    0 <= j < |records| && records[j].id == k
    && forall l :: j < l < |records| ==> records[l].id != k
  }

  /** Every entry of `d` holds the sequence of the last record with its identifier. */
  ghost predicate LastValues(records: seq<Record>, d: seq<(string, string)>) {
    forall i :: 0 <= i < |d| ==> exists j :: LastRecord(records, d[i].0, j) && d[i].1 == records[j].sequence
  }

  /**
    `seqs[f[0]] = f[1]` for every record: one entry per distinct identifier,
    in first-seen order, holding the sequence of that identifier's last record.
   */
  function SampleTable(records: seq<Record>): (d: Dict<string, string>)
    ensures Keys(d) == Dedup(Ids(records))
    ensures LastValues(records, d)
  {
    if |records| == 0 then []
    else
      var p := records[..|records| - 1];
      var r := records[|records| - 1];
      var d := SampleTable(p);
      var d' := Put(d, r.id, r.sequence);
      SampleTableKeys(records, d, d');
      SampleTableValues(records, d, d');
      d'
  }

  lemma SampleTableKeys(records: seq<Record>, d: Dict<string, string>, d': Dict<string, string>)
    requires |records| > 0
    requires Keys(d) == Dedup(Ids(records[..|records| - 1]))
    requires d' == Put(d, records[|records| - 1].id, records[|records| - 1].sequence)
    ensures Keys(d') == Dedup(Ids(records))
  {
    var n := |records|;
    assert Ids(records)[..n - 1] == Ids(records[..n - 1]);
    DedupLast(Ids(records));
  }

  lemma SampleTableValues(records: seq<Record>, d: Dict<string, string>, d': Dict<string, string>)
    requires |records| > 0
    requires LastValues(records[..|records| - 1], d)
    requires d' == Put(d, records[|records| - 1].id, records[|records| - 1].sequence)
    ensures LastValues(records, d')
  {
    var n := |records|;
    var r := records[n - 1];
    forall i | 0 <= i < |d'|
      ensures exists j :: LastRecord(records, d'[i].0, j) && d'[i].1 == records[j].sequence
    {
      if d'[i].0 == r.id {
        assert LastRecord(records, r.id, n - 1);
      } else {
        var j :| LastRecord(records[..n - 1], d[i].0, j) && d[i].1 == records[j].sequence;
        LastRecordExtend(records, d[i].0, j);
      }
    }
  }

  lemma LastRecordExtend(records: seq<Record>, k: string, j: int)
    requires |records| > 0 && records[|records| - 1].id != k
    requires LastRecord(records[..|records| - 1], k, j)
    ensures LastRecord(records, k, j)
  {
  }

  /** The population groups and the samples missing from the population map. */
  datatype Groups = Groups(pops: Dict<string, seq<string>>, unmapped: seq<string>)

  /** The labels of the mapped samples, in sample order, repeats included. */
  function Labels(samples: seq<(string, string)>, assign: map<string, string>): seq<string> {
    if |samples| == 0 then []
    else
      var id := samples[|samples| - 1].0;
      Labels(samples[..|samples| - 1], assign) + (if id in assign then [assign[id]] else [])
  }

  /** The sequences of the samples mapped to `pop`, in sample order. */
  function Members(samples: seq<(string, string)>, assign: map<string, string>, pop: string): seq<string> {
    if |samples| == 0 then []
    else
      var (id, s) := samples[|samples| - 1];
      Members(samples[..|samples| - 1], assign, pop)
        + (if id in assign && assign[id] == pop then [s] else [])
  }

  /** The identifiers of the samples missing from the map, in sample order. */
  function Unmapped(samples: seq<(string, string)>, assign: map<string, string>): seq<string> {
    if |samples| == 0 then []
    else
      var id := samples[|samples| - 1].0;
      Unmapped(samples[..|samples| - 1], assign) + (if id !in assign then [id] else [])
  }

  /** What a group starts with: all sequences for "TOTAL", nothing for the others. */
  function Base(all: seq<string>, pop: string): seq<string> {
    if pop == Total then all else []
  }

  /** The group map invariant after the samples `samples` have been distributed. */
  ghost predicate Distributed(g: Groups, all: seq<string>, samples: seq<(string, string)>, assign: map<string, string>) {
    && Keys(g.pops) == Dedup([Total] + Labels(samples, assign))
    && (forall i :: 0 <= i < |g.pops| ==>
          g.pops[i].1 == Base(all, g.pops[i].0) + Members(samples, assign, g.pops[i].0))
    && g.unmapped == Unmapped(samples, assign)
  }

  /** One iteration of the loop over `seqs` (lines 31-41). */
  function AddSample(g: Groups, assign: map<string, string>, id: string, s: string): Groups {
    if id in assign then
      var pop := assign[id];
      match Lookup(g.pops, pop)
      case Some(xs) => g.(pops := Put(g.pops, pop, xs + [s]))
      case None => g.(pops := Put(g.pops, pop, [s]))
    else g.(unmapped := g.unmapped + [id])
  }

  /** Distributing the samples, in order, starting from the groups `init`. */
  function Distribute(init: Groups, samples: seq<(string, string)>, assign: map<string, string>): Groups {
    if |samples| == 0 then init
    else
      var (id, s) := samples[|samples| - 1];
      AddSample(Distribute(init, samples[..|samples| - 1], assign), assign, id, s)
  }

  /** A pop no sample is mapped to has no members. */
  lemma {:induction false} NoLabelNoMembers(samples: seq<(string, string)>, assign: map<string, string>, pop: string)
    requires pop !in Labels(samples, assign)
    ensures Members(samples, assign, pop) == []
  {
    if |samples| > 0 {
      NoLabelNoMembers(samples[..|samples| - 1], assign, pop);
    }
  }

  /** Keys(pops) order: a new label is appended, a known one stays where it is. */
  lemma DedupSnoc(ls: seq<string>, x: string)
    ensures Dedup(ls + [x]) == if x in Dedup(ls) then Dedup(ls) else Dedup(ls) + [x]
  {
    assert (ls + [x])[..|ls|] == ls;
  }

  lemma DistributedUnmapped(g: Groups, all: seq<string>, samples: seq<(string, string)>, assign: map<string, string>)
    requires |samples| > 0 && samples[|samples| - 1].0 !in assign
    requires Distributed(g, all, samples[..|samples| - 1], assign)
    ensures Distributed(g.(unmapped := g.unmapped + [samples[|samples| - 1].0]), all, samples, assign)
  {
    var p := samples[..|samples| - 1];
    assert Labels(samples, assign) == Labels(p, assign);
    assert forall l :: Members(samples, assign, l) == Members(p, assign, l);
  }

  /** A mapped sample's sequence is appended to its label's group, created if need be. */
  lemma AddMapped(g: Groups, assign: map<string, string>, id: string, s: string, xs: seq<string>)
    requires id in assign
    requires Lookup(g.pops, assign[id]).Some? ==> Lookup(g.pops, assign[id]).value == xs
    requires Lookup(g.pops, assign[id]).None? ==> xs == []
    ensures AddSample(g, assign, id, s) == g.(pops := Put(g.pops, assign[id], xs + [s]))
  {
    assert [] + [s] == [s];
  }

  /** The last sample adds its sequence to its own label's members and to no other. */
  lemma MembersSnoc(samples: seq<(string, string)>, assign: map<string, string>, l: string)
    requires |samples| > 0
    ensures var (id, s) := samples[|samples| - 1];
      Members(samples, assign, l) == Members(samples[..|samples| - 1], assign, l)
        + (if id in assign && assign[id] == l then [s] else [])
  {
  }

  lemma SnocGroup(b: seq<string>, m: seq<string>, m': seq<string>, s: string)
    requires m' == m + [s]
    ensures b + m' == (b + m) + [s]
  {
  }

  /** The values half of the invariant after a mapped sample's sequence is added. */
  lemma MappedValues(pops: Dict<string, seq<string>>, all: seq<string>, samples: seq<(string, string)>, assign: map<string, string>)
    requires |samples| > 0 && samples[|samples| - 1].0 in assign
    requires forall i :: 0 <= i < |pops| ==>
      pops[i].1 == Base(all, pops[i].0) + Members(samples[..|samples| - 1], assign, pops[i].0)
    ensures var (id, s) := samples[|samples| - 1];
      var pops' := Put(pops, assign[id], Base(all, assign[id]) + Members(samples[..|samples| - 1], assign, assign[id]) + [s]);
      forall i :: 0 <= i < |pops'| ==> pops'[i].1 == Base(all, pops'[i].0) + Members(samples, assign, pops'[i].0)
  {
    var p := samples[..|samples| - 1];
    var (id, s) := samples[|samples| - 1];
    var pop := assign[id];
    var xs := Base(all, pop) + Members(p, assign, pop);
    var pops' := Put(pops, pop, xs + [s]);
    forall i | 0 <= i < |pops'|
      ensures pops'[i].1 == Base(all, pops'[i].0) + Members(samples, assign, pops'[i].0)
    {
      var (l, v) := pops'[i];
      MembersSnoc(samples, assign, l);
      if l == pop {
        assert v == xs + [s];
        SnocGroup(Base(all, pop), Members(p, assign, pop), Members(samples, assign, pop), s);
      } else {
        assert i < |pops| && pops'[i] == pops[i];
        assert Members(samples, assign, l) == Members(p, assign, l);
      }
    }
  }

  lemma DistributedMapped(g: Groups, all: seq<string>, samples: seq<(string, string)>, assign: map<string, string>)
    requires |samples| > 0 && samples[|samples| - 1].0 in assign
    requires Distributed(g, all, samples[..|samples| - 1], assign)
    ensures Distributed(AddSample(g, assign, samples[|samples| - 1].0, samples[|samples| - 1].1), all, samples, assign)
  {
    var p := samples[..|samples| - 1];
    var (id, s) := samples[|samples| - 1];
    var pop := assign[id];
    var xs := Base(all, pop) + Members(p, assign, pop);
    MappedLookup(g.pops, all, p, assign, pop);
    AddMapped(g, assign, id, s, xs);
    MappedGroups(g, all, samples, assign);
  }

  /** The invariant once the last sample's sequence is appended to its label's group. */
  lemma MappedGroups(g: Groups, all: seq<string>, samples: seq<(string, string)>, assign: map<string, string>)
    requires |samples| > 0 && samples[|samples| - 1].0 in assign
    requires Distributed(g, all, samples[..|samples| - 1], assign)
    ensures var (id, s) := samples[|samples| - 1];
      var xs := Base(all, assign[id]) + Members(samples[..|samples| - 1], assign, assign[id]);
      Distributed(g.(pops := Put(g.pops, assign[id], xs + [s])), all, samples, assign)
  {
    var p := samples[..|samples| - 1];
    var (id, s) := samples[|samples| - 1];
    var xs := Base(all, assign[id]) + Members(p, assign, assign[id]);
    MappedKeys(g.pops, samples, assign, xs + [s]);
    MappedValues(g.pops, all, samples, assign);
    assert Unmapped(samples, assign) == Unmapped(p, assign);
  }

  /** The keys after a mapped sample: its label joins the pops unless already there. */
  lemma MappedKeys(pops: Dict<string, seq<string>>, samples: seq<(string, string)>, assign: map<string, string>, v: seq<string>)
    requires |samples| > 0 && samples[|samples| - 1].0 in assign
    requires Keys(pops) == Dedup([Total] + Labels(samples[..|samples| - 1], assign))
    ensures Keys(Put(pops, assign[samples[|samples| - 1].0], v)) == Dedup([Total] + Labels(samples, assign))
  {
    var p := samples[..|samples| - 1];
    var pop := assign[samples[|samples| - 1].0];
    var ls := [Total] + Labels(p, assign);
    assert [Total] + Labels(samples, assign) == ls + [pop];
    DedupSnoc(ls, pop);
  }

  /** A label's group so far: its base and members, or nothing when it is not yet a key. */
  lemma MappedLookup(pops: Dict<string, seq<string>>, all: seq<string>, p: seq<(string, string)>, assign: map<string, string>, pop: string)
    requires Keys(pops) == Dedup([Total] + Labels(p, assign))
    requires forall i :: 0 <= i < |pops| ==> pops[i].1 == Base(all, pops[i].0) + Members(p, assign, pops[i].0)
    ensures Lookup(pops, pop).Some? ==> Lookup(pops, pop).value == Base(all, pop) + Members(p, assign, pop)
    ensures Lookup(pops, pop).None? ==> Base(all, pop) + Members(p, assign, pop) == []
  {
    if pop in Keys(pops) {
      var j := IndexOf(Keys(pops), pop);
      assert Lookup(pops, pop) == Some(pops[j].1);
    } else {
      assert pop !in [Total] + Labels(p, assign);
      NoLabelNoMembers(p, assign, pop);
    }
  }

  lemma DistributedStep(g: Groups, all: seq<string>, samples: seq<(string, string)>, assign: map<string, string>)
    requires |samples| > 0
    requires Distributed(g, all, samples[..|samples| - 1], assign)
    ensures Distributed(AddSample(g, assign, samples[|samples| - 1].0, samples[|samples| - 1].1), all, samples, assign)
  {
    var (id, s) := samples[|samples| - 1];
    if id in assign {
      DistributedMapped(g, all, samples, assign);
    } else {
      DistributedUnmapped(g, all, samples, assign);
    }
  }

  /** Before any sample: only "TOTAL", holding every sequence. */
  lemma DistributedInit(all: seq<string>, assign: map<string, string>)
    ensures Distributed(Groups([(Total, all)], []), all, [], assign)
  {
    assert [Total] + Labels([], assign) == [Total];
    assert Dedup([Total]) == [Total] by {
      assert [Total][..0] == [];
    }
    assert Keys([(Total, all)]) == [Total];
  }

  lemma {:induction false} DistributeInvariant(all: seq<string>, samples: seq<(string, string)>, assign: map<string, string>)
    ensures Distributed(Distribute(Groups([(Total, all)], []), samples, assign), all, samples, assign)
  {
    if |samples| == 0 {
      DistributedInit(all, assign);
    } else {
      var p := samples[..|samples| - 1];
      DistributeInvariant(all, p, assign);
      DistributedStep(Distribute(Groups([(Total, all)], []), p, assign), all, samples, assign);
    }
  }

  /** A label some mapped sample carries has at least one member. */
  lemma {:induction false} LabelHasMembers(samples: seq<(string, string)>, assign: map<string, string>, pop: string)
    requires pop in Labels(samples, assign)
    ensures |Members(samples, assign, pop)| > 0
  {
    var p := samples[..|samples| - 1];
    MembersSnoc(samples, assign, pop);
    if pop in Labels(p, assign) {
      LabelHasMembers(p, assign, pop);
    }
  }

  /** Every member of a group is the sequence of some sample. */
  lemma {:induction false} MembersWithin(samples: seq<(string, string)>, assign: map<string, string>, pop: string)
    ensures forall x :: x in Members(samples, assign, pop) ==> x in Values(samples)
  {
    if |samples| > 0 {
      var p := samples[..|samples| - 1];
      MembersWithin(p, assign, pop);
      MembersSnoc(samples, assign, pop);
      assert Values(samples) == Values(p) + [samples[|samples| - 1].1];
    }
  }

  /** Every group label is the population some sample is mapped to. */
  lemma {:induction false} LabelsWithin(samples: seq<(string, string)>, assign: map<string, string>)
    ensures forall x :: x in Labels(samples, assign) ==> x in assign.Values
  {
    if |samples| > 0 {
      var p := samples[..|samples| - 1];
      LabelsWithin(p, assign);
    }
  }

  /**
    Lines 27-41: "TOTAL" holds every sample's sequence; with a population map,
    each sample's sequence is also appended to its pop's group and the samples
    the map does not know are reported.
   */
  function Group(samples: Dict<string, string>, assign: Option<map<string, string>>): Groups {
    var init := Groups([(Total, Values(samples))], []);
    match assign
    case None => init
    case Some(m) => Distribute(init, samples, m)
  }

  /** Without a population map there is only "TOTAL" and nothing to report. */
  lemma GroupWithoutPopmap(samples: Dict<string, string>)
    ensures Keys(Group(samples, None).pops) == [Total]
    ensures Group(samples, None).pops[0].1 == Values(samples)
    ensures Group(samples, None).unmapped == []
  {
  }

  /**
    With a population map: "TOTAL" comes first and holds every sample's
    sequence followed by those of the samples mapped to a pop named "TOTAL";
    the other groups follow in order of first mention, each holding exactly the
    sequences of the samples mapped to it (so none is empty and every member
    is some sample's sequence); the unmapped samples are reported in order.
   */
  lemma GroupWithPopmap(samples: Dict<string, string>, assign: map<string, string>)
    ensures var g := Group(samples, Some(assign));
      && Keys(g.pops) == Dedup([Total] + Labels(samples, assign))
      && |g.pops| > 0 && g.pops[0] == (Total, Values(samples) + Members(samples, assign, Total))
      && (forall i :: 0 < i < |g.pops| ==>
            g.pops[i].0 != Total && g.pops[i].1 == Members(samples, assign, g.pops[i].0) && |g.pops[i].1| > 0)
      && (forall i, x :: 0 <= i < |g.pops| && x in g.pops[i].1 ==> x in Values(samples))
      && g.unmapped == Unmapped(samples, assign)
  {
    var g := Group(samples, Some(assign));
    var all := Values(samples);
    DistributeInvariant(all, samples, assign);
    DedupHead(Total, Labels(samples, assign));
    assert Keys(g.pops)[0] == Total;
    forall i | 0 < i < |g.pops|
      ensures g.pops[i].0 != Total && g.pops[i].1 == Members(samples, assign, g.pops[i].0) && |g.pops[i].1| > 0
    {
      var l := g.pops[i].0;
      assert Keys(g.pops)[i] == l && Keys(g.pops)[0] == Total;
      assert l in Dedup([Total] + Labels(samples, assign));
      LabelHasMembers(samples, assign, l);
    }
    forall i, x | 0 <= i < |g.pops| && x in g.pops[i].1
      ensures x in Values(samples)
    {
      MembersWithin(samples, assign, g.pops[i].0);
    }
  }
}
