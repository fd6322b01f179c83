/**
  The FASTA record splitter (`read_fasta`), as a left fold over the input
  lines. The state keeps the current identifier (`contig`), the sequence text
  gathered since it (`pending`) and the records emitted so far.
 */
module Fasta {
  import opened Text
  import opened Seqs

  datatype Record = Record(id: string, sequence: string)

  /** What one input line is, once stripped. */
  datatype Line = Blank | Header(id: string) | Data(text: string)

  datatype Reader = Reader(contig: string, pending: string, out: seq<Record>)

  const Start := Reader("", "", [])

  /**
    Lines 110-124: the line is stripped; a blank line is skipped, a line
    starting with `>` is a header whose identifier is its first token with
    every `>` removed, and any other line is sequence text.
   */
  function Classify(line: string): (k: Line)
    ensures k.Blank? <==> AllSpace(line)
    ensures k.Header? <==> !AllSpace(line) && Strip(line)[0] == '>'
    ensures k.Header? ==> k.id == RemoveChar(Word(Strip(line)), '>') && '>' !in k.id
    ensures k.Data? ==> k.text == Strip(line) && k.text != "" && k.text[0] != '>'
  {
    var l := Strip(line);
    if l == "" then Blank
    else if l[0] == '>' then
      assert !AllSpace(l) by { assert !IsSpace(l[0]); }
      assert Tokens(l)[0] == Word(l);
      Header(RemoveChar(Tokens(l)[0], '>'))
    else Data(l)
  }

  /** One iteration of the loop over the file's lines. */
  function Step(st: Reader, k: Line): Reader {
    match k
    case Blank => st
    case Header(id) =>
      var flushed :=
        if st.contig != "" then Reader("", "", st.out + [Record(st.contig, st.pending)])
        else st;
      flushed.(contig := id)
    case Data(text) => st.(pending := st.pending + text)
  }

  /** The state after reading every line of `lines`. */
  function Scan(lines: seq<string>): Reader {
    if |lines| == 0 then Start
    else Step(Scan(lines[..|lines| - 1]), Classify(lines[|lines| - 1]))
  }

  /** End of input: the pending record is emitted only when it has a sequence. */
  function Finish(st: Reader): seq<Record> {
    if st.contig != "" && st.pending != "" then st.out + [Record(st.contig, st.pending)]
    else st.out
  }

  function Ids(rs: seq<Record>): (ids: seq<string>)
    ensures |ids| == |rs|
    ensures forall i :: 0 <= i < |rs| ==> ids[i] == rs[i].id
  {
    seq(|rs|, i requires 0 <= i < |rs| => rs[i].id)
  }

  /** All sequences of `rs`, concatenated in order. */
  function Flatten(rs: seq<Record>): string {
    if |rs| == 0 then "" else Flatten(rs[..|rs| - 1]) + rs[|rs| - 1].sequence
  }

  /** What a line adds to the sequence text: itself stripped, unless blank or a header. */
  function ContentOf(k: Line): string {
    if k.Data? then k.text else ""
  }

  /** The sequence text of the whole input: every content line, stripped, in order. */
  function Content(lines: seq<string>): string {
    if |lines| == 0 then ""
    else Content(lines[..|lines| - 1]) + ContentOf(Classify(lines[|lines| - 1]))
  }

  /** The identifier a line contributes: its header's, when that is non-empty. */
  function HeaderIdOf(k: Line): seq<string> {
    if k.Header? && k.id != "" then [k.id] else []
  }

  /** The non-empty identifiers of the input's header lines, in order. */
  function HeaderIds(lines: seq<string>): seq<string> {
    if |lines| == 0 then []
    else HeaderIds(lines[..|lines| - 1]) + HeaderIdOf(Classify(lines[|lines| - 1]))
  }

  function PendingId(st: Reader): seq<string> {
    if st.contig == "" then [] else [st.contig]
  }

  /** The fold invariant, relative to the content and header identifiers read so far. */
  predicate Accounts(st: Reader, content: string, ids: seq<string>) {
    && (forall i :: 0 <= i < |st.out| ==> st.out[i].id != "")
    && Flatten(st.out) + st.pending == content
    && Ids(st.out) + PendingId(st) == ids
  }

  lemma StepAccounts(st: Reader, k: Line, content: string, ids: seq<string>)
    requires Accounts(st, content, ids)
    ensures Accounts(Step(st, k), content + ContentOf(k), ids + HeaderIdOf(k))
  {
    match k
    case Blank =>
      assert content + "" == content && ids + [] == ids;
    case Header(id) =>
      assert content + "" == content;
      if st.contig != "" {
        FlushAccounts(st, id, content, ids);
      } else {
        var st' := st.(contig := id);
        assert PendingId(st') == HeaderIdOf(k);
      }
    case Data(text) =>
      assert ids + [] == ids;
      assert Flatten(st.out) + (st.pending + text) == (Flatten(st.out) + st.pending) + text;
  }

  lemma FlushAccounts(st: Reader, id: string, content: string, ids: seq<string>)
    requires Accounts(st, content, ids) && st.contig != ""
    ensures Accounts(Reader(id, "", st.out + [Record(st.contig, st.pending)]),
                     content, ids + (if id != "" then [id] else []))
  {
    var out := st.out + [Record(st.contig, st.pending)];
    var st' := Reader(id, "", out);
    assert out[..|out| - 1] == st.out;
    assert Flatten(out) == Flatten(st.out) + st.pending;
    assert Ids(out) == Ids(st.out) + [st.contig];
    assert PendingId(st') == if id != "" then [id] else [];
  }

  /**
    What the fold keeps: emitted identifiers are non-empty; no sequence text is
    lost or reordered; and emitted plus pending identifiers are exactly the
    non-empty header identifiers.
   */
  lemma {:induction false} ScanInvariant(lines: seq<string>)
    ensures Accounts(Scan(lines), Content(lines), HeaderIds(lines))
  {
    if |lines| > 0 {
      var p := lines[..|lines| - 1];
      ScanInvariant(p);
      StepAccounts(Scan(p), Classify(lines[|lines| - 1]), Content(p), HeaderIds(p));
    }
  }

  /** `read_fasta`: the records of a FASTA text, in input order. */
  function ReadFasta(lines: seq<string>): seq<Record> {
    Finish(Scan(lines))
  }

  /**
    Every emitted identifier is non-empty; the identifiers are the non-empty
    header identifiers in order, except that the last one is dropped when its
    record has no sequence at end of input; and the emitted sequences, joined,
    are a prefix of the input's sequence text. A dropped header had no pending
    text, so it loses nothing: text is lost only when no named header precedes
    it since the last record was emitted, as when the input has no named
    header at all or the text follows a final bare `>`.
   */
  lemma ReadFastaShape(lines: seq<string>)
    ensures forall i :: 0 <= i < |ReadFasta(lines)| ==> ReadFasta(lines)[i].id != ""
    ensures Ids(ReadFasta(lines)) <= HeaderIds(lines)
    ensures |HeaderIds(lines)| <= |ReadFasta(lines)| + 1
    ensures Flatten(ReadFasta(lines)) <= Content(lines)
    ensures |ReadFasta(lines)| < |HeaderIds(lines)| ==> Flatten(ReadFasta(lines)) == Content(lines)
    ensures |HeaderIds(lines)| == 0 ==> ReadFasta(lines) == []
  {
    ScanInvariant(lines);
    FinishShape(Scan(lines), Content(lines), HeaderIds(lines));
  }

  /** What `Finish` makes of a state that accounts for `content` and `ids`. */
  lemma FinishShape(st: Reader, content: string, ids: seq<string>)
    requires Accounts(st, content, ids)
    ensures forall i :: 0 <= i < |Finish(st)| ==> Finish(st)[i].id != ""
    ensures Ids(Finish(st)) <= ids
    ensures |ids| <= |Finish(st)| + 1
    ensures Flatten(Finish(st)) <= content
    ensures |Finish(st)| < |ids| ==> Flatten(Finish(st)) == content
    ensures |ids| == 0 ==> Finish(st) == []
  {
    if st.contig != "" && st.pending != "" {
      FinishEmits(st, content, ids);
    } else {
      assert Finish(st) == st.out;
      assert Ids(st.out) <= ids;
    }
  }

  lemma FinishEmits(st: Reader, content: string, ids: seq<string>)
    requires Accounts(st, content, ids) && st.contig != "" && st.pending != ""
    ensures forall i :: 0 <= i < |Finish(st)| ==> Finish(st)[i].id != ""
    ensures Ids(Finish(st)) == ids
    ensures Flatten(Finish(st)) == content
  {
    var rs := Finish(st);
    assert rs[..|rs| - 1] == st.out;
    assert Ids(rs) == Ids(st.out) + [st.contig];
  }

  /** A record that prints as one header line and one sequence line and reads back unchanged. */
  predicate WellFormed(r: Record) {
    IdLike(r.id) && SequenceLike(r.sequence)
  }

  /** An identifier that can be written as a header line `">" + id`. */
  predicate IdLike(id: string) {
    id != "" && NoSpace(id) && '>' !in id
  }

  /** A sequence that can be written as one sequence line. */
  predicate SequenceLike(s: string) {
    s != "" && NoSpace(s) && s[0] != '>'
  }

  /** Single-line FASTA text for `rs`. */
  function Render(rs: seq<Record>): seq<string> {
    if |rs| == 0 then []
    else Render(rs[..|rs| - 1]) + [">" + rs[|rs| - 1].id, rs[|rs| - 1].sequence]
  }

  lemma HeaderLine(id: string)
    requires NoSpace(id) && '>' !in id
    ensures Classify(">" + id) == Header(id)
  {
    var h := ">" + id;
    assert h[|h| - 1] == if id == "" then '>' else id[|id| - 1];
    StripTrimmed(h);
    TokensOfWord(h);
    assert h[1..] == id;
  }

  lemma SequenceLine(s: string)
    requires s != "" && NoSpace(s) && s[0] != '>'
    ensures Classify(s) == Data(s)
  {
    StripTrimmed(s);
  }

  lemma ScanSnoc(a: seq<string>, x: string)
    ensures Scan(a + [x]) == Step(Scan(a), Classify(x))
  {
    assert (a + [x])[..|a|] == a;
  }

  /** Reading one well-formed record's two lines. */
  lemma ScanRecord(a: seq<string>, r: Record)
    requires WellFormed(r)
    ensures Scan(a + [">" + r.id, r.sequence]) == Step(Step(Scan(a), Header(r.id)), Data(r.sequence))
  {
    var st := Step(Scan(a), Header(r.id));
    ScanHeader(a, Scan(a), r.id);
    ScanData(a + [">" + r.id], st, r.sequence);
    AppendTwo(a, ">" + r.id, r.sequence);
  }

  lemma {:induction false} ScanRender(rs: seq<Record>)
    requires forall i :: 0 <= i < |rs| ==> WellFormed(rs[i])
    ensures |rs| == 0 ==> Scan(Render(rs)) == Start
    ensures |rs| > 0 ==> Scan(Render(rs)) == Reader(rs[|rs| - 1].id, rs[|rs| - 1].sequence, rs[..|rs| - 1])
  {
    if |rs| > 0 {
      var p := rs[..|rs| - 1];
      var r := rs[|rs| - 1];
      assert forall i :: 0 <= i < |p| ==> p[i] == rs[i];
      ScanRender(p);
      ScanRecord(Render(p), r);
      var st1 := Step(Scan(Render(p)), Header(r.id));
      if |p| > 0 {
        LastSplit(p);
      }
      assert st1 == Reader(r.id, "", p);
      assert "" + r.sequence == r.sequence;
    }
  }

  /** Reading back single-line FASTA text gives the records that were written. */
  lemma ReadRender(rs: seq<Record>)
    requires forall i :: 0 <= i < |rs| ==> WellFormed(rs[i])
    ensures ReadFasta(Render(rs)) == rs
  {
    ScanRender(rs);
    if |rs| > 0 {
      LastSplit(rs);
    }
  }

  /** A sequence line adds its text to the pending sequence. */
  lemma ScanData(l: seq<string>, st: Reader, x: string)
    requires Scan(l) == st && SequenceLike(x)
    ensures Scan(l + [x]) == st.(pending := st.pending + x)
  {
    SequenceLine(x);
    ScanSnoc(l, x);
  }

  lemma ScanHeader(l: seq<string>, st: Reader, id: string)
    requires Scan(l) == st && NoSpace(id) && '>' !in id
    ensures Scan(l + [">" + id]) == Step(st, Header(id))
  {
    HeaderLine(id);
    ScanSnoc(l, ">" + id);
  }

  /** The state after well-formed records and then one more header. */
  lemma ScanRenderHeader(rs: seq<Record>, a: string)
    requires forall i :: 0 <= i < |rs| ==> WellFormed(rs[i])
    requires NoSpace(a) && '>' !in a
    ensures Scan(Render(rs) + [">" + a]) == Reader(a, "", rs)
  {
    ScanRender(rs);
    ScanHeader(Render(rs), Scan(Render(rs)), a);
    if |rs| > 0 {
      LastSplit(rs);
    }
  }

  lemma ScanEmptyRecord(rs: seq<Record>, a: string, b: string, s: string)
    requires forall i :: 0 <= i < |rs| ==> WellFormed(rs[i])
    requires IdLike(a) && IdLike(b) && SequenceLike(s)
    ensures Scan(Render(rs) + [">" + a] + [">" + b] + [s]) == Reader(b, s, rs + [Record(a, "")])
  {
    var l1 := Render(rs) + [">" + a];
    ScanRenderHeader(rs, a);
    ScanHeader(l1, Reader(a, "", rs), b);
    ScanData(l1 + [">" + b], Reader(b, "", rs + [Record(a, "")]), s);
  }

  /**
    A header directly followed by another header is still emitted, with an
    empty sequence: only the record pending at end of input must have one.
   */
  lemma EmptyRecordFlushedAtHeader(rs: seq<Record>, a: string, b: string, s: string)
    requires forall i :: 0 <= i < |rs| ==> WellFormed(rs[i])
    requires IdLike(a) && IdLike(b) && SequenceLike(s)
    ensures ReadFasta(Render(rs) + [">" + a, ">" + b, s]) == rs + [Record(a, ""), Record(b, s)]
  {
    ScanEmptyRecord(rs, a, b, s);
    AppendThree(Render(rs), ">" + a, ">" + b, s);
    AppendTwo(rs, Record(a, ""), Record(b, s));
  }

  /** Sequence lines that precede every header accumulate, and nothing is emitted. */
  lemma {:induction false} ScanDataLines(p: seq<string>)
    requires forall i :: 0 <= i < |p| ==> SequenceLike(p[i])
    ensures Scan(p) == Reader("", Content(p), [])
  {
    if |p| > 0 {
      var q := p[..|p| - 1];
      assert forall i :: 0 <= i < |q| ==> q[i] == p[i];
      ScanDataLines(q);
      SequenceLine(p[|p| - 1]);
    }
  }

  lemma ScanLeadingData(p: seq<string>, a: string, t: string)
    requires forall i :: 0 <= i < |p| ==> SequenceLike(p[i])
    requires IdLike(a) && SequenceLike(t)
    ensures Scan(p + [">" + a] + [t]) == Reader(a, Content(p) + t, [])
  {
    ScanDataLines(p);
    ScanHeader(p, Reader("", Content(p), []), a);
    ScanData(p + [">" + a], Reader(a, Content(p), []), t);
  }

  /** Sequence lines before the first header are prepended to the first record. */
  lemma LeadingDataCarried(p: seq<string>, a: string, t: string)
    requires forall i :: 0 <= i < |p| ==> SequenceLike(p[i])
    requires IdLike(a) && SequenceLike(t)
    ensures ReadFasta(p + [">" + a, t]) == [Record(a, Content(p) + t)]
  {
    var l := p + [">" + a, t];
    AppendTwo(p, ">" + a, t);
    ScanLeadingData(p, a, t);
    assert Scan(l) == Reader(a, Content(p) + t, []);
    assert Content(p) + t != "";
  }

  lemma ScanRenderBare(rs: seq<Record>, s: string)
    requires forall i :: 0 <= i < |rs| ==> WellFormed(rs[i])
    requires SequenceLike(s)
    ensures Scan(Render(rs) + [">"] + [s]) == Reader("", s, rs)
  {
    assert ">" + "" == ">";
    ScanRenderHeader(rs, "");
    ScanData(Render(rs) + [">"], Reader("", "", rs), s);
    assert "" + s == s;
  }

  lemma ScanBareHeader(rs: seq<Record>, s: string, b: string, t: string)
    requires forall i :: 0 <= i < |rs| ==> WellFormed(rs[i])
    requires SequenceLike(s) && IdLike(b) && SequenceLike(t)
    ensures Scan(Render(rs) + [">"] + [s] + [">" + b] + [t]) == Reader(b, s + t, rs)
  {
    var l2 := Render(rs) + [">"] + [s];
    ScanRenderBare(rs, s);
    ScanHeader(l2, Reader("", s, rs), b);
    ScanData(l2 + [">" + b], Reader(b, s, rs), t);
  }

  /**
    A bare `>` header has an empty identifier: it flushes the record before it
    but opens none, and the lines after it are carried into the next record.
   */
  lemma BareHeaderCarried(rs: seq<Record>, s: string, b: string, t: string)
    requires forall i :: 0 <= i < |rs| ==> WellFormed(rs[i])
    requires SequenceLike(s) && IdLike(b) && SequenceLike(t)
    ensures ReadFasta(Render(rs) + [">", s, ">" + b, t]) == rs + [Record(b, s + t)]
  {
    ScanBareHeader(rs, s, b, t);
    AppendFour(Render(rs), ">", s, ">" + b, t);
  }

  /** A header with no sequence before the end of input is dropped. */
  lemma TrailingHeaderDropped(rs: seq<Record>, a: string)
    requires forall i :: 0 <= i < |rs| ==> WellFormed(rs[i])
    requires IdLike(a)
    ensures ReadFasta(Render(rs) + [">" + a]) == rs
  {
    ScanRenderHeader(rs, a);
  }

  /**
    Line 121: a header line, possibly indented, is `>` and the identifier,
    then nothing or whitespace and any description; only the identifier is kept.
   */
  lemma HeaderWithDescription(lead: string, id: string, desc: string)
    requires AllSpace(lead) && NoSpace(id) && '>' !in id
    requires desc == "" || IsSpace(desc[0])
    ensures Classify(lead + ">" + id + desc) == Header(id)
  {
    var h := lead + ">" + id + desc;
    AppendAssoc(lead, ">", id);
    PrefixNoSpace('>', id);
    PaddedHeaderWord(h, lead, ">" + id, desc);
    RemoveCharAppend(">", id, '>');
    RemoveCharOne('>', '>');
  }

  /**
    A header with whitespace right after its `>` has `>` alone as its first
    token, so it is bare: `> seq1 desc` names no record.
   */
  lemma SpacedHeaderIsBare(lead: string, desc: string)
    requires AllSpace(lead) && desc != "" && IsSpace(desc[0])
    ensures Classify(lead + ">" + desc) == Header("")
  {
    HeaderWithDescription(lead, "", desc);
    assert lead + ">" + "" == lead + ">";
  }

  lemma PrefixNoSpace(x: char, s: string)
    requires !IsSpace(x) && NoSpace(s)
    ensures NoSpace([x] + s)
  {
    forall k | 0 < k < |s| + 1 ensures !IsSpace(([x] + s)[k]) {
      assert ([x] + s)[k] == s[k - 1];
    }
  }

  /** The first token of a padded header line `h` is the word `w` after the padding. */
  lemma PaddedHeaderWord(h: string, lead: string, w: string, desc: string)
    requires h == lead + w + desc
    requires AllSpace(lead) && w != "" && NoSpace(w)
    requires desc == "" || IsSpace(desc[0])
    ensures !AllSpace(h) && Strip(h)[0] == w[0] && Word(Strip(h)) == w
  {
    StripPadded(lead, w, desc);
    var t := Strip(h);
    var rest := desc[..|t| - |w|];
    assert t == w + rest;
    WordPrefix(w, rest);
  }

  /** Stripping a padded word keeps the word and at most the text after it. */
  lemma StripPadded(lead: string, w: string, desc: string)
    requires AllSpace(lead) && w != "" && !IsSpace(w[0]) && !IsSpace(w[|w| - 1])
    ensures |w| <= |Strip(lead + w + desc)| <= |w| + |desc|
    ensures Strip(lead + w + desc) == w + desc[..|Strip(lead + w + desc)| - |w|]
  {
    var h := lead + w + desc;
    var n := |lead|;
    LeadingSpacesPadded(lead, w + desc);
    AppendAssoc(lead, w, desc);
    assert !IsSpace(h[n]);
    StripPosition(h);
    var m := n + |Strip(h)|;
    assert h[n + |w| - 1] == w[|w| - 1];
    assert n + |w| <= m;
    assert Strip(h) == h[n..m];
    assert h[n..m] == w + desc[..m - n - |w|];
  }

  /** The leading whitespace of a padded text is its padding. */
  lemma LeadingSpacesPadded(lead: string, t: string)
    requires AllSpace(lead) && t != "" && !IsSpace(t[0])
    ensures LeadingSpaces(lead + t) == |lead|
  {
    var h := lead + t;
    assert h[|lead|] == t[0];
    assert forall k :: 0 <= k < |lead| ==> h[k] == lead[k];
  }

  /** None of the lines is a header: they are blank or sequence lines. */
  predicate NoHeaders(ls: seq<string>) {
    forall i :: 0 <= i < |ls| ==> !Classify(ls[i]).Header?
  }

  /**
    How record `r` may be laid out in a FASTA file: a header line naming it,
    then blank and sequence lines whose stripped text, joined, is its sequence.
   */
  predicate Lays(g: seq<string>, r: Record) {
    && |g| > 0 && r.id != "" && Classify(g[0]) == Header(r.id)
    && NoHeaders(g[1..]) && Content(g[1..]) == r.sequence
  }

  /** The lines of all the groups, in order. */
  function Joined(gs: seq<seq<string>>): seq<string> {
    if |gs| == 0 then [] else Joined(gs[..|gs| - 1]) + gs[|gs| - 1]
  }

  /** Lines other than headers only add their text to the pending sequence. */
  lemma {:induction false} ScanPlain(l: seq<string>, ds: seq<string>)
    requires NoHeaders(ds)
    ensures Scan(l + ds) == Scan(l).(pending := Scan(l).pending + Content(ds))
    decreases |ds|
  {
    if |ds| == 0 {
      assert l + ds == l;
    } else {
      var p := ds[..|ds| - 1];
      var d := ds[|ds| - 1];
      assert forall i :: 0 <= i < |p| ==> p[i] == ds[i];
      ScanPlain(l, p);
      ScanPlainLine(l + p, d);
      AppendLast(l, ds);
      ContentLast(ds);
      PendingAppend(Scan(l), Content(p), ContentOf(Classify(d)));
    }
  }

  lemma ContentLast(ds: seq<string>)
    requires |ds| > 0
    ensures Content(ds) == Content(ds[..|ds| - 1]) + ContentOf(Classify(ds[|ds| - 1]))
  {
  }

  lemma PendingAppend(st: Reader, a: string, b: string)
    ensures st.(pending := st.pending + a).(pending := (st.pending + a) + b) == st.(pending := st.pending + (a + b))
  {
    assert (st.pending + a) + b == st.pending + (a + b);
  }

  /** A blank or sequence line adds its text, if any, to the pending sequence. */
  lemma ScanPlainLine(l: seq<string>, d: string)
    requires !Classify(d).Header?
    ensures Scan(l + [d]) == Scan(l).(pending := Scan(l).pending + ContentOf(Classify(d)))
  {
    ScanSnoc(l, d);
    if Classify(d).Blank? {
      assert Scan(l).pending + "" == Scan(l).pending;
    }
  }

  /** Blank lines are no headers and hold no sequence text. */
  lemma {:induction false} BlankLines(ls: seq<string>)
    requires forall i :: 0 <= i < |ls| ==> AllSpace(ls[i])
    ensures NoHeaders(ls) && Content(ls) == ""
    decreases |ls|
  {
    if |ls| > 0 {
      var p := ls[..|ls| - 1];
      assert forall i :: 0 <= i < |p| ==> p[i] == ls[i];
      BlankLines(p);
    }
  }

  /** The reader's state once the groups of `rs` have been read. */
  function After(rs: seq<Record>): Reader {
    if |rs| == 0 then Start else Reader(rs[|rs| - 1].id, rs[|rs| - 1].sequence, rs[..|rs| - 1])
  }

  /** Leading blank lines leave the reader at its start. */
  lemma ScanBlank(lead: seq<string>)
    requires forall i :: 0 <= i < |lead| ==> AllSpace(lead[i])
    ensures Scan(lead) == Start
  {
    BlankLines(lead);
    ScanPlain([], lead);
    AppendEmpty([], lead);
  }

  /** The header of the next group flushes the record before it and opens its own. */
  lemma HeaderAfterGroups(q: seq<Record>, id: string)
    requires |q| > 0 ==> q[|q| - 1].id != ""
    ensures Step(After(q), Header(id)) == Reader(id, "", q)
  {
    if |q| > 0 {
      LastSplit(q);
    }
  }

  /** The state after the leading blank lines and the groups of `rs`. */
  lemma {:induction false} ScanGroups(lead: seq<string>, gs: seq<seq<string>>, rs: seq<Record>)
    requires forall i :: 0 <= i < |lead| ==> AllSpace(lead[i])
    requires |gs| == |rs|
    requires forall i :: 0 <= i < |rs| ==> Lays(gs[i], rs[i])
    ensures Scan(lead + Joined(gs)) == After(rs)
    decreases |rs|
  {
    if |rs| == 0 {
      ScanBlank(lead);
      AppendEmpty(lead, Joined(gs));
    } else {
      var n := |rs| - 1;
      LaysPrefix(gs, rs, n);
      ScanGroups(lead, gs[..n], rs[..n]);
      ScanLastGroup(lead, gs, rs, n);
    }
  }

  lemma ScanLastGroup(lead: seq<string>, gs: seq<seq<string>>, rs: seq<Record>, n: nat)
    requires |gs| == |rs| == n + 1
    requires Lays(gs[n], rs[n])
    requires n > 0 ==> rs[..n][n - 1].id != ""
    requires Scan(lead + Joined(gs[..n])) == After(rs[..n])
    ensures Scan(lead + Joined(gs)) == After(rs)
  {
    var l := lead + Joined(gs[..n]);
    ScanGroup(l, gs[n], rs[..n], rs[n]);
    assert lead + Joined(gs) == l + gs[n] by {
      JoinedLast(lead, gs);
    }
    assert rs[..n] + [rs[n]] == rs by {
      LastSplit(rs);
    }
  }

  /** The groups before the last lay out the records before the last. */
  lemma LaysPrefix(gs: seq<seq<string>>, rs: seq<Record>, n: nat)
    requires |gs| == |rs| == n + 1
    requires forall i :: 0 <= i < |rs| ==> Lays(gs[i], rs[i])
    ensures forall i :: 0 <= i < n ==> Lays(gs[..n][i], rs[..n][i])
    ensures Lays(gs[n], rs[n])
    ensures n > 0 ==> rs[..n][n - 1].id != ""
  {
  }

  /** The lines of all groups are those of the groups before the last, then the last. */
  lemma JoinedLast(lead: seq<string>, gs: seq<seq<string>>)
    requires |gs| > 0
    ensures lead + Joined(gs) == (lead + Joined(gs[..|gs| - 1])) + gs[|gs| - 1]
  {
    AppendAssoc(lead, Joined(gs[..|gs| - 1]), gs[|gs| - 1]);
  }


  /** Reading the group of record `r` after those of the records `q`. */
  lemma ScanGroup(l: seq<string>, g: seq<string>, q: seq<Record>, r: Record)
    requires Lays(g, r)
    requires |q| > 0 ==> q[|q| - 1].id != ""
    requires Scan(l) == After(q)
    ensures Scan(l + g) == After(q + [r])
  {
    ScanSnoc(l, g[0]);
    HeaderAfterGroups(q, r.id);
    ScanPlain(l + [g[0]], g[1..]);
    AppendFirst(l, g);
    assert "" + Content(g[1..]) == r.sequence;
    assert (q + [r])[..|q|] == q;
  }

  /**
    Reading a FASTA file laid out record by record gives its records back:
    after any blank lines, each record is a header line naming it and then
    its blank and sequence lines, so a sequence may span several lines and a
    header may carry a description. Only a last record without sequence text
    is dropped (line 126); earlier ones are kept even when empty (line 117).
   */
  lemma ReadLayout(lead: seq<string>, gs: seq<seq<string>>, rs: seq<Record>)
    requires forall i :: 0 <= i < |lead| ==> AllSpace(lead[i])
    requires |gs| == |rs|
    requires forall i :: 0 <= i < |rs| ==> Lays(gs[i], rs[i])
    ensures ReadFasta(lead + Joined(gs)) == Kept(rs)
  {
    ScanGroups(lead, gs, rs);
    FinishAfter(rs);
  }

  /** What line 126 keeps of the records read: all but a last one without sequence text. */
  function Kept(rs: seq<Record>): seq<Record> {
    if |rs| > 0 && rs[|rs| - 1].sequence == "" then rs[..|rs| - 1] else rs
  }

  /** Finishing after the groups of `rs` emits the records `Kept` keeps. */
  lemma FinishAfter(rs: seq<Record>)
    requires |rs| > 0 ==> rs[|rs| - 1].id != ""
    ensures Finish(After(rs)) == Kept(rs)
  {
    if |rs| > 0 {
      LastSplit(rs);
    }
  }

  /** Keeping records after complete ones only affects the last. */
  lemma KeptAppend(p: seq<Record>, x: seq<Record>)
    requires |x| > 0
    ensures Kept(p + x) == p + Kept(x)
  {
    assert (p + x)[..|p + x| - 1] == p + x[..|x| - 1];
  }

  /** The records `rs` with the text `c` prepended to the first one's sequence. */
  function Carry(c: string, rs: seq<Record>): (r: seq<Record>)
    ensures |r| == |rs|
  {
    if |rs| == 0 then rs else rs[0 := rs[0].(sequence := c + rs[0].sequence)]
  }

  /** Carrying into records before the last leaves the last as it is. */
  lemma CarryLast(c: string, rs: seq<Record>, n: nat)
    requires |rs| == n + 1 && n > 0
    ensures Carry(c, rs[..n]) + [rs[n]] == Carry(c, rs)
    ensures Carry(c, rs[..n])[n - 1].id == rs[n - 1].id
  {
  }

  /**
    Reading the groups of `rs` from a state with no open record, emitted
    records `q` and pending text `c`: the first header opens its record without
    resetting the pending text, so `c` starts the first record's sequence.
   */
  lemma {:induction false} ScanCarried(l: seq<string>, q: seq<Record>, c: string, gs: seq<seq<string>>, rs: seq<Record>)
    requires Scan(l) == Reader("", c, q)
    requires |q| > 0 ==> q[|q| - 1].id != ""
    requires |gs| == |rs| > 0
    requires forall i :: 0 <= i < |rs| ==> Lays(gs[i], rs[i])
    ensures Scan(l + Joined(gs)) == After(q + Carry(c, rs))
    decreases |rs|
  {
    var n := |rs| - 1;
    if n == 0 {
      ScanCarriedFirst(l, q, c, gs[0], rs[0]);
      assert Joined(gs) == [] + gs[0];
      assert [] + gs[0] == gs[0];
    } else {
      LaysPrefix(gs, rs, n);
      ScanCarried(l, q, c, gs[..n], rs[..n]);
      ScanCarriedLast(l, q, c, gs, rs, n);
    }
  }

  /** The first group opens its record with the carried text already pending. */
  lemma ScanCarriedFirst(l: seq<string>, q: seq<Record>, c: string, g: seq<string>, r: Record)
    requires Scan(l) == Reader("", c, q)
    requires Lays(g, r)
    ensures Scan(l + g) == After(q + Carry(c, [r]))
  {
    ScanSnoc(l, g[0]);
    ScanPlain(l + [g[0]], g[1..]);
    AppendFirst(l, g);
    assert Carry(c, [r]) == [Record(r.id, c + r.sequence)];
    assert (q + [Record(r.id, c + r.sequence)])[..|q|] == q;
  }

  lemma ScanCarriedLast(l: seq<string>, q: seq<Record>, c: string, gs: seq<seq<string>>, rs: seq<Record>, n: nat)
    requires |gs| == |rs| == n + 1 && n > 0
    requires Lays(gs[n], rs[n]) && rs[n - 1].id != ""
    requires Scan(l + Joined(gs[..n])) == After(q + Carry(c, rs[..n]))
    ensures Scan(l + Joined(gs)) == After(q + Carry(c, rs))
  {
    var done := q + Carry(c, rs[..n]);
    CarryLast(c, rs, n);
    ScanGroup(l + Joined(gs[..n]), gs[n], done, rs[n]);
    JoinedLast(l, gs);
    AppendAssoc(q, Carry(c, rs[..n]), [rs[n]]);
  }

  /**
    Lines 117-124: text read before the first header is not reset when that
    header opens its record, so blank and sequence lines `pre` before the
    records `rs` join the first record's sequence; with no record at all
    they are lost, since line 126 needs an identifier.
   */
  lemma ReadCarried(pre: seq<string>, gs: seq<seq<string>>, rs: seq<Record>)
    requires NoHeaders(pre)
    requires |gs| == |rs|
    requires forall i :: 0 <= i < |rs| ==> Lays(gs[i], rs[i])
    ensures ReadFasta(pre + Joined(gs)) == Kept(Carry(Content(pre), rs))
  {
    var c := Content(pre);
    AppendEmpty([], pre);
    ScanIdle([], [], pre);
    if |rs| == 0 {
      AppendEmpty(pre, Joined(gs));
    } else {
      ScanCarried(pre, [], c, gs, rs);
      AppendEmpty([], Carry(c, rs));
      FinishAfter(Carry(c, rs));
    }
  }

  /** With no record open and nothing pending, lines without headers only gather text. */
  lemma ScanIdle(l: seq<string>, q: seq<Record>, pre: seq<string>)
    requires Scan(l) == Reader("", "", q)
    requires NoHeaders(pre)
    ensures Scan(l + pre) == Reader("", Content(pre), q)
  {
    ScanPlain(l, pre);
    AppendEmpty("", Content(pre));
  }

  /** A bare header after the groups of `q` flushes the last of them and opens nothing. */
  lemma BareFlush(l: seq<string>, q: seq<Record>, h: string)
    requires Scan(l) == After(q)
    requires |q| > 0 ==> q[|q| - 1].id != ""
    requires Classify(h) == Header("")
    ensures Scan(l + [h]) == Reader("", "", q)
  {
    ScanSnoc(l, h);
    HeaderAfterGroups(q, "");
  }

  /**
    Lines 117-122: a bare header (its first token only `>`s) flushes the
    record before it, even an empty one, but opens none, so the blank and
    sequence lines `pre` after it join the next record's sequence, or are lost
    when no record follows.
   */
  lemma ReadAfterBare(lead: seq<string>, gs1: seq<seq<string>>, rs1: seq<Record>, h: string,
                      pre: seq<string>, gs2: seq<seq<string>>, rs2: seq<Record>)
    requires forall i :: 0 <= i < |lead| ==> AllSpace(lead[i])
    requires |gs1| == |rs1| && forall i :: 0 <= i < |rs1| ==> Lays(gs1[i], rs1[i])
    requires Classify(h) == Header("")
    requires NoHeaders(pre)
    requires |gs2| == |rs2| && forall i :: 0 <= i < |rs2| ==> Lays(gs2[i], rs2[i])
    ensures ReadFasta(lead + Joined(gs1) + [h] + pre + Joined(gs2)) == rs1 + Kept(Carry(Content(pre), rs2))
  {
    var l := lead + Joined(gs1) + [h] + pre;
    ScanBareCarried(lead, gs1, rs1, h, pre);
    if |rs2| == 0 {
      AppendEmpty(l, Joined(gs2));
      AppendEmpty(rs1, Kept(Carry(Content(pre), rs2)));
    } else {
      ScanCarried(l, rs1, Content(pre), gs2, rs2);
      FinishAfter(rs1 + Carry(Content(pre), rs2));
      KeptAppend(rs1, Carry(Content(pre), rs2));
    }
  }

  /** The state after the records `rs1`, a bare header and the lines `pre`. */
  lemma ScanBareCarried(lead: seq<string>, gs1: seq<seq<string>>, rs1: seq<Record>, h: string, pre: seq<string>)
    requires forall i :: 0 <= i < |lead| ==> AllSpace(lead[i])
    requires |gs1| == |rs1| && forall i :: 0 <= i < |rs1| ==> Lays(gs1[i], rs1[i])
    requires Classify(h) == Header("")
    requires NoHeaders(pre)
    ensures Scan(lead + Joined(gs1) + [h] + pre) == Reader("", Content(pre), rs1)
    ensures |rs1| > 0 ==> rs1[|rs1| - 1].id != ""
  {
    var l := lead + Joined(gs1);
    ScanGroups(lead, gs1, rs1);
    assert |rs1| > 0 ==> Lays(gs1[|rs1| - 1], rs1[|rs1| - 1]);
    BareFlush(l, rs1, h);
    ScanIdle(l + [h], rs1, pre);
  }
}
