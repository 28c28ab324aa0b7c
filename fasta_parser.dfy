/**
 * `calculate_gc_content` of the GC calculator: a line-driven FASTA reader
 * that emits one GC record per named header line.
 *
 * `Records` is the reference meaning of the reader, stated over the
 * trimmed input lines by positions: the j-th record belongs to the j-th
 * header line with a non-empty name; its stretch of lines ends at the next
 * header line of any kind and starts where the previous record's stretch
 * ended (at the first line for the first record).  The method
 * `CalculateGcContent` follows the source's loop and is proved to compute
 * `Records`; the ghost fold `Run` over line-by-line `Step`s is the bridge.
 */
module FastaParser {
  import opened Text
  import opened GcContent

  // ---------------------------------------------------------------------
  // Classification of one trimmed line

  /** A trimmed input line: a `>` header with its trimmed name, or sequence text. */
  datatype Line = Header(name: string) | Body(text: string)

  /** `line.strip_prefix('>')`, and the name `header.trim()` when it succeeds. */
  function Classify(line: string): (l: Line)
    ensures l.Header? ==> Trim(l.name) == l.name
  {
    if |line| > 0 && line[0] == '>' then
      var name := Trim(line[1..]);
      TrimClean(name);
      Header(name)
    else Body(line)
  }

  /** The loop's view of the input: every line trimmed, then classified. */
  function ClassifyAll(lines: seq<string>): (t: seq<Line>)
    ensures |t| == |lines|
    ensures forall i :: 0 <= i < |lines| ==> t[i] == Classify(Trim(lines[i]))
  {
    seq(|lines|, i requires 0 <= i < |lines| => Classify(Trim(lines[i])))
  }

  /** A header line that starts a record. */
  predicate IsNamedHeader(l: Line) {
    l.Header? && l.name != ""
  }

  /** What a line adds to the sequence being collected. */
  function SequencePart(l: Line): string {
    if l.Body? then l.text else ""
  }

  // ---------------------------------------------------------------------
  // The reference: records by positions of header lines

  /** The positions of the named header lines of `t`, in increasing order. */
  function NamedHeaders(t: seq<Line>): (hs: seq<nat>)
    ensures forall j :: 0 <= j < |hs| ==> hs[j] < |t| && IsNamedHeader(t[hs[j]])
    ensures forall j, k :: 0 <= j < k < |hs| ==> hs[j] < hs[k]
  {
    if t == [] then []
    else
      var init := t[..|t| - 1];
      var hs := NamedHeaders(init);
      assert forall i :: 0 <= i < |init| ==> init[i] == t[i];
      if IsNamedHeader(t[|t| - 1]) then hs + [|t| - 1] else hs
  }

  /** Every named header line of `t` is listed by `NamedHeaders`. */
  lemma {:induction false} NamedHeadersComplete(t: seq<Line>, i: nat)
    requires i < |t| && IsNamedHeader(t[i])
    ensures i in NamedHeaders(t)
  {
    var init := t[..|t| - 1];
    if i < |init| {
      assert init[i] == t[i];
      NamedHeadersComplete(init, i);
    }
  }

  /** The position of the first header line (named or not) at or after `k`, or `|t|`. */
  function NextHeader(t: seq<Line>, k: nat): (e: nat)
    ensures e <= |t| && (k <= |t| ==> k <= e)
    ensures e < |t| ==> k <= e && t[e].Header?
    ensures forall i :: k <= i < e ==> !t[i].Header?
    decreases |t| - k
  {
    if k >= |t| then |t|
    else if t[k].Header? then k
    else NextHeader(t, k + 1)
  }

  /** The concatenated sequence lines among `t[lo..hi]`. */
  function SequenceBetween(t: seq<Line>, lo: nat, hi: nat): string
    requires hi <= |t|
    decreases hi
  {
    if hi <= lo then "" else SequenceBetween(t, lo, hi - 1) + SequencePart(t[hi - 1])
  }

  /** `hs` lists header lines of `t`. */
  ghost predicate HeaderPositions(t: seq<Line>, hs: seq<nat>) {
    forall k :: 0 <= k < |hs| ==> hs[k] < |t| && t[hs[k]].Header?
  }

  /** Where the stretch of lines of the j-th record starts. */
  function RecordStart(t: seq<Line>, hs: seq<nat>, j: nat): (s: nat)
    requires j <= |hs|
    ensures s <= |t|
  {
    if j == 0 then 0 else NextHeader(t, hs[j - 1] + 1)
  }

  /** The sequence of the j-th record: the sequence text of its stretch of lines. */
  function RecordSequence(t: seq<Line>, hs: seq<nat>, j: nat): string
    requires j < |hs|
  {
    SequenceBetween(t, RecordStart(t, hs, j), NextHeader(t, hs[j] + 1))
  }

  /** The name of the header line at position `i`. */
  function HeaderName(t: seq<Line>, i: nat): string {
    if i < |t| && t[i].Header? then t[i].name else ""
  }

  /** The j-th record: its header's name and its sequence. */
  function Record(t: seq<Line>, hs: seq<nat>, j: nat): GcResult
    requires j < |hs|
  {
    GcForSequence(HeaderName(t, hs[j]), RecordSequence(t, hs, j))
  }

  /** The first `m` records. */
  function RecordsUpTo(t: seq<Line>, hs: seq<nat>, m: nat): (rs: seq<GcResult>)
    requires m <= |hs|
    ensures |rs| == m
  {
    if m == 0 then [] else RecordsUpTo(t, hs, m - 1) + [Record(t, hs, m - 1)]
  }

  /** The records of the trimmed lines `t`, one per named header, in order. */
  function Records(t: seq<Line>): seq<GcResult> {
    var hs := NamedHeaders(t);
    RecordsUpTo(t, hs, |hs|)
  }

  /** What `calculate_gc_content` returns for `fasta`, before JSON encoding. */
  function GcContentReport(fasta: string): seq<GcResult> {
    Records(ClassifyAll(Lines(fasta)))
  }

  // ---------------------------------------------------------------------
  // The source's loop as a fold over trimmed lines

  /** `results`, `current_name` and `current_seq` of the loop. */
  datatype ParserState = ParserState(results: seq<GcResult>, currentName: string, currentSeq: string)

  const Initial := ParserState([], "", "")

  /** One iteration of the loop, on a trimmed and classified line. */
  ghost function Step(st: ParserState, l: Line): ParserState {
    match l
    case Header(name) =>
      if st.currentName != "" then
        ParserState(st.results + [GcForSequence(st.currentName, st.currentSeq)], name, "")
      else
        st.(currentName := name)
    case Body(text) =>
      if text != "" then st.(currentSeq := st.currentSeq + text) else st
  }

  ghost function Run(t: seq<Line>): ParserState {
    if t == [] then Initial else Step(Run(t[..|t| - 1]), t[|t| - 1])
  }

  /** The flush after the loop. */
  ghost function Finish(st: ParserState): seq<GcResult> {
    if st.currentName != "" then st.results + [GcForSequence(st.currentName, st.currentSeq)]
    else st.results
  }

  // ---------------------------------------------------------------------
  // How the reference changes when one more line is read

  /** The positions in `hs` increase strictly. */
  ghost predicate Increasing(hs: seq<nat>) {
    forall j, k :: 0 <= j < k < |hs| ==> hs[j] < hs[k]
  }

  lemma NamedHeadersSnoc(p: seq<Line>, l: Line)
    ensures NamedHeaders(p + [l]) == NamedHeaders(p) + (if IsNamedHeader(l) then [|p|] else [])
  {
    assert (p + [l])[..|p|] == p;
  }

  lemma {:induction false} NextHeaderSnoc(p: seq<Line>, l: Line, k: nat)
    requires k <= |p|
    ensures NextHeader(p + [l], k)
            == if NextHeader(p, k) < |p| then NextHeader(p, k)
               else if l.Header? then |p| else |p| + 1
    decreases |p| - k
  {
    if k < |p| {
      assert (p + [l])[k] == p[k];
      if !p[k].Header? {
        NextHeaderSnoc(p, l, k + 1);
      }
    } else {
      assert (p + [l])[|p|] == l;
    }
  }

  lemma {:induction false} SequenceBetweenSnoc(p: seq<Line>, l: Line, lo: nat, hi: nat)
    requires hi <= |p|
    ensures SequenceBetween(p + [l], lo, hi) == SequenceBetween(p, lo, hi)
    decreases hi
  {
    if lo < hi {
      SequenceBetweenSnoc(p, l, lo, hi - 1);
      assert (p + [l])[hi - 1] == p[hi - 1];
    }
  }

  /** Reading `l` adds its sequence text to every stretch that reaches the end. */
  lemma SequenceBetweenGrow(p: seq<Line>, l: Line, lo: nat)
    requires lo <= |p|
    ensures SequenceBetween(p + [l], lo, |p| + 1) == SequenceBetween(p, lo, |p|) + SequencePart(l)
  {
    SequenceBetweenSnoc(p, l, lo, |p|);
    assert (p + [l])[|p|] == l;
  }

  lemma HeaderPositionsSnoc(p: seq<Line>, l: Line, hs: seq<nat>)
    requires HeaderPositions(p, hs)
    ensures forall k :: 0 <= k < |hs| ==> (p + [l])[hs[k]] == p[hs[k]]
  {
  }

  /** A record that is followed by another header ends before it. */
  lemma EarlierRecordClosed(t: seq<Line>, hs: seq<nat>, j: nat)
    requires HeaderPositions(t, hs) && Increasing(hs) && j + 1 < |hs|
    ensures NextHeader(t, hs[j] + 1) < |t|
  {
    assert t[hs[j + 1]].Header?;
  }

  /** Record `j`'s stretch is closed before `l`, or `l` closes it. */
  ghost predicate ClosedBy(p: seq<Line>, hs: seq<nat>, l: Line, j: nat)
    requires j < |hs|
  {
    NextHeader(p, hs[j] + 1) < |p| || l.Header?
  }

  /** Reading `l` moves no stretch start that lies before the end of the input. */
  lemma RecordStartSnoc(p: seq<Line>, l: Line, hs: seq<nat>, j: nat)
    requires j <= |hs|
    requires j == 0 || NextHeader(p, hs[j - 1] + 1) < |p|
    ensures RecordStart(p + [l], hs, j) == RecordStart(p, hs, j)
  {
    if j > 0 {
      NextHeaderKept(p, l, hs[j - 1] + 1);
    }
  }

  /** A header found before the end of `p` is still the next one after reading `l`. */
  lemma NextHeaderKept(p: seq<Line>, l: Line, k: nat)
    requires NextHeader(p, k) < |p|
    ensures NextHeader(p + [l], k) == NextHeader(p, k)
  {
    NextHeaderSnoc(p, l, k);
  }

  /** Without a header in `p` from `k` on, a header line `l` becomes the next header. */
  lemma NextHeaderIsNew(p: seq<Line>, l: Line, k: nat)
    requires k <= |p| && NextHeader(p, k) == |p| && l.Header?
    ensures NextHeader(p + [l], k) == |p|
  {
    NextHeaderSnoc(p, l, k);
  }

  /** Without a header in `p` from `k` on, after a sequence line `l` there is still none. */
  lemma NextHeaderStillNone(p: seq<Line>, l: Line, k: nat)
    requires k <= |p| && NextHeader(p, k) == |p| && l.Body?
    ensures NextHeader(p + [l], k) == |p| + 1
  {
    NextHeaderSnoc(p, l, k);
  }

  /** The sequence of record `j`, given where its stretch starts and ends. */
  lemma RecordSequenceIs(t: seq<Line>, hs: seq<nat>, j: nat, start: nat, end: nat)
    requires j < |hs| && RecordStart(t, hs, j) == start && NextHeader(t, hs[j] + 1) == end
    ensures RecordSequence(t, hs, j) == SequenceBetween(t, start, end)
  {
  }

  /** Reading `l` leaves the sequence of a record whose stretch is closed as it is. */
  lemma RecordSequenceKept(p: seq<Line>, l: Line, hs: seq<nat>, j: nat)
    requires j < |hs| && (j == 0 || NextHeader(p, hs[j - 1] + 1) < |p|)
    requires NextHeader(p, hs[j] + 1) < |p|
    ensures RecordSequence(p + [l], hs, j) == RecordSequence(p, hs, j)
  {
    var start, end := RecordStart(p, hs, j), NextHeader(p, hs[j] + 1);
    RecordStartSnoc(p, l, hs, j);
    NextHeaderKept(p, l, hs[j] + 1);
    SequenceBetweenSnoc(p, l, start, end);
    RecordSequenceIs(p + [l], hs, j, start, end);
    RecordSequenceIs(p, hs, j, start, end);
  }

  /** Reading a header line leaves the sequence of every record as it is. */
  lemma RecordSequenceHeader(p: seq<Line>, l: Line, hs: seq<nat>, j: nat)
    requires j < |hs| && hs[j] < |p| && (j == 0 || NextHeader(p, hs[j - 1] + 1) < |p|)
    requires NextHeader(p, hs[j] + 1) == |p| && l.Header?
    ensures RecordSequence(p + [l], hs, j) == RecordSequence(p, hs, j)
  {
    var start := RecordStart(p, hs, j);
    RecordStartSnoc(p, l, hs, j);
    NextHeaderIsNew(p, l, hs[j] + 1);
    SequenceBetweenSnoc(p, l, start, |p|);
    RecordSequenceIs(p + [l], hs, j, start, |p|);
    RecordSequenceIs(p, hs, j, start, |p|);
  }

  /** A record whose stretch is closed before `l`, or by `l`, stays as it is. */
  lemma RecordSame(p: seq<Line>, l: Line, hs: seq<nat>, j: nat)
    requires j < |hs| && hs[j] < |p| && (j == 0 || NextHeader(p, hs[j - 1] + 1) < |p|)
    requires ClosedBy(p, hs, l, j)
    ensures Record(p + [l], hs, j) == Record(p, hs, j)
  {
    assert (p + [l])[hs[j]] == p[hs[j]];
    if NextHeader(p, hs[j] + 1) < |p| {
      RecordSequenceKept(p, l, hs, j);
    } else {
      RecordSequenceHeader(p, l, hs, j);
    }
  }

  lemma {:induction false} RecordsUpToSnoc(p: seq<Line>, l: Line, hs: seq<nat>, m: nat)
    requires HeaderPositions(p, hs) && Increasing(hs) && m <= |hs|
    requires m == 0 || ClosedBy(p, hs, l, m - 1)
    ensures RecordsUpTo(p + [l], hs, m) == RecordsUpTo(p, hs, m)
  {
    if m > 0 {
      if m > 1 {
        EarlierRecordClosed(p, hs, m - 2);
        assert ClosedBy(p, hs, l, m - 2);
      }
      assert hs[m - 1] < |p|;
      RecordsUpToSnoc(p, l, hs, m - 1);
      RecordSame(p, l, hs, m - 1);
      assert RecordsUpTo(p + [l], hs, m) == RecordsUpTo(p + [l], hs, m - 1) + [Record(p + [l], hs, m - 1)];
    }
  }

  // ---------------------------------------------------------------------
  // How the reference changes when one more header position is listed

  lemma RecordStartExtend(t: seq<Line>, hs: seq<nat>, x: nat, j: nat)
    requires j <= |hs|
    ensures RecordStart(t, hs + [x], j) == RecordStart(t, hs, j)
  {
    assert forall k :: 0 <= k < |hs| ==> (hs + [x])[k] == hs[k];
  }

  lemma RecordExtend(t: seq<Line>, hs: seq<nat>, x: nat, j: nat)
    requires j < |hs|
    ensures Record(t, hs + [x], j) == Record(t, hs, j)
  {
    RecordStartExtend(t, hs, x, j);
    assert (hs + [x])[j] == hs[j];
  }

  lemma {:induction false} RecordsUpToExtend(t: seq<Line>, hs: seq<nat>, x: nat, m: nat)
    requires m <= |hs|
    ensures RecordsUpTo(t, hs + [x], m) == RecordsUpTo(t, hs, m)
  {
    assert forall k :: 0 <= k < |hs| ==> (hs + [x])[k] == hs[k];
    if m > 0 {
      RecordsUpToExtend(t, hs, x, m - 1);
      RecordExtend(t, hs, x, m - 1);
    }
  }

  // ---------------------------------------------------------------------
  // The loop state against the reference

  /**
   * What the loop state means after the lines `t` whose named headers are
   * at `hs`: while a named record is open (`current_name` non-empty) all
   * earlier records are in `results` and `current_seq` holds the open
   * record's stretch so far; otherwise all records are in `results` and
   * `current_seq` holds the lines read since the last stretch closed.
   */
  ghost predicate TracksWith(t: seq<Line>, hs: seq<nat>, st: ParserState) {
    var n := |hs|;
    if st.currentName != "" then
      && n > 0
      && st.currentName == HeaderName(t, hs[n - 1])
      && NextHeader(t, hs[n - 1] + 1) == |t|
      && st.results == RecordsUpTo(t, hs, n - 1)
      && st.currentSeq == SequenceBetween(t, RecordStart(t, hs, n - 1), |t|)
    else
      && (n > 0 ==> NextHeader(t, hs[n - 1] + 1) < |t|)
      && st.results == RecordsUpTo(t, hs, n)
      && st.currentSeq == SequenceBetween(t, RecordStart(t, hs, n), |t|)
  }

  ghost predicate Tracks(t: seq<Line>, st: ParserState) {
    TracksWith(t, NamedHeaders(t), st)
  }

  /** A sequence line read while the last record is open leaves the earlier records alone. */
  lemma OpenBodyResults(p: seq<Line>, l: Line, hs: seq<nat>)
    requires HeaderPositions(p, hs) && Increasing(hs) && |hs| > 0 && l.Body?
    requires NextHeader(p, hs[|hs| - 1] + 1) == |p|
    ensures RecordsUpTo(p + [l], hs, |hs| - 1) == RecordsUpTo(p, hs, |hs| - 1)
  {
    var n := |hs|;
    if n > 1 {
      EarlierRecordClosed(p, hs, n - 2);
    }
    RecordsUpToSnoc(p, l, hs, n - 1);
  }

  /** A sequence line read while the last record is open extends that record's stretch. */
  lemma OpenBodySequence(p: seq<Line>, l: Line, hs: seq<nat>)
    requires HeaderPositions(p, hs) && Increasing(hs) && |hs| > 0 && l.Body?
    ensures var start := RecordStart(p, hs, |hs| - 1);
            SequenceBetween(p + [l], RecordStart(p + [l], hs, |hs| - 1), |p| + 1)
            == SequenceBetween(p, start, |p|) + l.text
  {
    var n := |hs|;
    if n > 1 {
      EarlierRecordClosed(p, hs, n - 2);
    }
    RecordStartSnoc(p, l, hs, n - 1);
    SequenceBetweenGrow(p, l, RecordStart(p, hs, n - 1));
  }

  lemma StepBodyOpen(p: seq<Line>, l: Line, hs: seq<nat>, st: ParserState)
    requires HeaderPositions(p, hs) && Increasing(hs) && l.Body?
    requires st.currentName != "" && TracksWith(p, hs, st)
    ensures TracksWith(p + [l], hs, Step(st, l))
  {
    var n := |hs|;
    HeaderPositionsSnoc(p, l, hs);
    NextHeaderStillNone(p, l, hs[n - 1] + 1);
    OpenBodyResults(p, l, hs);
    OpenBodySequence(p, l, hs);
    assert Step(st, l).currentSeq == st.currentSeq + l.text;
  }

  /** With no record open, a line that names no record only adds its text to the open stretch. */
  lemma IdleSnoc(p: seq<Line>, l: Line, hs: seq<nat>)
    requires HeaderPositions(p, hs) && Increasing(hs) && !IsNamedHeader(l)
    requires |hs| > 0 ==> NextHeader(p, hs[|hs| - 1] + 1) < |p|
    ensures |hs| > 0 ==> NextHeader(p + [l], hs[|hs| - 1] + 1) < |p| + 1
    ensures RecordsUpTo(p + [l], hs, |hs|) == RecordsUpTo(p, hs, |hs|)
    ensures RecordStart(p + [l], hs, |hs|) == RecordStart(p, hs, |hs|)
    ensures SequenceBetween(p + [l], RecordStart(p, hs, |hs|), |p| + 1)
            == SequenceBetween(p, RecordStart(p, hs, |hs|), |p|) + SequencePart(l)
  {
    var n := |hs|;
    HeaderPositionsSnoc(p, l, hs);
    RecordsUpToSnoc(p, l, hs, n);
    if n > 0 {
      NextHeaderKept(p, l, hs[n - 1] + 1);
    }
    RecordStartSnoc(p, l, hs, n);
    SequenceBetweenGrow(p, l, RecordStart(p, hs, n));
  }

  lemma StepBodyIdle(p: seq<Line>, l: Line, hs: seq<nat>, st: ParserState)
    requires HeaderPositions(p, hs) && Increasing(hs) && l.Body?
    requires st.currentName == "" && TracksWith(p, hs, st)
    ensures TracksWith(p + [l], hs, Step(st, l))
  {
    IdleSnoc(p, l, hs);
    assert Step(st, l).currentSeq == st.currentSeq + l.text;
  }

  /** Closing the open record of `st` yields the record the reference gives it. */
  lemma CloseOpenRecord(p: seq<Line>, l: Line, hs: seq<nat>, st: ParserState)
    requires HeaderPositions(p, hs) && Increasing(hs) && l.Header?
    requires st.currentName != "" && TracksWith(p, hs, st)
    ensures st.results + [GcForSequence(st.currentName, st.currentSeq)] == RecordsUpTo(p + [l], hs, |hs|)
    ensures NextHeader(p + [l], hs[|hs| - 1] + 1) == |p|
  {
    var n := |hs|;
    HeaderPositionsSnoc(p, l, hs);
    RecordsUpToSnoc(p, l, hs, n);
    NextHeaderSnoc(p, l, hs[n - 1] + 1);
    assert Record(p, hs, n - 1) == GcForSequence(st.currentName, st.currentSeq);
  }

  lemma StepNamedOpen(p: seq<Line>, l: Line, hs: seq<nat>, st: ParserState)
    requires HeaderPositions(p, hs) && Increasing(hs) && IsNamedHeader(l)
    requires st.currentName != "" && TracksWith(p, hs, st)
    ensures TracksWith(p + [l], hs + [|p|], Step(st, l))
  {
    var p', hs' := p + [l], hs + [|p|];
    var n := |hs|;
    CloseOpenRecord(p, l, hs, st);
    assert p'[|p|] == l;
    RecordsUpToExtend(p', hs, |p|, n);
    RecordStartExtend(p', hs, |p|, n);
    assert RecordStart(p', hs', n) == |p|;
    SequenceBetweenGrow(p, l, |p|);
  }

  lemma StepNamedIdle(p: seq<Line>, l: Line, hs: seq<nat>, st: ParserState)
    requires HeaderPositions(p, hs) && Increasing(hs) && IsNamedHeader(l)
    requires st.currentName == "" && TracksWith(p, hs, st)
    ensures TracksWith(p + [l], hs + [|p|], Step(st, l))
  {
    var p', hs' := p + [l], hs + [|p|];
    var n := |hs|;
    HeaderPositionsSnoc(p, l, hs);
    assert p'[|p|] == l;
    RecordsUpToSnoc(p, l, hs, n);
    RecordsUpToExtend(p', hs, |p|, n);
    RecordStartSnoc(p, l, hs, n);
    RecordStartExtend(p', hs, |p|, n);
    SequenceBetweenGrow(p, l, RecordStart(p, hs, n));
  }

  lemma StepUnnamedOpen(p: seq<Line>, l: Line, hs: seq<nat>, st: ParserState)
    requires HeaderPositions(p, hs) && Increasing(hs) && l.Header? && !IsNamedHeader(l)
    requires st.currentName != "" && TracksWith(p, hs, st)
    ensures TracksWith(p + [l], hs, Step(st, l))
  {
    var n := |hs|;
    CloseOpenRecord(p, l, hs, st);
    assert RecordStart(p + [l], hs, n) == |p|;
    SequenceBetweenGrow(p, l, |p|);
  }

  lemma StepUnnamedIdle(p: seq<Line>, l: Line, hs: seq<nat>, st: ParserState)
    requires HeaderPositions(p, hs) && Increasing(hs) && l.Header? && !IsNamedHeader(l)
    requires st.currentName == "" && TracksWith(p, hs, st)
    ensures TracksWith(p + [l], hs, Step(st, l))
  {
    var t, n := p + [l], |hs|;
    IdleSnoc(p, l, hs);
    assert st.currentSeq + SequencePart(l) == st.currentSeq;
    assert n > 0 ==> NextHeader(t, hs[n - 1] + 1) < |t|;
    assert st.results == RecordsUpTo(t, hs, n);
    assert st.currentSeq == SequenceBetween(t, RecordStart(t, hs, n), |t|);
    assert TracksWith(t, hs, st);
  }

  /** One loop iteration keeps the loop state in step with the reference. */
  lemma StepTracks(p: seq<Line>, l: Line, st: ParserState)
    requires Tracks(p, st)
    ensures Tracks(p + [l], Step(st, l))
  {
    var hs := NamedHeaders(p);
    NamedHeadersSnoc(p, l);
    if IsNamedHeader(l) {
      StepTracksNamed(p, l, hs, st);
    } else {
      assert NamedHeaders(p + [l]) == hs;
      StepTracksOther(p, l, hs, st);
    }
  }

  lemma StepTracksNamed(p: seq<Line>, l: Line, hs: seq<nat>, st: ParserState)
    requires HeaderPositions(p, hs) && Increasing(hs) && IsNamedHeader(l)
    requires TracksWith(p, hs, st)
    ensures TracksWith(p + [l], hs + [|p|], Step(st, l))
  {
    if st.currentName != "" { StepNamedOpen(p, l, hs, st); } else { StepNamedIdle(p, l, hs, st); }
  }

  lemma StepTracksOther(p: seq<Line>, l: Line, hs: seq<nat>, st: ParserState)
    requires HeaderPositions(p, hs) && Increasing(hs) && !IsNamedHeader(l)
    requires TracksWith(p, hs, st)
    ensures TracksWith(p + [l], hs, Step(st, l))
  {
    if l.Body? {
      if st.currentName != "" { StepBodyOpen(p, l, hs, st); } else { StepBodyIdle(p, l, hs, st); }
    } else {
      if st.currentName != "" { StepUnnamedOpen(p, l, hs, st); } else { StepUnnamedIdle(p, l, hs, st); }
    }
  }

  lemma {:induction false} RunTracks(t: seq<Line>)
    ensures Tracks(t, Run(t))
  {
    if t != [] {
      var p, l := t[..|t| - 1], t[|t| - 1];
      assert p + [l] == t;
      assert Run(t) == Step(Run(p), l);
      RunTracks(p);
      StepTracks(p, l, Run(p));
    }
  }

  /** Reading one more line of `t` is one more `Step`. */
  lemma RunPrefix(t: seq<Line>, i: nat)
    requires i < |t|
    ensures Run(t[..i + 1]) == Step(Run(t[..i]), t[i])
  {
    assert t[..i + 1][..i] == t[..i];
  }

  /** The flush after the loop completes the reference's records. */
  lemma FinishTracks(t: seq<Line>, st: ParserState)
    requires Tracks(t, st)
    ensures Finish(st) == Records(t)
  {
  }

  /** The fold of the loop, with the final flush, computes `Records`. */
  lemma RunComputesRecords(t: seq<Line>)
    ensures Finish(Run(t)) == Records(t)
  {
    RunTracks(t);
    FinishTracks(t, Run(t));
  }

  // ---------------------------------------------------------------------
  // The source's loop

  /**
   * `calculate_gc_content` without the final JSON encoding: read the
   * lines, trim each, start a record at every `>` header (closing the open
   * one if it has a name), append every other non-empty line to the
   * sequence, and close the last named record at the end.
   */
  method CalculateGcContent(fasta: string) returns (results: seq<GcResult>)
    ensures results == GcContentReport(fasta)
  {
    var lines := Lines(fasta);
    ghost var t := ClassifyAll(lines);
    results := [];
    var currentName := "";
    var currentSeq := "";
    for i := 0 to |lines|
      invariant ParserState(results, currentName, currentSeq) == Run(t[..i])
    {
      var line := Trim(lines[i]);
      assert t[i] == Classify(line);
      if |line| > 0 && line[0] == '>' {
        var header := line[1..];
        if currentName != "" {
          results := results + [GcForSequence(currentName, currentSeq)];
          currentSeq := "";
        }
        currentName := Trim(header);
      } else if line != "" {
        currentSeq := currentSeq + line;
      }
      RunPrefix(t, i);
    }
    if currentName != "" {
      results := results + [GcForSequence(currentName, currentSeq)];
    }
    assert t[..|lines|] == t;
    RunComputesRecords(t);
  }
}
