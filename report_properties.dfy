/**
 * What the report of `calculate_gc_content` promises, proved about the
 * reference `Records` (and so, through `CalculateGcContent`'s contract,
 * about the loop): one record per named header in header order, nothing
 * without a named header, the sequence lines of a well-formed entry joined
 * into its record, blank lines ignored, and every record's figures in range.
 */
module ReportProperties {
  import opened Text
  import opened GcContent
  import opened FastaParser

  // ---------------------------------------------------------------------
  // Count, names and order of the records

  /** The names of the named header lines of `t`, in order of appearance. */
  function HeaderNames(t: seq<Line>): seq<string> {
    if t == [] then []
    else
      var last := t[|t| - 1];
      HeaderNames(t[..|t| - 1]) + (if IsNamedHeader(last) then [last.name] else [])
  }

  function Names(rs: seq<GcResult>): seq<string> {
    seq(|rs|, j requires 0 <= j < |rs| => rs[j].name)
  }

  lemma {:induction false} RecordsUpToAt(t: seq<Line>, hs: seq<nat>, m: nat, j: nat)
    requires j < m <= |hs|
    ensures RecordsUpTo(t, hs, m)[j] == Record(t, hs, j)
  {
    var earlier := RecordsUpTo(t, hs, m - 1);
    assert RecordsUpTo(t, hs, m) == earlier + [Record(t, hs, m - 1)];
    if j < m - 1 {
      assert RecordsUpTo(t, hs, m)[j] == earlier[j];
      RecordsUpToAt(t, hs, m - 1, j);
    }
  }

  lemma {:induction false} HeaderNamesAt(t: seq<Line>)
    ensures |HeaderNames(t)| == |NamedHeaders(t)|
    ensures forall j :: 0 <= j < |NamedHeaders(t)| ==> HeaderNames(t)[j] == t[NamedHeaders(t)[j]].name
  {
    if t != [] {
      var p, last := t[..|t| - 1], t[|t| - 1];
      assert p + [last] == t;
      HeaderNamesAt(p);
      NamedHeadersSnoc(p, last);
      assert forall i :: 0 <= i < |p| ==> p[i] == t[i];
    }
  }

  /** The records carry the names of the named headers, one each, in the same order. */
  lemma RecordNames(t: seq<Line>)
    ensures Names(Records(t)) == HeaderNames(t)
  {
    var hs := NamedHeaders(t);
    HeaderNamesAt(t);
    forall j | 0 <= j < |hs|
      ensures Records(t)[j].name == HeaderNames(t)[j]
    {
      RecordsUpToAt(t, hs, |hs|, j);
    }
  }

  /** There are no records exactly when no header line has a non-empty name. */
  lemma RecordsEmpty(t: seq<Line>)
    ensures Records(t) == [] <==> forall i :: 0 <= i < |t| ==> !IsNamedHeader(t[i])
  {
    var hs := NamedHeaders(t);
    if i :| 0 <= i < |t| && IsNamedHeader(t[i]) {
      NamedHeadersComplete(t, i);
    }
    if hs != [] {
      assert IsNamedHeader(t[hs[0]]);
    }
  }

  /** An input whose every line is blank, the empty input among them, gives no records. */
  lemma BlankInputNoRecords(fasta: string)
    requires forall x :: x in Lines(fasta) ==> Trim(x) == ""
    ensures GcContentReport(fasta) == []
  {
    var ls := Lines(fasta);
    var t := ClassifyAll(ls);
    forall i | 0 <= i < |t|
      ensures !IsNamedHeader(t[i])
    {
      assert ls[i] in ls;
    }
    RecordsEmpty(t);
  }

  /** The name of every record is the trimmed text after the `>` of its trimmed header line. */
  lemma ReportNameIsTrimmedHeader(fasta: string, j: nat)
    requires j < |GcContentReport(fasta)|
    ensures var ls := Lines(fasta);
            var i := NamedHeaders(ClassifyAll(ls))[j];
            i < |ls| && |Trim(ls[i])| > 0 && Trim(ls[i])[0] == '>'
            && GcContentReport(fasta)[j].name == Trim(Trim(ls[i])[1..]) != ""
  {
    var t := ClassifyAll(Lines(fasta));
    RecordsUpToAt(t, NamedHeaders(t), |NamedHeaders(t)|, j);
  }

  // ---------------------------------------------------------------------
  // Figures of every record

  /** Every record counts at most as many G/C as it has bytes, and its ratio lies in [0, 1]. */
  lemma RecordsInRange(t: seq<Line>, j: nat)
    requires j < |Records(t)|
    ensures var r := Records(t)[j];
            && r.gcCount <= r.length
            && r.gcContent.den > 0 && r.gcContent.num <= r.gcContent.den
            && (r.length > 0 ==> r.gcContent == Ratio(r.gcCount, r.length))
            && (r.length == 0 ==> r.gcContent.num == 0)
  {
    RecordsUpToAt(t, NamedHeaders(t), |NamedHeaders(t)|, j);
  }

  // ---------------------------------------------------------------------
  // Well-formed input: sequence lines are joined under their header

  /**
   * Input with no sequence text before its first header line and whose
   * headers all have names; blank lines may come first.
   */
  predicate WellFormed(t: seq<Line>) {
    && (forall i :: 0 <= i < |t| && t[i].Body? && t[i].text != "" ==> exists k :: 0 <= k < i && t[k].Header?)
    && forall i :: 0 <= i < |t| && t[i].Header? ==> t[i].name != ""
  }

  /** A stretch of lines without sequence text has empty sequence text. */
  lemma {:induction false} SequenceBetweenEmpty(t: seq<Line>, lo: nat, hi: nat)
    requires lo <= hi <= |t|
    requires forall i :: lo <= i < hi ==> SequencePart(t[i]) == ""
    ensures SequenceBetween(t, lo, hi) == ""
    decreases hi
  {
    if lo < hi {
      SequenceBetweenEmpty(t, lo, hi - 1);
      assert SequencePart(t[hi - 1]) == "";
    }
  }

  /** Lines without sequence text add nothing to a stretch. */
  lemma {:induction false} SequenceBetweenSilent(t: seq<Line>, lo: nat, mid: nat, hi: nat)
    requires lo <= mid <= hi <= |t|
    requires forall i :: lo <= i < mid ==> SequencePart(t[i]) == ""
    ensures SequenceBetween(t, lo, hi) == SequenceBetween(t, mid, hi)
    decreases hi
  {
    if hi > mid {
      SequenceBetweenSilent(t, lo, mid, hi - 1);
    } else {
      SequenceBetweenEmpty(t, lo, hi);
    }
  }

  /** In well-formed input a record after the first starts its stretch at its own header. */
  lemma WellFormedStart(t: seq<Line>, j: nat)
    requires WellFormed(t) && 0 < j < |NamedHeaders(t)|
    ensures RecordStart(t, NamedHeaders(t), j) == NamedHeaders(t)[j]
  {
    var hs := NamedHeaders(t);
    var e := RecordStart(t, hs, j);
    assert hs[j - 1] < hs[j];
    assert e <= hs[j];
    NamedHeadersComplete(t, e);
    var k :| 0 <= k < |hs| && hs[k] == e;
    assert hs[j - 1] < e;
    assert k > j - 1;
  }

  /** In well-formed input no line up to the first named header carries sequence text. */
  lemma WellFormedPreamble(t: seq<Line>)
    requires WellFormed(t) && 0 < |NamedHeaders(t)|
    ensures forall i :: 0 <= i <= NamedHeaders(t)[0] ==> SequencePart(t[i]) == ""
  {
    var hs := NamedHeaders(t);
    forall i | 0 <= i <= hs[0]
      ensures SequencePart(t[i]) == ""
    {
      if t[i].Body? && t[i].text != "" {
        var k :| 0 <= k < i && t[k].Header?;
        NamedHeadersComplete(t, k);
        assert false;
      }
    }
  }

  /** In well-formed input the first record's sequence starts right after its header. */
  lemma WellFormedFirstSequence(t: seq<Line>, j: nat)
    requires WellFormed(t) && j == 0 < |NamedHeaders(t)|
    ensures var h := NamedHeaders(t)[j];
            RecordSequence(t, NamedHeaders(t), j) == SequenceBetween(t, h + 1, NextHeader(t, h + 1))
  {
    var h := NamedHeaders(t)[j];
    var e := NextHeader(t, h + 1);
    WellFormedPreamble(t);
    SequenceBetweenSilent(t, 0, h + 1, e);
  }

  /** In well-formed input a later record's sequence starts right after its header. */
  lemma WellFormedLaterSequence(t: seq<Line>, j: nat)
    requires WellFormed(t) && 0 < j < |NamedHeaders(t)|
    ensures var h := NamedHeaders(t)[j];
            RecordSequence(t, NamedHeaders(t), j) == SequenceBetween(t, h + 1, NextHeader(t, h + 1))
  {
    var h := NamedHeaders(t)[j];
    var e := NextHeader(t, h + 1);
    WellFormedStart(t, j);
    assert t[h].Header?;
    SequenceBetweenSilent(t, h, h + 1, e);
  }

  /** In well-formed input a record's sequence starts right after its own header. */
  lemma WellFormedSequence(t: seq<Line>, j: nat)
    requires WellFormed(t) && j < |NamedHeaders(t)|
    ensures var h := NamedHeaders(t)[j];
            RecordSequence(t, NamedHeaders(t), j) == SequenceBetween(t, h + 1, NextHeader(t, h + 1))
  {
    if j == 0 {
      WellFormedFirstSequence(t, j);
    } else {
      WellFormedLaterSequence(t, j);
    }
  }

  /**
   * In well-formed input every record holds the concatenation of the
   * sequence lines between its header and the next header.
   */
  lemma WellFormedRecord(t: seq<Line>, j: nat)
    requires WellFormed(t) && j < |NamedHeaders(t)|
    ensures var hs := NamedHeaders(t);
            Records(t)[j] == GcForSequence(t[hs[j]].name, SequenceBetween(t, hs[j] + 1, NextHeader(t, hs[j] + 1)))
  {
    var hs := NamedHeaders(t);
    RecordsUpToAt(t, hs, |hs|, j);
    WellFormedSequence(t, j);
  }

  /** In well-formed input every header line gives a record. */
  lemma WellFormedCount(t: seq<Line>, i: nat)
    requires WellFormed(t) && i < |t| && t[i].Header?
    ensures i in NamedHeaders(t)
  {
    NamedHeadersComplete(t, i);
  }

  // ---------------------------------------------------------------------
  // Blank lines

  /** A line that leaves the loop state after `s` as it is can be dropped from the input. */
  lemma {:induction false} RunNeutral(s: seq<Line>, l: Line, r: seq<Line>)
    requires Step(Run(s), l) == Run(s)
    ensures Run(s + [l] + r) == Run(s + r)
    decreases |r|
  {
    if r == [] {
      assert s + [l] + r == s + [l];
      RunSnoc(s, l);
      assert s + r == s;
    } else {
      var r', x := r[..|r| - 1], r[|r| - 1];
      RunNeutral(s, l, r');
      var u, v := s + [l] + r, s + r;
      assert u[..|u| - 1] == s + [l] + r' && u[|u| - 1] == x;
      assert v[..|v| - 1] == s + r' && v[|v| - 1] == x;
    }
  }

  lemma BlankLineIgnored(t1: seq<Line>, t2: seq<Line>)
    ensures Records(t1 + [Body("")] + t2) == Records(t1 + t2)
  {
    RunNeutral(t1, Body(""), t2);
    RunComputesRecords(t1 + [Body("")] + t2);
    RunComputesRecords(t1 + t2);
  }

  /** Classifying is done line by line, so it distributes over concatenation. */
  lemma ClassifyAllAppend(ls1: seq<string>, ls2: seq<string>)
    ensures ClassifyAll(ls1 + ls2) == ClassifyAll(ls1) + ClassifyAll(ls2)
  {
    var ls, t1, t2 := ls1 + ls2, ClassifyAll(ls1), ClassifyAll(ls2);
    forall i | 0 <= i < |ls|
      ensures ClassifyAll(ls)[i] == (t1 + t2)[i]
    {
      if i < |ls1| {
        assert ls[i] == ls1[i] && (t1 + t2)[i] == t1[i];
      } else {
        assert ls[i] == ls2[i - |ls1|] && (t1 + t2)[i] == t2[i - |ls1|];
      }
    }
    assert |ClassifyAll(ls)| == |t1 + t2|;
  }

  /** The same for raw input lines: a whitespace-only line changes no record. */
  lemma BlankRawLineIgnored(ls1: seq<string>, w: string, ls2: seq<string>)
    requires Trim(w) == ""
    ensures Records(ClassifyAll(ls1 + [w] + ls2)) == Records(ClassifyAll(ls1 + ls2))
  {
    var t1, t2 := ClassifyAll(ls1), ClassifyAll(ls2);
    assert ClassifyAll([w]) == [Body("")];
    ClassifyAllAppend(ls1, [w]);
    ClassifyAllAppend(ls1 + [w], ls2);
    ClassifyAllAppend(ls1, ls2);
    BlankLineIgnored(t1, t2);
  }

  // ---------------------------------------------------------------------
  // Behaviour on input that does not start cleanly

  /** The fold reads its last line last. */
  lemma RunSnoc(p: seq<Line>, l: Line)
    ensures Run(p + [l]) == Step(Run(p), l)
  {
    assert (p + [l])[..|p|] == p;
  }

  /** The loop state with `earlier` records already emitted before it. */
  ghost function After(earlier: seq<GcResult>, st: ParserState): ParserState {
    st.(results := earlier + st.results)
  }

  /** The loop body does not look at records already emitted. */
  lemma StepAfter(earlier: seq<GcResult>, st: ParserState, l: Line)
    ensures Step(After(earlier, st), l) == After(earlier, Step(st, l))
  {
    if l.Header? && st.currentName != "" {
      var r := GcForSequence(st.currentName, st.currentSeq);
      assert (earlier + st.results) + [r] == earlier + (st.results + [r]);
    }
  }

  /** The flush after the loop also leaves records already emitted alone. */
  lemma FinishAfter(earlier: seq<GcResult>, st: ParserState)
    ensures Finish(After(earlier, st)) == earlier + Finish(st)
  {
    if st.currentName != "" {
      var r := GcForSequence(st.currentName, st.currentSeq);
      assert (earlier + st.results) + [r] == earlier + (st.results + [r]);
    }
  }

  /**
   * After a header with an empty name has closed an open record, the loop
   * starts afresh: it is in the state it has after reading the rest of the
   * input alone, with the records of `t1` emitted before.
   */
  lemma {:induction false} RunAfterUnnamed(t1: seq<Line>, t2: seq<Line>)
    requires Run(t1).currentName != ""
    ensures Run(t1 + [Header("")] + t2) == After(Finish(Run(t1)), Run(t2))
    decreases |t2|
  {
    if t2 == [] {
      assert t1 + [Header("")] + t2 == t1 + [Header("")];
      RunSnoc(t1, Header(""));
    } else {
      var p, x := t2[..|t2| - 1], t2[|t2| - 1];
      RunAfterUnnamed(t1, p);
      var u := t1 + [Header("")] + t2;
      assert u[..|u| - 1] == t1 + [Header("")] + p && u[|u| - 1] == x;
      assert p + [x] == t2;
      RunSnoc(p, x);
      StepAfter(Finish(Run(t1)), Run(p), x);
    }
  }

  /**
   * A header with an empty name that follows an open record closes it and
   * starts none: what follows is read as if it were a separate input, so
   * its sequence lines go to the next named record.
   */
  lemma EmptyHeaderCarriesOver(t1: seq<Line>, t2: seq<Line>)
    requires Run(t1).currentName != ""
    ensures Records(t1 + [Header("")] + t2) == Records(t1) + Records(t2)
  {
    var u := t1 + [Header("")] + t2;
    RunAfterUnnamed(t1, t2);
    FinishAfter(Finish(Run(t1)), Run(t2));
    RunComputesRecords(u);
    RunComputesRecords(t1);
    RunComputesRecords(t2);
  }

  /** Lines after such a header are dropped when no named header follows them. */
  lemma EmptyHeaderTailDropped(t1: seq<Line>, t2: seq<Line>)
    requires Run(t1).currentName != ""
    requires forall i :: 0 <= i < |t2| ==> !IsNamedHeader(t2[i])
    ensures Records(t1 + [Header("")] + t2) == Records(t1)
  {
    EmptyHeaderCarriesOver(t1, t2);
    RecordsEmpty(t2);
    assert Records(t1) + [] == Records(t1);
  }

  /** A header with an empty name read while no record is open changes nothing. */
  lemma EmptyHeaderIdle(t1: seq<Line>, t2: seq<Line>)
    requires Run(t1).currentName == ""
    ensures Records(t1 + [Header("")] + t2) == Records(t1 + t2)
  {
    RunNeutral(t1, Header(""), t2);
    RunComputesRecords(t1 + [Header("")] + t2);
    RunComputesRecords(t1 + t2);
  }

  // ---------------------------------------------------------------------
  // Sequence lines before the first named header

  /** A record whose sequence has `p` put in front of it. */
  function Prefixed(p: string, r: GcResult): (r': GcResult)
    ensures r'.name == r.name
    ensures r'.length == ByteLength(p) + r.length && r'.gcCount == GcCount(p) + r.gcCount
  {
    var length := ByteLength(p) + r.length;
    var gcCount := GcCount(p) + r.gcCount;
    GcResult(r.name, length, gcCount, if length > 0 then Ratio(gcCount, length) else Ratio(0, 1))
  }

  /** Putting `p` in front of the record of `s` gives the record of `p + s`. */
  lemma PrefixedRecord(p: string, name: string, s: string)
    ensures Prefixed(p, GcForSequence(name, s)) == GcForSequence(name, p + s)
  {
    GcCountAppend(p, s);
    ByteLengthAppend(p, s);
  }

  /** `rs'` is `rs` with `p` put in front of the first record's sequence. */
  ghost predicate FirstPrefixed(p: string, rs': seq<GcResult>, rs: seq<GcResult>) {
    |rs'| == |rs| && (rs != [] ==> rs'[0] == Prefixed(p, rs[0]) && rs'[1..] == rs[1..])
  }

  /**
   * The loop state after the preamble `p` and some lines, against the state
   * after the same lines alone: until a record is emitted, `p` is still in
   * front of the open sequence; afterwards it is in front of the first record.
   */
  ghost predicate PrefixedState(p: string, st': ParserState, st: ParserState) {
    st'.currentName == st.currentName
    && FirstPrefixed(p, st'.results, st.results)
    && st'.currentSeq == (if st.results == [] then p + st.currentSeq else st.currentSeq)
  }

  lemma StepPrefixed(p: string, st': ParserState, st: ParserState, l: Line)
    requires PrefixedState(p, st', st)
    ensures PrefixedState(p, Step(st', l), Step(st, l))
  {
    match l
    case Header(name) =>
      if st.currentName != "" {
        var r := GcForSequence(st.currentName, st.currentSeq);
        if st.results == [] {
          PrefixedRecord(p, st.currentName, st.currentSeq);
          assert Step(st', l).results == [Prefixed(p, r)];
        } else {
          assert Step(st', l).results == st'.results + [r];
          assert (st'.results + [r])[1..] == st'.results[1..] + [r];
          assert (st.results + [r])[1..] == st.results[1..] + [r];
        }
      }
    case Body(text) =>
      if text != "" && st.results == [] {
        assert (p + st.currentSeq) + text == p + (st.currentSeq + text);
      }
  }

  lemma FinishPrefixed(p: string, st': ParserState, st: ParserState)
    requires PrefixedState(p, st', st)
    ensures FirstPrefixed(p, Finish(st'), Finish(st))
  {
    if st.currentName != "" {
      var r := GcForSequence(st.currentName, st.currentSeq);
      if st.results == [] {
        PrefixedRecord(p, st.currentName, st.currentSeq);
      } else {
        assert (st'.results + [r])[1..] == st'.results[1..] + [r];
        assert (st.results + [r])[1..] == st.results[1..] + [r];
      }
    }
  }

  /** Lines without a named header only gather their sequence text. */
  lemma {:induction false} RunPreamble(pre: seq<Line>)
    requires forall i :: 0 <= i < |pre| ==> !IsNamedHeader(pre[i])
    ensures Run(pre) == ParserState([], "", SequenceBetween(pre, 0, |pre|))
  {
    if pre != [] {
      var q, l := pre[..|pre| - 1], pre[|pre| - 1];
      assert q + [l] == pre;
      RunPreamble(q);
      SequenceBetweenSnoc(q, l, 0, |q|);
    }
  }

  lemma {:induction false} RunPrefixed(pre: seq<Line>, t: seq<Line>)
    requires forall i :: 0 <= i < |pre| ==> !IsNamedHeader(pre[i])
    ensures PrefixedState(SequenceBetween(pre, 0, |pre|), Run(pre + t), Run(t))
    decreases |t|
  {
    if t == [] {
      assert pre + t == pre;
      RunPreamble(pre);
      assert SequenceBetween(pre, 0, |pre|) + "" == SequenceBetween(pre, 0, |pre|);
    } else {
      var q, l := t[..|t| - 1], t[|t| - 1];
      assert q + [l] == t && pre + t == (pre + q) + [l];
      RunPrefixed(pre, q);
      RunSnoc(pre + q, l);
      RunSnoc(q, l);
      StepPrefixed(SequenceBetween(pre, 0, |pre|), Run(pre + q), Run(q), l);
    }
  }

  /**
   * Sequence lines before the first named header (across headers with an
   * empty name) are prepended to the first named record; the other records
   * are as without them.
   */
  lemma PreambleJoinsFirstRecord(pre: seq<Line>, t: seq<Line>)
    requires forall i :: 0 <= i < |pre| ==> !IsNamedHeader(pre[i])
    requires Records(t) != []
    ensures |Records(pre + t)| == |Records(t)|
    ensures Records(pre + t)[0]
            == GcForSequence(Records(t)[0].name,
                             SequenceBetween(pre, 0, |pre|) + RecordSequence(t, NamedHeaders(t), 0))
    ensures Records(pre + t)[1..] == Records(t)[1..]
  {
    var p, hs := SequenceBetween(pre, 0, |pre|), NamedHeaders(t);
    RunPrefixed(pre, t);
    FinishPrefixed(p, Run(pre + t), Run(t));
    RunComputesRecords(pre + t);
    RunComputesRecords(t);
    RecordsUpToAt(t, hs, |hs|, 0);
    PrefixedRecord(p, Records(t)[0].name, RecordSequence(t, hs, 0));
  }
}
