/**
 * The unit tests of the GC calculator, each stated as a lemma about the
 * report that `calculate_gc_content` produces for the test's input text.
 * The inputs are passed as parameters fixed by a `requires`, so that the
 * proofs go through small lemmas about line splitting and trimming
 * rather than by unfolding every definition on the literal text.
 */
module SourceTests {
  import opened Text
  import opened GcContent
  import opened FastaParser
  import opened ReportProperties

  // ---------------------------------------------------------------------
  // Reading test inputs line by line

  /** Text made of whole lines is read back as exactly those lines. */
  lemma ReportOfLines(ls: seq<string>)
    requires forall i :: 0 <= i < |ls| ==> PlainLine(ls[i])
    ensures GcContentReport(Terminated(ls)) == Records(ClassifyAll(ls))
  {
    LinesOfTerminated(ls);
  }

  /** A string without white space at either end. */
  predicate Clean(s: string) {
    s != [] && !IsWhitespace(s[0]) && !IsWhitespace(s[|s| - 1]) && '\n' !in s && '\r' !in s
  }

  /** A header line `>name` with a clean name is read as that header. */
  lemma HeaderLine(name: string)
    requires Clean(name)
    ensures Classify(Trim(">" + name)) == Header(name)
  {
    var line := ">" + name;
    assert line[0] == '>' && line[|line| - 1] == name[|name| - 1];
    assert !IsWhitespace(line[0]);
    TrimClean(line);
    assert line[1..] == name;
    TrimClean(name);
  }

  /** A clean sequence line is read as it is. */
  lemma BodyLine(text: string)
    requires Clean(text) && text[0] != '>'
    ensures Classify(Trim(text)) == Body(text)
  {
    TrimClean(text);
  }

  lemma HeaderPlain(name: string)
    requires Clean(name)
    ensures PlainLine(">" + name)
  {
    var line := ">" + name;
    assert line[|line| - 1] == name[|name| - 1];
    assert forall i :: 0 <= i < |line| && line[i] == '\n' ==> i > 0 && name[i - 1] == '\n';
  }

  lemma TerminatedCons(a: string, rest: seq<string>)
    ensures Terminated([a] + rest) == a + "\n" + Terminated(rest)
  {
    assert ([a] + rest)[1..] == rest;
  }

  /** Lines classified one by one as `t` are classified as `t` together. */
  lemma ClassifyAllIs(ls: seq<string>, t: seq<Line>)
    requires |ls| == |t|
    requires forall i :: 0 <= i < |ls| ==> Classify(Trim(ls[i])) == t[i]
    ensures ClassifyAll(ls) == t
  {
  }

  /** The lines of one entry, `>name` and one sequence line, are classified as such. */
  lemma ClassifyOneEntry(name: string, s: string)
    requires Clean(name) && Clean(s) && s[0] != '>'
    ensures ClassifyAll([">" + name, s]) == [Header(name), Body(s)]
  {
    var ls, t := [">" + name, s], [Header(name), Body(s)];
    forall i | 0 <= i < 2 ensures Classify(Trim(ls[i])) == t[i] {
      if i == 0 { HeaderLine(name); } else { BodyLine(s); }
    }
    ClassifyAllIs(ls, t);
  }

  /** The records of one named entry with one sequence line. */
  lemma RecordsOneEntry(name: string, s: string)
    requires name != ""
    ensures Records([Header(name), Body(s)]) == [GcForSequence(name, s)]
  {
    var t := [Header(name), Body(s)];
    RunSnoc([], t[0]);
    RunSnoc([t[0]], t[1]);
    assert Run([t[0]]) == ParserState([], name, "") by {
      assert [] + [t[0]] == [t[0]];
    }
    assert [t[0]] + [t[1]] == t;
    assert Run(t) == ParserState([], name, s);
    RunComputesRecords(t);
  }

  /** The text of one entry is read as its two lines. */
  lemma ReadOneEntry(name: string, s: string)
    requires Clean(name) && Clean(s)
    ensures GcContentReport(">" + name + "\n" + s + "\n") == Records(ClassifyAll([">" + name, s]))
  {
    var ls := [">" + name, s];
    TerminatedCons(ls[0], [s]);
    TerminatedCons(s, []);
    assert [ls[0]] + [s] == ls;
    assert Terminated(ls) == ">" + name + "\n" + s + "\n";
    HeaderPlain(name);
    ReportOfLines(ls);
  }

  /** Text `>name`, one sequence line: one record for that name and sequence. */
  lemma SingleEntryReport(fasta: string, name: string, s: string)
    requires Clean(name) && Clean(s) && s[0] != '>'
    requires fasta == ">" + name + "\n" + s + "\n"
    ensures GcContentReport(fasta) == [GcForSequence(name, s)]
  {
    ReadOneEntry(name, s);
    ClassifyOneEntry(name, s);
    RecordsOneEntry(name, s);
  }

  /** Text `>name` with two sequence lines: the lines are joined into one record. */
  lemma MultiLineEntryReport(fasta: string, name: string, a: string, b: string)
    requires Clean(name) && Clean(a) && Clean(b) && a[0] != '>' && b[0] != '>'
    requires fasta == ">" + name + "\n" + a + "\n" + b + "\n"
    ensures GcContentReport(fasta) == [GcForSequence(name, a + b)]
  {
    ReadMultiLine(fasta, name, a, b);
    ClassifyMultiLine(name, a, b);
    RecordsMultiLine(name, a, b);
  }

  /** String concatenation is associative. */
  lemma Regroup(x: string, y: string, z: string)
    ensures (x + y) + z == x + (y + z)
  {
  }

  /** The text of an entry with two sequence lines is read as its three lines. */
  lemma ReadMultiLine(fasta: string, name: string, a: string, b: string)
    requires Clean(name) && Clean(a) && Clean(b)
    requires fasta == ">" + name + "\n" + a + "\n" + b + "\n"
    ensures GcContentReport(fasta) == Records(ClassifyAll([">" + name, a, b]))
  {
    var ls := [">" + name, a, b];
    var u, w := ">" + name + "\n", ">" + name + "\n" + a + "\n";
    assert Terminated([b]) == b + "\n" by { TerminatedCons(b, []); }
    assert Terminated([a, b]) == (a + "\n") + (b + "\n") by {
      TerminatedCons(a, [b]);
      assert [a] + [b] == [a, b];
    }
    assert Terminated(ls) == u + ((a + "\n") + (b + "\n")) by {
      TerminatedCons(ls[0], [a, b]);
      assert [ls[0]] + [a, b] == ls;
    }
    Regroup(u, a, "\n");
    Regroup(w, b, "\n");
    Regroup(u, a + "\n", b + "\n");
    assert Terminated(ls) == fasta;
    HeaderPlain(name);
    ReportOfLines(ls);
  }

  lemma ClassifyMultiLine(name: string, a: string, b: string)
    requires Clean(name) && Clean(a) && Clean(b) && a[0] != '>' && b[0] != '>'
    ensures ClassifyAll([">" + name, a, b]) == [Header(name), Body(a), Body(b)]
  {
    var ls, t := [">" + name, a, b], [Header(name), Body(a), Body(b)];
    forall i | 0 <= i < 3 ensures Classify(Trim(ls[i])) == t[i] {
      if i == 0 { HeaderLine(name); } else if i == 1 { BodyLine(a); } else { BodyLine(b); }
    }
    ClassifyAllIs(ls, t);
  }

  lemma RecordsMultiLine(name: string, a: string, b: string)
    requires name != "" && a != "" && b != ""
    ensures Records([Header(name), Body(a), Body(b)]) == [GcForSequence(name, a + b)]
  {
    var t := [Header(name), Body(a), Body(b)];
    RunSnoc([], t[0]);
    RunSnoc([t[0]], t[1]);
    RunSnoc([t[0], t[1]], t[2]);
    assert Run([t[0], t[1]]) == ParserState([], name, a) by {
      assert [] + [t[0]] == [t[0]] && [t[0]] + [t[1]] == [t[0], t[1]];
    }
    assert Run(t) == ParserState([], name, a + b) by {
      assert [t[0], t[1]] + [t[2]] == t;
    }
    RunComputesRecords(t);
  }

  /** Two entries with one sequence line each: two records, in order. */
  lemma TwoEntriesReport(fasta: string, n1: string, a: string, n2: string, b: string)
    requires Clean(n1) && Clean(n2) && Clean(a) && Clean(b) && a[0] != '>' && b[0] != '>'
    requires fasta == ">" + n1 + "\n" + a + "\n" + ">" + n2 + "\n" + b + "\n"
    ensures GcContentReport(fasta) == [GcForSequence(n1, a), GcForSequence(n2, b)]
  {
    var ls := [">" + n1, a, ">" + n2, b];
    assert Terminated(ls) == fasta by {
      TerminatedCons(ls[0], [a, ls[2], b]);
      TerminatedCons(a, [ls[2], b]);
      TerminatedCons(ls[2], [b]);
      TerminatedCons(b, []);
      assert [ls[0]] + [a, ls[2], b] == ls && [a] + [ls[2], b] == [a, ls[2], b] && [ls[2]] + [b] == [ls[2], b];
    }
    assert PlainLine(ls[0]) && PlainLine(ls[2]) by { HeaderPlain(n1); HeaderPlain(n2); }
    ReportOfLines(ls);
    ClassifyTwoEntries(n1, a, n2, b);
    RecordsTwoEntries(n1, a, n2, b);
  }

  lemma ClassifyTwoEntries(n1: string, a: string, n2: string, b: string)
    requires Clean(n1) && Clean(n2) && Clean(a) && Clean(b) && a[0] != '>' && b[0] != '>'
    ensures ClassifyAll([">" + n1, a, ">" + n2, b]) == [Header(n1), Body(a), Header(n2), Body(b)]
  {
    var ls1, ls2 := [">" + n1, a], [">" + n2, b];
    ClassifyOneEntry(n1, a);
    ClassifyOneEntry(n2, b);
    ClassifyAllAppend(ls1, ls2);
    assert ls1 + ls2 == [">" + n1, a, ">" + n2, b];
  }

  lemma RecordsTwoEntries(n1: string, a: string, n2: string, b: string)
    requires n1 != "" && n2 != ""
    ensures Records([Header(n1), Body(a), Header(n2), Body(b)]) == [GcForSequence(n1, a), GcForSequence(n2, b)]
  {
    var t := [Header(n1), Body(a), Header(n2), Body(b)];
    RunSnoc([], t[0]);
    RunSnoc(t[..1], t[1]);
    RunSnoc(t[..2], t[2]);
    RunSnoc(t[..3], t[3]);
    assert [] + [t[0]] == t[..1] && t[..1] + [t[1]] == t[..2];
    assert t[..2] + [t[2]] == t[..3] && t[..3] + [t[3]] == t;
    assert Run(t[..2]) == ParserState([], n1, a);
    assert Run(t) == ParserState([GcForSequence(n1, a)], n2, b);
    RunComputesRecords(t);
  }

  // ---------------------------------------------------------------------
  // The tests

  // The records the tests expect, figure by figure.

  lemma AllGcRecord()
    ensures GcForSequence("s", "GCGCGCGC") == GcResult("s", 8, 8, Ratio(8, 8))
  {
    assert GcCount("GCGCGCGC") == 8 && ByteLength("GCGCGCGC") == 8;
  }

  lemma NoGcRecord()
    ensures GcForSequence("s", "ATATATAT") == GcResult("s", 8, 0, Ratio(0, 8))
  {
    assert GcCount("ATATATAT") == 0 && ByteLength("ATATATAT") == 8;
  }

  lemma MultilineRecord()
    ensures GcForSequence("s", "ATGC" + "ATGC") == GcResult("s", 8, 4, Ratio(4, 8))
  {
    assert "ATGC" + "ATGC" == "ATGCATGC";
    assert GcCount("ATGCATGC") == 4 && ByteLength("ATGCATGC") == 8;
  }

  lemma MultipleRecords()
    ensures GcForSequence("s1", "GGGG") == GcResult("s1", 4, 4, Ratio(4, 4))
    ensures GcForSequence("s2", "AAAA") == GcResult("s2", 4, 0, Ratio(0, 4))
  {
    assert GcCount("GGGG") == 4 && ByteLength("GGGG") == 4;
    assert GcCount("AAAA") == 0 && ByteLength("AAAA") == 4;
  }

  lemma MixedCaseRecord()
    ensures GcForSequence("s", "gcGC") == GcResult("s", 4, 4, Ratio(4, 4))
  {
    assert GcCount("gcGC") == 4 && ByteLength("gcGC") == 4;
  }

  lemma SingleBaseRecord()
    ensures GcForSequence("s", "A") == GcResult("s", 1, 0, Ratio(0, 1))
  {
    assert GcCount("A") == 0 && ByteLength("A") == 1;
  }

  /** `test_all_gc`: eight G/C bases give length 8, count 8 and content 1. */
  lemma TestAllGc(fasta: string)
    requires fasta == ">s\nGCGCGCGC\n"
    ensures var r := GcContentReport(fasta);
            |r| == 1 && r[0].length == 8 && r[0].gcCount == 8
            && r[0].gcContent.num == r[0].gcContent.den
  {
    SingleEntryReport(fasta, "s", "GCGCGCGC");
    AllGcRecord();
  }

  /** `test_no_gc`: a sequence without G or C has count 0 and content 0. */
  lemma TestNoGc(fasta: string)
    requires fasta == ">s\nATATATAT\n"
    ensures var r := GcContentReport(fasta);
            |r| == 1 && r[0].gcCount == 0 && r[0].gcContent.num == 0
  {
    SingleEntryReport(fasta, "s", "ATATATAT");
    NoGcRecord();
  }

  /** `test_multiline_sequence`: two lines of `ATGC` make one sequence of length 8, count 4, content 1/2. */
  lemma TestMultilineSequence(fasta: string)
    requires fasta == ">s\nATGC\nATGC\n"
    ensures var r := GcContentReport(fasta);
            |r| == 1 && r[0].length == 8 && r[0].gcCount == 4 && 2 * r[0].gcContent.num == r[0].gcContent.den
  {
    MultiLineEntryReport(fasta, "s", "ATGC", "ATGC");
    MultilineRecord();
  }

  /** `test_multiple_sequences`: two entries give two records, in order, with contents 1 and 0. */
  lemma TestMultipleSequences(fasta: string)
    requires fasta == ">s1\nGGGG\n>s2\nAAAA\n"
    ensures var r := GcContentReport(fasta);
            && |r| == 2
            && r[0].name == "s1" && r[0].gcContent.num == r[0].gcContent.den
            && r[1].name == "s2" && r[1].gcContent.num == 0
  {
    TwoEntriesReport(fasta, "s1", "GGGG", "s2", "AAAA");
    MultipleRecords();
  }

  /** `test_empty_input`: the empty text gives no records. */
  lemma TestEmptyInput(fasta: string)
    requires fasta == ""
    ensures GcContentReport(fasta) == []
  {
    BlankInputNoRecords(fasta);
  }

  /** `test_case_insensitive`: lower-case `g` and `c` count too, so `gcGC` has content 1. */
  lemma TestCaseInsensitive(fasta: string)
    requires fasta == ">s\ngcGC\n"
    ensures var r := GcContentReport(fasta);
            |r| == 1 && r[0].gcContent.num == r[0].gcContent.den
  {
    SingleEntryReport(fasta, "s", "gcGC");
    MixedCaseRecord();
  }

  /** `test_single_base`: one `A` gives length 1 and content 0. */
  lemma TestSingleBase(fasta: string)
    requires fasta == ">s\nA\n"
    ensures var r := GcContentReport(fasta);
            |r| == 1 && r[0].length == 1 && r[0].gcContent.num == 0
  {
    SingleEntryReport(fasta, "s", "A");
    SingleBaseRecord();
  }
}
