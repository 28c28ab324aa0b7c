# GC calculator: a verified model of the FASTA reader and GC counter

This project models the computational core of the `gc_calculator` tool of the
biowasm example: the Rust function `calculate_gc_content`, which reads FASTA
text line by line and reports, for every named sequence, its length, its
number of G/C bases and its GC fraction, and its helper `gc_for_sequence`,
which builds one such record.

The model has five modules:

- `Text` (`text.dfy`): the two pieces of Rust's `str` API the reader uses:
  `str::lines` (split at `'\n'`, a `"\r\n"` ending counts as one line end, no
  extra empty line after a final line feed) and `str::trim` (strip characters
  with the Unicode White_Space property from both ends).
- `GcContent` (`gc_content.dfy`): `gc_for_sequence` as the function
  `GcForSequence`. `length` is the UTF-8 byte length of the sequence, as
  `str::len` gives it. `gc_count` counts the characters whose ASCII upper case
  is `G` or `C`. `gc_content` is an exact fraction `Ratio(num, den)` instead of
  an `f64`, with `Ratio(0, 1)` for an empty sequence.
- `FastaParser` (`fasta_parser.dfy`): `calculate_gc_content` as the method
  `CalculateGcContent`, with the same loop over trimmed lines and the same
  three pieces of state (`results`, `current_name`, `current_seq`). It is
  proved equal to `GcContentReport`, a reference reading of the input by line
  positions. In that reading, record j belongs to the j-th header line with a
  non-empty name. Its lines end at the next header line of any kind. They
  start where record j-1's lines ended, or at the first line for record 0.
  This reproduces two behaviours of the source exactly:
  - sequence lines before the first header are prepended to the first named
    record;
  - a header with an empty name (`>` alone) closes the open record and starts
    none; the lines after it go to the next named record, or are dropped at
    the end of the input.

  The ghost fold `Run`/`Step` restates the loop body one line at a time and
  connects the method to the reference.
- `ReportProperties` (`report_properties.dfy`): what the report promises,
  proved about the reference.
- `SourceTests` (`source_tests.dfy`): the seven unit tests of `lib.rs`,
  each as a lemma about the report for the test's exact input text.

## Model

| member | source | states |
|---|---|---|
| `Text.Trim` | tools/gc_calculator/src/lib.rs:23 | the trimmed line is no longer than the line, and unless empty it starts and ends with a non-white-space character |
| `Text.TrimEmpty` | tools/gc_calculator/src/lib.rs:30 | a line trims to the empty string exactly when every character of it is white space, so such lines are skipped |
| `Text.TrimPadded` | tools/gc_calculator/src/lib.rs:23 | trimming removes exactly the white space around a word that starts and ends with non-space characters |
| `Text.Lines` | tools/gc_calculator/src/lib.rs:22 | the input has no lines exactly when it is empty, and no line contains a line feed |
| `Text.LinesRoundTrip` | tools/gc_calculator/src/lib.rs:22 | for text without carriage returns, joining the lines with line feeds restores the text, up to an optional final line feed |
| `Text.LinesOfTerminated` | tools/gc_calculator/src/lib.rs:22 | text written as lines each ended by a line feed is split back into exactly those lines |
| `GcContent.ToAsciiUppercaseIdempotent` | tools/gc_calculator/src/lib.rs:47 | upper-casing an already upper-cased character changes nothing |
| `GcContent.IsGcExactly` | tools/gc_calculator/src/lib.rs:47 | the filter accepts exactly the four characters `G`, `C`, `g` and `c` |
| `GcContent.GcCount` | tools/gc_calculator/src/lib.rs:45-48 | the G/C count never exceeds the number of characters |
| `GcContent.GcCountOccurrences` | tools/gc_calculator/src/lib.rs:45-48 | the G/C count is the number of occurrences of `G`, `C`, `g` and `c` in the sequence |
| `GcContent.GcCountIgnoresCase` | tools/gc_calculator/src/lib.rs:47 | upper-casing the sequence first does not change the count |
| `GcContent.GcCountAppend` | tools/gc_calculator/src/lib.rs:31 | the count of joined sequence lines is the sum of the counts of the lines |
| `GcContent.ByteLength` | tools/gc_calculator/src/lib.rs:44 | the byte length is at least the number of characters |
| `GcContent.ByteLengthAscii` | tools/gc_calculator/src/lib.rs:44-46 | the byte length equals the number of characters exactly when the sequence is ASCII |
| `GcContent.ByteLengthAppend` | tools/gc_calculator/src/lib.rs:31 | the byte length of joined sequence lines is the sum of their byte lengths |
| `GcContent.GcForSequence` | tools/gc_calculator/src/lib.rs:43-60 | the record keeps the name, its length is the byte length, its count is the G/C count and at most the length, and its content is count/length, or 0 for an empty sequence, so it lies in [0, 1] |
| `GcContent.AllGcGivesOne` | tools/gc_calculator/src/lib.rs:54-58 | a non-empty sequence of G/C bases only has content 1 |
| `GcContent.NoGcGivesZero` | tools/gc_calculator/src/lib.rs:54-58 | a sequence without G/C bases has content 0 |
| `FastaParser.NamedHeaders` | tools/gc_calculator/src/lib.rs:24-29 | the positions listed are named header lines, in strictly increasing order |
| `FastaParser.NamedHeadersComplete` | tools/gc_calculator/src/lib.rs:24-29 | every header line with a non-empty name is listed |
| `FastaParser.StepTracks` | tools/gc_calculator/src/lib.rs:23-32 | one pass of the loop body keeps `results`, `current_name` and `current_seq` in step with the reference reading of the lines read so far |
| `FastaParser.RunComputesRecords` | tools/gc_calculator/src/lib.rs:22-38 | the loop over all lines followed by the final flush yields exactly the reference records |
| `FastaParser.CalculateGcContent` | tools/gc_calculator/src/lib.rs:17-39 | the loop returns exactly the reference report for the input text |
| `ReportProperties.RecordNames` | tools/gc_calculator/src/lib.rs:24-38 | there is one record per header with a non-empty name, carrying that name, in header order |
| `ReportProperties.RecordsEmpty` | tools/gc_calculator/src/lib.rs:25-38 | there are no records exactly when no header line has a non-empty name |
| `ReportProperties.BlankInputNoRecords` | tools/gc_calculator/src/lib.rs:36-40 | input whose lines are all blank, the empty input among them, gives no records |
| `ReportProperties.ReportNameIsTrimmedHeader` | tools/gc_calculator/src/lib.rs:23-29 | each record's name is the trimmed text after the `>` of its trimmed header line, and it is not empty |
| `ReportProperties.RecordsInRange` | tools/gc_calculator/src/lib.rs:44-58 | every record has count at most its length, and content count/length in [0, 1], or 0 when the length is 0 |
| `ReportProperties.WellFormedPreamble` | tools/gc_calculator/src/lib.rs:25-31 | in input with no sequence text before the first header and no unnamed headers, no line up to the first record's header carries sequence text |
| `ReportProperties.WellFormedRecord` | tools/gc_calculator/src/lib.rs:23-31 | in such input (blank lines may come first) each record holds the concatenation of the sequence lines between its header and the next one |
| `ReportProperties.WellFormedCount` | tools/gc_calculator/src/lib.rs:24-26 | in such input every header line gives a record |
| `ReportProperties.BlankLineIgnored` | tools/gc_calculator/src/lib.rs:30 | inserting a line that is empty after trimming changes no record and not the number of records |
| `ReportProperties.BlankRawLineIgnored` | tools/gc_calculator/src/lib.rs:22-30 | the same for a raw white-space-only input line |
| `ReportProperties.PrefixedRecord` | tools/gc_calculator/src/lib.rs:43-58 | putting text in front of a record's sequence adds its byte length and its G/C count to the record's and keeps the name |
| `ReportProperties.PreambleJoinsFirstRecord` | tools/gc_calculator/src/lib.rs:25-31 | for any lines without a named header (unnamed headers among them) put before any input with a record, their sequence text is prepended to the first record's sequence; the other records and the number of records are unchanged |
| `ReportProperties.EmptyHeaderCarriesOver` | tools/gc_calculator/src/lib.rs:25-31 | when a record is open, a `>` with an empty name closes it and starts none: the records are those of the lines before followed by those of the lines after, read as a separate input |
| `ReportProperties.EmptyHeaderTailDropped` | tools/gc_calculator/src/lib.rs:25-38 | when a record is open and no named header follows a `>` with an empty name, the lines after it are dropped and the records are those of the lines before |
| `ReportProperties.EmptyHeaderIdle` | tools/gc_calculator/src/lib.rs:24-29 | when no record is open, a `>` with an empty name changes nothing |
| `SourceTests.TestAllGc` | tools/gc_calculator/src/lib.rs:73-80 | `">s\nGCGCGCGC\n"` gives one record with length 8, count 8 and content 1 |
| `SourceTests.TestNoGc` | tools/gc_calculator/src/lib.rs:82-87 | `">s\nATATATAT\n"` gives count 0 and content 0 |
| `SourceTests.TestMultilineSequence` | tools/gc_calculator/src/lib.rs:89-95 | `">s\nATGC\nATGC\n"` gives one record with length 8, count 4 and content 1/2 |
| `SourceTests.TestMultipleSequences` | tools/gc_calculator/src/lib.rs:97-106 | `">s1\nGGGG\n>s2\nAAAA\n"` gives two records named `s1` and `s2`, in that order, with contents 1 and 0 |
| `SourceTests.TestEmptyInput` | tools/gc_calculator/src/lib.rs:108-111 | the empty input gives no records |
| `SourceTests.TestCaseInsensitive` | tools/gc_calculator/src/lib.rs:113-117 | `">s\ngcGC\n"` gives content 1 |
| `SourceTests.TestSingleBase` | tools/gc_calculator/src/lib.rs:119-124 | `">s\nA\n"` gives length 1 and content 0 |

## Left out

- JSON encoding of the result (`serde_json::to_string`, lib.rs:40) and the `#[wasm_bindgen]` export: the model returns the sequence of records itself.
- `gc_content` as an `f64`: the model keeps the exact fraction `gc_count / length`; the rounding of the float division is not modelled. The tests' `1.0`, `0.5` and `0.0` are stated as `num == den`, `2 * num == den` and `num == 0`.
- GcContent.GcForSequence: the fraction is not reduced to lowest terms, so equal contents can have different `Ratio` values.
- The browser side of the repository (tool registry, the Kalign wrapper, DOM rendering, file reading, downloads, the percentage display): none of it is part of this model.
- Text.Trim: its own contract states only the shape of the result; what it removes is stated by `Text.TrimEmpty` and `Text.TrimPadded`.
