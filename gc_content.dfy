/**
 * `gc_for_sequence` of the GC calculator: the per-sequence record with
 * the sequence's length, its number of G/C bases and its GC fraction.
 */
module GcContent {

  /**
   * An exact fraction `num / den`.  It stands for the `f64` value the
   * source computes, before rounding.
   */
  datatype Ratio = Ratio(num: nat, den: nat)

  /** `GcResult { name, length, gc_count, gc_content }`. */
  datatype GcResult = GcResult(name: string, length: nat, gcCount: nat, gcContent: Ratio)

  /** `char::to_ascii_uppercase`: maps `a`..`z` to `A`..`Z`, leaves every other character alone. */
  function ToAsciiUppercase(c: char): (u: char)
    ensures !('a' <= u <= 'z')
    ensures u != c ==> 'a' <= c <= 'z'
    ensures (c as int < 0x80) <==> (u as int < 0x80)
  {
    if 'a' <= c <= 'z' then (c as int - 32) as char else c
  }

  /** Upper-casing twice is upper-casing once. */
  lemma ToAsciiUppercaseIdempotent(c: char)
    ensures ToAsciiUppercase(ToAsciiUppercase(c)) == ToAsciiUppercase(c)
  {
  }

  /** The filter of `gc_for_sequence`: the upper-cased character is `G` or `C`. */
  predicate IsGc(c: char) {
    var u := ToAsciiUppercase(c);
    u == 'G' || u == 'C'
  }

  /** Exactly the four characters `G`, `C`, `g`, `c` pass the filter. */
  lemma IsGcExactly(c: char)
    ensures IsGc(c) <==> c == 'G' || c == 'C' || c == 'g' || c == 'c'
  {
    if 'a' <= c <= 'z' {
      assert IsGc(c) <==> c as int - 32 == 'G' as int || c as int - 32 == 'C' as int;
    }
  }

  /** `sequence.chars().filter(..).count()`. */
  function GcCount(s: string): (n: nat)
    ensures n <= |s|
  {
    if s == [] then 0 else (if IsGc(s[0]) then 1 else 0) + GcCount(s[1..])
  }

  /** Number of bytes of `c` in UTF-8. */
  function Utf8Length(c: char): (n: nat)
    ensures 1 <= n <= 4
    ensures n == 1 <==> c as int < 0x80
  {
    if c as int < 0x80 then 1
    else if c as int < 0x800 then 2
    else if c as int < 0x1_0000 then 3
    else 4
  }

  /** `str::len`: the number of bytes of `s` in UTF-8. */
  function ByteLength(s: string): (n: nat)
    ensures n >= |s|
  {
    if s == [] then 0 else Utf8Length(s[0]) + ByteLength(s[1..])
  }

  predicate IsAscii(s: string) {
    forall i :: 0 <= i < |s| ==> s[i] as int < 0x80
  }

  /** The byte length is the character count exactly for ASCII text. */
  lemma {:induction false} ByteLengthAscii(s: string)
    ensures ByteLength(s) == |s| <==> IsAscii(s)
  {
    if s != [] {
      ByteLengthAscii(s[1..]);
      assert IsAscii(s) <==> s[0] as int < 0x80 && IsAscii(s[1..]) by {
        assert forall i :: 0 <= i < |s[1..]| ==> s[1..][i] == s[i + 1];
        if s[0] as int < 0x80 && IsAscii(s[1..]) {
          forall i | 0 <= i < |s| ensures s[i] as int < 0x80 {
            if i > 0 { assert s[i] == s[1..][i - 1]; }
          }
        }
      }
    }
  }

  /** The GC count is the number of occurrences of `G`, `C`, `g` and `c`. */
  lemma {:induction false} GcCountOccurrences(s: string)
    ensures GcCount(s) == multiset(s)['G'] + multiset(s)['C'] + multiset(s)['g'] + multiset(s)['c']
  {
    if s != [] {
      GcCountOccurrences(s[1..]);
      assert s == [s[0]] + s[1..];
      assert multiset(s) == multiset{s[0]} + multiset(s[1..]);
      IsGcExactly(s[0]);
    }
  }

  /** Counting is additive over concatenation (multi-line sequences). */
  lemma {:induction false} GcCountAppend(a: string, b: string)
    ensures GcCount(a + b) == GcCount(a) + GcCount(b)
  {
    if a != [] {
      assert (a + b)[0] == a[0] && (a + b)[1..] == a[1..] + b;
      GcCountAppend(a[1..], b);
    } else {
      assert a + b == b;
    }
  }

  lemma {:induction false} ByteLengthAppend(a: string, b: string)
    ensures ByteLength(a + b) == ByteLength(a) + ByteLength(b)
  {
    if a != [] {
      assert (a + b)[0] == a[0] && (a + b)[1..] == a[1..] + b;
      ByteLengthAppend(a[1..], b);
    } else {
      assert a + b == b;
    }
  }

  /** Upper-casing the sequence first changes no count: the filter ignores case. */
  function AsciiUppercase(s: string): (u: string)
    ensures |u| == |s|
    ensures forall i :: 0 <= i < |s| ==> u[i] == ToAsciiUppercase(s[i])
  {
    seq(|s|, i requires 0 <= i < |s| => ToAsciiUppercase(s[i]))
  }

  lemma {:induction false} GcCountIgnoresCase(s: string)
    ensures GcCount(AsciiUppercase(s)) == GcCount(s)
  {
    if s != [] {
      var u := AsciiUppercase(s);
      assert u[1..] == AsciiUppercase(s[1..]);
      GcCountIgnoresCase(s[1..]);
      assert IsGc(u[0]) == IsGc(s[0]);
    }
  }

  lemma {:induction false} GcCountAll(s: string)
    requires forall i :: 0 <= i < |s| ==> IsGc(s[i])
    ensures GcCount(s) == |s| && ByteLength(s) == |s|
  {
    if s != [] {
      GcCountAll(s[1..]);
      IsGcExactly(s[0]);
    }
  }

  lemma {:induction false} GcCountNone(s: string)
    requires forall i :: 0 <= i < |s| ==> !IsGc(s[i])
    ensures GcCount(s) == 0
  {
    if s != [] {
      GcCountNone(s[1..]);
    }
  }

  /**
   * `gc_for_sequence`: the record for `name`, giving the sequence's byte
   * length, its GC count and the fraction of one over the other (zero for
   * an empty sequence), which lies between 0 and 1.
   */
  function GcForSequence(name: string, sequence: string): (r: GcResult)
    ensures r.name == name
    ensures r.length == ByteLength(sequence) && r.gcCount == GcCount(sequence)
    ensures r.gcCount <= r.length
    ensures r.gcContent.den > 0 && r.gcContent.num <= r.gcContent.den
    ensures r.gcContent == if r.length > 0 then Ratio(r.gcCount, r.length) else Ratio(0, 1)
  {
    var length := ByteLength(sequence);
    var gcCount := GcCount(sequence);
    GcResult(name, length, gcCount,
             if length > 0 then Ratio(gcCount, length) else Ratio(0, 1))
  }

  /** A non-empty sequence made only of G and C bases has GC content 1. */
  lemma AllGcGivesOne(name: string, sequence: string)
    requires sequence != []
    requires forall i :: 0 <= i < |sequence| ==> IsGc(sequence[i])
    ensures GcForSequence(name, sequence).gcContent.num == GcForSequence(name, sequence).gcContent.den
  {
    GcCountAll(sequence);
  }

  /** A sequence without G or C bases has GC content 0. */
  lemma NoGcGivesZero(name: string, sequence: string)
    requires forall i :: 0 <= i < |sequence| ==> !IsGc(sequence[i])
    ensures GcForSequence(name, sequence).gcContent.num == 0
  {
    GcCountNone(sequence);
  }
}
