/**
 * The two pieces of Rust's `str` API that the GC calculator relies on:
 * `str::lines` (splitting text into lines) and `str::trim` (stripping
 * Unicode white space from both ends).  Strings are sequences of Unicode
 * scalar values, as a Rust `&str` is when read `char` by `char`.
 */
module Text {

  /** Rust's `char::is_whitespace`: the Unicode White_Space property. */
  predicate IsWhitespace(c: char) {
    var n := c as int;
    (0x09 <= n <= 0x0D) || n == 0x20 || n == 0x85 || n == 0xA0 || n == 0x1680
    || (0x2000 <= n <= 0x200A) || n == 0x2028 || n == 0x2029 || n == 0x202F
    || n == 0x205F || n == 0x3000
  }

  /** Drops the leading white space of `s` (`str::trim_start`). */
  function TrimStart(s: string): (r: string)
    ensures |r| <= |s| && r == s[|s| - |r|..]
    ensures r == [] || !IsWhitespace(r[0])
    ensures forall i :: 0 <= i < |s| - |r| ==> IsWhitespace(s[i])
  {
    if s != [] && IsWhitespace(s[0]) then TrimStart(s[1..]) else s
  }

  /** Drops the trailing white space of `s` (`str::trim_end`). */
  function TrimEnd(s: string): (r: string)
    ensures |r| <= |s| && r == s[..|r|]
    ensures r == [] || !IsWhitespace(r[|r| - 1])
    ensures forall i :: |r| <= i < |s| ==> IsWhitespace(s[i])
  {
    if s != [] && IsWhitespace(s[|s| - 1]) then TrimEnd(s[..|s| - 1]) else s
  }

  /**
   * `str::trim`: the part of `s` left after removing the white space at
   * both ends; unless empty, it starts and ends with a non-space character.
   */
  function Trim(s: string): (r: string)
    ensures |r| <= |s|
    ensures r != [] ==> !IsWhitespace(r[0]) && !IsWhitespace(r[|r| - 1])
  {
    TrimEnd(TrimStart(s))
  }

  /** `Trim` gives the empty string exactly for all-white-space text. */
  lemma TrimEmpty(s: string)
    ensures Trim(s) == [] <==> forall i :: 0 <= i < |s| ==> IsWhitespace(s[i])
  {
    var t := TrimStart(s);
    var a := |s| - |t|;
    assert forall i :: a <= i < |s| ==> s[i] == t[i - a];
  }

  lemma {:induction false} TrimStartPadded(pre: string, x: string)
    requires forall i :: 0 <= i < |pre| ==> IsWhitespace(pre[i])
    requires x == [] || !IsWhitespace(x[0])
    ensures TrimStart(pre + x) == x
    decreases |pre|
  {
    if pre != [] {
      assert (pre + x)[1..] == pre[1..] + x;
      TrimStartPadded(pre[1..], x);
    }
  }

  lemma {:induction false} TrimEndPadded(x: string, post: string)
    requires forall i :: 0 <= i < |post| ==> IsWhitespace(post[i])
    requires x == [] || !IsWhitespace(x[|x| - 1])
    ensures TrimEnd(x + post) == x
    decreases |post|
  {
    if post != [] {
      assert (x + post)[..|x + post| - 1] == x + post[..|post| - 1];
      TrimEndPadded(x, post[..|post| - 1]);
    }
  }

  /**
   * `Trim` removes exactly the white-space padding around a word that
   * starts and ends with non-space characters.
   */
  lemma TrimPadded(pre: string, x: string, post: string)
    requires forall i :: 0 <= i < |pre| ==> IsWhitespace(pre[i])
    requires forall i :: 0 <= i < |post| ==> IsWhitespace(post[i])
    requires x != [] && !IsWhitespace(x[0]) && !IsWhitespace(x[|x| - 1])
    ensures Trim(pre + x + post) == x
  {
    assert pre + x + post == pre + (x + post);
    TrimStartPadded(pre, x + post);
    TrimEndPadded(x, post);
  }

  /** Index of the first `'\n'` at or after `from`, or `|s|` if there is none. */
  function NewlineFrom(s: string, from: nat): (k: nat)
    requires from <= |s|
    ensures from <= k <= |s|
    ensures k < |s| ==> s[k] == '\n'
    ensures forall i :: from <= i < k ==> s[i] != '\n'
    decreases |s| - from
  {
    if from == |s| || s[from] == '\n' then from else NewlineFrom(s, from + 1)
  }

  /** Removes one trailing carriage return, as `lines` does before a `'\n'`. */
  function StripCr(line: string): (r: string)
    ensures r == line || (line == r + ['\r'])
  {
    if |line| > 0 && line[|line| - 1] == '\r' then line[..|line| - 1] else line
  }

  /**
   * Rust's `str::lines`: the pieces of `s` between line feeds, each with a
   * `"\r\n"` ending reduced to nothing; a final line feed does not start an
   * extra empty line, and the empty string has no lines at all.
   */
  function Lines(s: string): (ls: seq<string>)
    ensures s == [] <==> ls == []
    ensures forall i :: 0 <= i < |ls| ==> '\n' !in ls[i]
    decreases |s|
  {
    if s == [] then []
    else
      var k := NewlineFrom(s, 0);
      if k == |s| then [s]
      else [StripCr(s[..k])] + Lines(s[k + 1..])
  }

  /** Joins lines with a `'\n'` between consecutive ones. */
  function JoinLines(ls: seq<string>): string {
    if ls == [] then ""
    else if |ls| == 1 then ls[0]
    else ls[0] + "\n" + JoinLines(ls[1..])
  }

  predicate EndsWithNewline(s: string) {
    s != [] && s[|s| - 1] == '\n'
  }

  lemma JoinLinesCons(head: string, rest: seq<string>)
    requires rest != []
    ensures JoinLines([head] + rest) == head + "\n" + JoinLines(rest)
  {
    assert ([head] + rest)[1..] == rest;
  }

  lemma NewlineAfter(line: string, rest: string)
    requires '\n' !in line
    ensures NewlineFrom(line + "\n" + rest, 0) == |line|
  {
    var s := line + "\n" + rest;
    var k := NewlineFrom(s, 0);
    assert s[|line|] == '\n';
  }

  /** `Lines` splits off one line that holds neither a line feed nor a carriage return. */
  lemma LinesStep(line: string, rest: string)
    requires '\n' !in line && '\r' !in line
    ensures Lines(line + "\n" + rest) == [line] + Lines(rest)
  {
    var s := line + "\n" + rest;
    NewlineAfter(line, rest);
    assert s[..|line|] == line;
    assert s[|line| + 1..] == rest;
    if |line| > 0 {
      assert line[|line| - 1] in line;
    }
  }

  /** Putting one line back in front of a restored text restores the longer text. */
  lemma RejoinStep(head: string, rest: string, ls: seq<string>)
    requires rest != [] && ls != []
    requires EndsWithNewline(rest) ==> JoinLines(ls) + "\n" == rest
    requires !EndsWithNewline(rest) ==> JoinLines(ls) == rest
    ensures EndsWithNewline(head + "\n" + rest) ==> JoinLines([head] + ls) + "\n" == head + "\n" + rest
    ensures !EndsWithNewline(head + "\n" + rest) ==> JoinLines([head] + ls) == head + "\n" + rest
  {
    JoinLinesCons(head, ls);
    var s := head + "\n" + rest;
    assert s[|s| - 1] == rest[|rest| - 1];
    if EndsWithNewline(rest) {
      calc {
        JoinLines([head] + ls) + "\n";
        (head + "\n" + JoinLines(ls)) + "\n";
        head + "\n" + (JoinLines(ls) + "\n");
        head + "\n" + rest;
      }
    }
  }

  /**
   * Without carriage returns, `Lines` loses nothing but the optional final
   * line feed: joining the lines back restores the text.
   */
  lemma {:induction false} LinesRoundTrip(s: string)
    requires '\r' !in s
    ensures EndsWithNewline(s) ==> JoinLines(Lines(s)) + "\n" == s
    ensures !EndsWithNewline(s) ==> JoinLines(Lines(s)) == s
    decreases |s|
  {
    if s != [] {
      var k := NewlineFrom(s, 0);
      if k < |s| {
        var head, rest := s[..k], s[k + 1..];
        assert s == head + "\n" + rest;
        assert '\n' !in head by {
          forall i | 0 <= i < |head| ensures head[i] != '\n' { assert head[i] == s[i]; }
        }
        LinesStep(head, rest);
        if rest == [] {
          assert Lines(s) == [head];
        } else {
          LinesRoundTrip(rest);
          RejoinStep(head, rest, Lines(rest));
        }
      } else {
        assert Lines(s) == [s];
      }
    }
  }

  /** The text of `ls` with every line ended by a line feed. */
  function Terminated(ls: seq<string>): string {
    if ls == [] then "" else ls[0] + "\n" + Terminated(ls[1..])
  }

  /** A line that `Lines` gives back unchanged: no line feed, no final carriage return. */
  predicate PlainLine(line: string) {
    '\n' !in line && (line == [] || line[|line| - 1] != '\r')
  }

  /** The other direction of the round trip: `Lines` splits terminated lines back apart. */
  lemma {:induction false} LinesOfTerminated(ls: seq<string>)
    requires forall i :: 0 <= i < |ls| ==> PlainLine(ls[i])
    ensures Lines(Terminated(ls)) == ls
  {
    if ls != [] {
      var s, line, rest := Terminated(ls), ls[0], Terminated(ls[1..]);
      assert PlainLine(line);
      NewlineAfter(line, rest);
      assert s[..|line|] == line;
      assert s[|line| + 1..] == rest;
      LinesOfTerminated(ls[1..]);
      assert [line] + ls[1..] == ls;
    }
  }

  /** `Trim` leaves a string without surrounding whitespace as it is. */
  lemma TrimClean(s: string)
    requires s == [] || (!IsWhitespace(s[0]) && !IsWhitespace(s[|s| - 1]))
    ensures Trim(s) == s
  {
    if s != [] {
      TrimPadded("", s, "");
      assert "" + s + "" == s;
    }
  }
}
