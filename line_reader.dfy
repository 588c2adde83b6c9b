/**
 * `BufferedReader.readLine`, as used by the buffered storage engine, by the leader's
 * text protocol and by the tolerance file reader, and the buffered engine's way of
 * putting a file's lines back together.
 */
module LineReader {
  import opened JavaString

  predicate IsLineBreak(c: char) { c == '\n' || c == '\r' }

  /** Index of the first line break, or |s| when there is none. */
  function LineEnd(s: string): (k: nat)
    ensures k <= |s|
    ensures k < |s| ==> IsLineBreak(s[k])
    ensures forall i | 0 <= i < k :: !IsLineBreak(s[i])
    decreases |s|
  {
    if s == [] || IsLineBreak(s[0]) then 0
    else
      var k := 1 + LineEnd(s[1..]);
      assert forall i | 1 <= i < k :: s[1..][i - 1] == s[i];
      k
  }

  /**
   * The lines successive `readLine` calls return: a line ends at "\n", "\r" or
   * "\r\n", the terminator is dropped, a last line without terminator still counts,
   * and nothing is returned for an empty input.
   */
  function ReadLines(s: string): (lines: seq<string>)
    decreases |s|
  {
    if s == [] then []
    else
      var k := LineEnd(s);
      if k == |s| then [s] else [s[..k]] + ReadLines(AfterBreak(s, k))
  }

  /** What follows the line break at `k`: "\r\n" is one terminator, "\n" or "\r" alone another. */
  function AfterBreak(s: string, k: nat): (rest: string)
    requires k < |s|
    ensures |rest| < |s| - k
  {
    if s[k] == '\r' && k + 1 < |s| && s[k + 1] == '\n' then s[k + 2..] else s[k + 1..]
  }

  /** The terminator at `k` is made of line breaks, and what it separates makes up the whole. */
  lemma AfterBreakSplit(s: string, k: nat)
    requires k < |s| && IsLineBreak(s[k])
    ensures var rest := AfterBreak(s, k);
      k < |s| - |rest| && s == s[..k] + s[k..|s| - |rest|] + rest
      && forall i | k <= i < |s| - |rest| :: IsLineBreak(s[i])
  {
    if s[k] == '\r' && k + 1 < |s| && s[k + 1] == '\n' {
      assert s == s[..k] + s[k..k + 2] + s[k + 2..];
    } else {
      assert s == s[..k] + s[k..k + 1] + s[k + 1..];
    }
  }

  /** One `readLine` call: the first line, then the lines after its terminator. */
  lemma ReadLinesStep(c: string)
    requires LineEnd(c) < |c|
    ensures ReadLines(c) == [c[..LineEnd(c)]] + ReadLines(AfterBreak(c, LineEnd(c)))
  {
  }

  // ---------------------------------------------------------------- what readLine keeps and drops

  /** `s` with every '\n' and '\r' removed. */
  function WithoutBreaks(s: string): string
    decreases |s|
  {
    if s == [] then [] else (if IsLineBreak(s[0]) then [] else [s[0]]) + WithoutBreaks(s[1..])
  }

  /** The lines run together, with nothing in between. */
  function Concat(lines: seq<string>): string {
    if lines == [] then [] else lines[0] + Concat(lines[1..])
  }

  /**
   * The terminators `readLine` consumes, counted left to right: "\r\n" is one, a
   * "\n" or "\r" on its own is one.
   */
  function Terminators(s: string): nat
    decreases |s|
  {
    if s == [] then 0
    else if s[0] == '\r' && |s| >= 2 && s[1] == '\n' then 1 + Terminators(s[2..])
    else (if IsLineBreak(s[0]) then 1 else 0) + Terminators(s[1..])
  }

  lemma {:induction false} WithoutBreaksAppend(a: string, b: string)
    ensures WithoutBreaks(a + b) == WithoutBreaks(a) + WithoutBreaks(b)
    decreases |a|
  {
    if a == [] {
      assert a + b == b;
    } else {
      assert (a + b)[1..] == a[1..] + b;
      WithoutBreaksAppend(a[1..], b);
    }
  }

  lemma {:induction false} WithoutBreaksOfLine(a: string)
    requires forall i | 0 <= i < |a| :: !IsLineBreak(a[i])
    ensures WithoutBreaks(a) == a
    decreases |a|
  {
    if a != [] {
      WithoutBreaksOfLine(a[1..]);
    }
  }

  lemma {:induction false} WithoutBreaksOfBreaks(a: string)
    requires forall i | 0 <= i < |a| :: IsLineBreak(a[i])
    ensures WithoutBreaks(a) == []
    decreases |a|
  {
    if a != [] {
      WithoutBreaksOfBreaks(a[1..]);
    }
  }

  /** Text without a line break holds no terminator, wherever it stands. */
  lemma {:induction false} TerminatorsAfterLine(a: string, b: string)
    requires forall i | 0 <= i < |a| :: !IsLineBreak(a[i])
    ensures Terminators(a + b) == Terminators(b)
    decreases |a|
  {
    if a == [] {
      assert a + b == b;
    } else {
      assert (a + b)[1..] == a[1..] + b;
      TerminatorsAfterLine(a[1..], b);
    }
  }

  /** A terminator at the front counts once, and counting resumes where `readLine` resumes. */
  lemma TerminatorAtFront(t: string)
    requires t != [] && IsLineBreak(t[0])
    ensures Terminators(t) == 1 + Terminators(AfterBreak(t, 0))
  {
  }

  /** What follows a break does not depend on the text before it. */
  lemma AfterBreakShift(s: string, k: nat)
    requires k < |s|
    ensures AfterBreak(s, k) == AfterBreak(s[k..], 0)
  {
    var t := s[k..];
    if s[k] == '\r' && k + 1 < |s| && s[k + 1] == '\n' {
      assert t[2..] == s[k + 2..];
    } else {
      assert t[1..] == s[k + 1..];
    }
  }

  /** A line then a terminator: one terminator, plus those after it. */
  lemma TerminatorsLineThenBreak(line: string, tail: string)
    requires forall i | 0 <= i < |line| :: !IsLineBreak(line[i])
    requires tail != [] && IsLineBreak(tail[0])
    ensures Terminators(line + tail) == 1 + Terminators(AfterBreak(tail, 0))
  {
    TerminatorsAfterLine(line, tail);
    TerminatorAtFront(tail);
  }

  /** A break-free stretch then a break at `k`: one terminator, plus those after it. */
  lemma TerminatorsThroughBreak(s: string, k: nat)
    requires k < |s| && IsLineBreak(s[k])
    requires forall i | 0 <= i < k :: !IsLineBreak(s[i])
    ensures Terminators(s) == 1 + Terminators(AfterBreak(s, k))
  {
    var line, tail := s[..k], s[k..];
    assert line + tail == s;
    TerminatorsLineThenBreak(line, tail);
    AfterBreakShift(s, k);
  }

  /** The first line and its terminator hold exactly one terminator. */
  lemma TerminatorsOfFirstLine(s: string)
    requires LineEnd(s) < |s|
    ensures Terminators(s) == 1 + Terminators(AfterBreak(s, LineEnd(s)))
  {
    TerminatorsThroughBreak(s, LineEnd(s));
  }

  /** The first line, then the others: the lines run together start with the first one. */
  lemma ConcatCons(first: string, rest: seq<string>)
    ensures Concat([first] + rest) == first + Concat(rest)
  {
    assert ([first] + rest)[1..] == rest;
  }

  /** Removing the breaks from a line, a terminator and the rest leaves the line and the rest. */
  lemma WithoutBreaksLineTermRest(line: string, term: string, rest: string)
    requires forall i | 0 <= i < |line| :: !IsLineBreak(line[i])
    requires forall i | 0 <= i < |term| :: IsLineBreak(term[i])
    ensures WithoutBreaks(line + term + rest) == line + WithoutBreaks(rest)
  {
    WithoutBreaksAppend(line + term, rest);
    WithoutBreaksAppend(line, term);
    WithoutBreaksOfLine(line);
    WithoutBreaksOfBreaks(term);
    assert line + [] == line;
  }

  /** The same, for the first line of a text and its terminator. */
  lemma WithoutBreaksThroughBreak(s: string, k: nat)
    requires k < |s| && IsLineBreak(s[k])
    requires forall i | 0 <= i < k :: !IsLineBreak(s[i])
    ensures WithoutBreaks(s) == s[..k] + WithoutBreaks(AfterBreak(s, k))
  {
    var rest := AfterBreak(s, k);
    LineTermRest(s, k);
    WithoutBreaksLineTermRest(s[..k], s[k..|s| - |rest|], rest);
  }

  /** The first line, its terminator and the rest, each with the chars it is made of. */
  lemma LineTermRest(s: string, k: nat)
    requires k < |s| && IsLineBreak(s[k])
    requires forall i | 0 <= i < k :: !IsLineBreak(s[i])
    ensures var rest := AfterBreak(s, k); var line, term := s[..k], s[k..|s| - |rest|];
      s == line + term + rest
      && (forall i | 0 <= i < |line| :: !IsLineBreak(line[i]))
      && (forall i | 0 <= i < |term| :: IsLineBreak(term[i]))
  {
    AfterBreakSplit(s, k);
    var rest := AfterBreak(s, k);
    var line, term := s[..k], s[k..|s| - |rest|];
    assert forall i | 0 <= i < |line| :: line[i] == s[i];
    assert forall i | 0 <= i < |term| :: term[i] == s[k + i];
  }

  /**
   * `readLine` loses nothing but the terminators: the lines it returns, run together,
   * are the text with every '\n' and '\r' removed.
   */
  lemma {:induction false} ReadLinesKeepText(s: string)
    ensures Concat(ReadLines(s)) == WithoutBreaks(s)
    decreases |s|
  {
    if s != [] {
      var k := LineEnd(s);
      if k == |s| {
        assert ReadLines(s) == [s];
        ConcatCons(s, []);
        WithoutBreaksOfLine(s);
      } else {
        var rest := AfterBreak(s, k);
        ReadLinesStep(s);
        ReadLinesKeepText(rest);
        ConcatCons(s[..k], ReadLines(rest));
        WithoutBreaksThroughBreak(s, k);
      }
    }
  }

  /**
   * `readLine` returns one line per terminator, and one more when the text does not
   * end with a line break; nothing for an empty text.
   */
  lemma {:induction false} ReadLinesCount(s: string)
    ensures |ReadLines(s)| == Terminators(s) + if s != [] && !IsLineBreak(s[|s| - 1]) then 1 else 0
    decreases |s|
  {
    if s != [] {
      var k := LineEnd(s);
      if k == |s| {
        assert ReadLines(s) == [s];
        TerminatorsAfterLine(s, []);
        assert s + [] == s;
      } else {
        var rest := AfterBreak(s, k);
        ReadLinesStep(s);
        ReadLinesCount(rest);
        TerminatorsOfFirstLine(s);
        if rest != [] {
          AfterBreakSplit(s, k);
          assert s[|s| - 1] == rest[|rest| - 1];
        }
      }
    }
  }

  /** No line that `readLine` returns contains a line break. */
  lemma {:induction false} ReadLinesHaveNoBreaks(s: string, j: nat, i: nat)
    requires j < |ReadLines(s)| && i < |ReadLines(s)[j]|
    ensures !IsLineBreak(ReadLines(s)[j][i])
    decreases |s|
  {
    var k := LineEnd(s);
    if k == |s| {
      assert ReadLines(s) == [s];
    } else {
      ReadLinesStep(s);
      if j > 0 {
        ReadLinesHaveNoBreaks(AfterBreak(s, k), j - 1, i);
      }
    }
  }

  /** Text without a line break is read as that one line. */
  lemma SingleLine(s: string)
    requires s != [] && forall i | 0 <= i < |s| :: !IsLineBreak(s[i])
    ensures ReadLines(s) == [s]
  {
    assert LineEnd(s) == |s|;
  }

  /** Text that starts with a line and a terminator is first read as that line. */
  lemma FirstLineBeforeBreak(line: string, brk: char, rest: string)
    requires forall i | 0 <= i < |line| :: !IsLineBreak(line[i])
    requires IsLineBreak(brk)
    ensures ReadLines(line + [brk] + rest) != [] && ReadLines(line + [brk] + rest)[0] == line
  {
    var s := line + [brk] + rest;
    assert s[|line|] == brk;
    assert forall i | 0 <= i < |line| :: s[i] == line[i];
    assert LineEnd(s) == |line|;
    ReadLinesStep(s);
    assert s[..|line|] == line;
  }

  /** The `StringBuilder` after appending each line followed by "\n". */
  function JoinLines(lines: seq<string>): string {
    if lines == [] then [] else JoinLines(lines[..|lines| - 1]) + lines[|lines| - 1] + "\n"
  }

  /** What the buffered engine's disk read returns for a file's contents. */
  function BufferedText(contents: string): string {
    Trim(JoinLines(ReadLines(contents)))
  }

  lemma {:induction false} JoinLinesCons(first: string, rest: seq<string>)
    ensures JoinLines([first] + rest) == first + "\n" + JoinLines(rest)
    decreases |rest|
  {
    var all := [first] + rest;
    if rest == [] {
      assert all[..0] == [];
    } else {
      assert all[..|all| - 1] == [first] + rest[..|rest| - 1];
      JoinLinesCons(first, rest[..|rest| - 1]);
    }
  }

  /** The text before a line break, the break and the text after it make up the whole. */
  lemma AroundBreak(c: string, k: nat)
    requires k < |c| && c[k] == '\n'
    ensures c == c[..k] + "\n" + c[k + 1..]
  {
    assert c[..k] + [c[k]] + c[k + 1..] == c;
  }

  /** Without '\r', re-joining the lines gives the contents back, plus at most one "\n". */
  lemma {:induction false} JoinReadLines(c: string)
    requires '\r' !in c
    ensures JoinLines(ReadLines(c)) == c || JoinLines(ReadLines(c)) == c + "\n"
    decreases |c|
  {
    if c != [] {
      var k := LineEnd(c);
      if k == |c| {
        SingleLine(c);
        assert [c][..0] == [];
      } else {
        var rest := AfterBreak(c, k);
        assert c[k] == '\n';
        ReadLinesStep(c);
        assert rest == c[k + 1..];
        assert '\r' !in rest by {
          forall i | 0 <= i < |rest| ensures rest[i] != '\r' { assert rest[i] == c[k + 1 + i]; }
        }
        JoinReadLines(rest);
        JoinLinesCons(c[..k], ReadLines(rest));
        AroundBreak(c, k);
      }
    }
  }

  /**
   * The two engines read a file alike unless it holds a '\r': line-joining then
   * trimming gives the same text as trimming the raw contents.
   */
  lemma BufferedReadAgreesWithRaw(c: string)
    requires '\r' !in c
    ensures BufferedText(c) == Trim(c)
  {
    JoinReadLines(c);
    if JoinLines(ReadLines(c)) == c + "\n" {
      TrimAppendBlank(c, '\n');
    }
  }

  /** "a\rb" is read as the two lines "a" and "b". */
  lemma CarriageReturnSplitsLines()
    ensures ReadLines("a\rb") == ["a", "b"]
  {
    var c := "a\rb";
    assert LineEnd(c) == 1 by {
      assert !IsLineBreak(c[0]) && IsLineBreak(c[1]);
    }
    ReadLinesStep(c);
    assert c[..1] == "a" && AfterBreak(c, 1) == "b";
    SingleLine("b");
  }

  /** The lines "a" and "b" are put back together as "a\nb", once trimmed. */
  lemma JoinTwoLines()
    ensures Trim(JoinLines(["a", "b"])) == "a\nb"
  {
    assert JoinLines(["a", "b"]) == "a\nb" + ['\n'] by {
      JoinLinesCons("a", ["b"]);
      assert ["b"][..0] == [];
    }
    TrimAppendBlank("a\nb", '\n');
    TrimOfTrimmed("a\nb");
  }

  /** With a '\r' inside, the buffered read turns it into "\n" and the two engines differ. */
  lemma BufferedReadRewritesCarriageReturn()
    ensures BufferedText("a\rb") == "a\nb"
    ensures Trim("a\rb") == "a\rb"
  {
    CarriageReturnSplitsLines();
    JoinTwoLines();
    TrimOfTrimmed("a\rb");
  }
}
