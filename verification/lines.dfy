/** Text files as lines. `File.readLines()` cuts text the way `BufferedReader.readLine`
    does: a line ends at LF, at CR, or at the pair CR LF, and a terminator at the
    very end of the text does not start another, empty, line. */
module Lines {

  import opened Text

  predicate IsLineBreak(c: char) {
    c == '\n' || c == '\r'
  }

  predicate HasNoLineBreak(s: string) {
    forall i :: 0 <= i < |s| ==> !IsLineBreak(s[i])
  }

  /** A concatenation has no line break exactly when neither part has one. */
  lemma NoLineBreakConcat(a: string, b: string)
    ensures HasNoLineBreak(a + b) <==> HasNoLineBreak(a) && HasNoLineBreak(b)
  {
    if HasNoLineBreak(a + b) {
      forall i | 0 <= i < |a| ensures !IsLineBreak(a[i]) {
        assert a[i] == (a + b)[i];
      }
      forall i | 0 <= i < |b| ensures !IsLineBreak(b[i]) {
        assert b[i] == (a + b)[|a| + i];
      }
    }
  }

  /** The line terminators a writer may emit: LF, or CR LF. */
  predicate IsNewline(t: string) {
    t == "\n" || t == "\r\n"
  }

  /** Length of the first line of `s`: the position of the first line break, or `|s|`. */
  function LineEnd(s: string): (n: nat)
    ensures n <= |s|
    ensures HasNoLineBreak(s[..n])
    ensures n < |s| ==> IsLineBreak(s[n])
    decreases |s|
  {
    if s == [] || IsLineBreak(s[0]) then 0
    else
      var n := 1 + LineEnd(s[1..]);
      assert s[..n] == [s[0]] + s[1..][..n - 1];
      n
  }

  /** `readLines()`: the lines of `s`, without their terminators. */
  function ReadLines(s: string): (r: seq<string>)
    ensures forall i :: 0 <= i < |r| ==> HasNoLineBreak(r[i])
    ensures |r| <= |s|
    ensures r == [] <==> s == []
    decreases |s|
  {
    if s == [] then []
    else
      var n := LineEnd(s);
      if n == |s| then [s]
      else if s[n] == '\r' && n + 1 < |s| && s[n + 1] == '\n' then [s[..n]] + ReadLines(s[n + 2..])
      else [s[..n]] + ReadLines(s[n + 1..])
  }

  /** Every line followed by `newline`, as `println` writes them: the text is
      empty only for no lines, and otherwise it ends with a terminator. */
  function Terminate(lines: seq<string>, newline: string): (r: string)
    ensures newline != [] ==> (r == [] <==> lines == [])
    ensures lines != [] ==> |newline| <= |r| && r[|r| - |newline|..] == newline
    decreases |lines|
  {
    if lines == [] then []
    else lines[0] + newline + Terminate(lines[1..], newline)
  }

  /** Writing one more line appends that line and its terminator. */
  lemma {:induction false} TerminateAppend(lines: seq<string>, line: string, newline: string)
    ensures Terminate(lines + [line], newline) == Terminate(lines, newline) + line + newline
    decreases |lines|
  {
    if lines == [] {
      assert [line][1..] == [];
    } else {
      TerminateAppend(lines[1..], line, newline);
      assert (lines + [line])[1..] == lines[1..] + [line];
    }
  }

  /** The layout of lines joined with LF: one LF between neighbours and none
      after the last line, no CR, and, when the last line is not empty, no
      line break as the final character. */
  lemma {:induction false} JoinedLayout(lines: seq<string>)
    requires lines != []
    requires forall i :: 0 <= i < |lines| ==> HasNoLineBreak(lines[i])
    requires lines[|lines| - 1] != []
    ensures var s := Join(lines, "\n");
      && Count(s, '\n') == |lines| - 1
      && '\r' !in s
      && |s| >= 1
      && !IsLineBreak(s[|s| - 1])
    decreases |lines|
  {
    var first := lines[0];
    assert '\n' !in first && '\r' !in first by {
      assert forall i :: 0 <= i < |first| ==> !IsLineBreak(first[i]);
    }
    if |lines| > 1 {
      var rest := Join(lines[1..], "\n");
      JoinedLayout(lines[1..]);
      CountAppend(first, "\n" + rest, '\n');
      CountAppend("\n", rest, '\n');
      assert first + "\n" + rest == first + ("\n" + rest);
      assert (first + "\n" + rest)[|first + "\n" + rest| - 1] == rest[|rest| - 1];
    }
  }

  /** The first line of `line + tail` is `line` when `tail` starts with a break. */
  lemma {:induction false} LineEndBeforeBreak(line: string, tail: string)
    requires HasNoLineBreak(line)
    requires tail != [] && IsLineBreak(tail[0])
    ensures LineEnd(line + tail) == |line|
    decreases |line|
  {
    if line == [] {
      assert line + tail == tail;
    } else {
      LineEndBeforeBreak(line[1..], tail);
      assert (line + tail)[1..] == line[1..] + tail;
    }
  }

  /** A line without breaks followed by a terminator is read as that line, and
      reading continues right after the terminator. */
  lemma ReadLinesStep(line: string, newline: string, rest: string)
    requires HasNoLineBreak(line)
    requires IsNewline(newline)
    ensures ReadLines(line + newline + rest) == [line] + ReadLines(rest)
  {
    var s := line + newline + rest;
    LineEndBeforeBreak(line, newline + rest);
    assert s == line + (newline + rest);
    assert s[..|line|] == line;
    if newline == "\n" {
      assert s[|line| + 1..] == rest;
    } else {
      assert s[|line| + 2..] == rest;
    }
  }

  /** A single line without breaks is read back as itself. */
  lemma ReadSingleLine(line: string)
    requires line != [] && HasNoLineBreak(line)
    ensures ReadLines(line) == [line]
  {
    assert line[..|line|] == line;
  }

  /** Reading what `println` wrote line by line gives back the lines. */
  lemma {:induction false} ReadTerminated(lines: seq<string>, newline: string)
    requires IsNewline(newline)
    requires forall i :: 0 <= i < |lines| ==> HasNoLineBreak(lines[i])
    ensures ReadLines(Terminate(lines, newline)) == lines
    decreases |lines|
  {
    if lines != [] {
      ReadTerminated(lines[1..], newline);
      ReadLinesStep(lines[0], newline, Terminate(lines[1..], newline));
      assert [lines[0]] + lines[1..] == lines;
    }
  }

  /** Reading lines joined with LF gives back the lines, provided the last one
      is not empty (an empty last line leaves a bare terminator at the end). */
  lemma {:induction false} ReadJoined(lines: seq<string>)
    requires forall i :: 0 <= i < |lines| ==> HasNoLineBreak(lines[i])
    requires lines != [] ==> lines[|lines| - 1] != []
    ensures ReadLines(Join(lines, "\n")) == lines
    decreases |lines|
  {
    if |lines| == 1 {
      ReadSingleLine(lines[0]);
    } else if |lines| > 1 {
      ReadJoined(lines[1..]);
      ReadLinesStep(lines[0], "\n", Join(lines[1..], "\n"));
      assert [lines[0]] + lines[1..] == lines;
    }
  }
}
