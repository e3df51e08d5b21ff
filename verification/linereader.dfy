/** `readMessageFromStdin`, identical in cmd/decode/command.go:35-60 and
    cmd/encode/command.go:35-60: standard input, already read, is cut into newline-terminated
    lines, each line is trimmed, and the lines are joined back with the blank-line rules. */
module LineReader {
  import opened Types

  /** The position of the first newline at or after `i`, or `|s|` when there is none. */
  function LineEnd(s: seq<byte>, i: nat): (e: nat)
    requires i <= |s|
    ensures i <= e <= |s|
    ensures forall k :: i <= k < e ==> s[k] != '\n'
    ensures e < |s| ==> s[e] == '\n'
    decreases |s| - i
  {
    if i == |s| || s[i] == '\n' then i else LineEnd(s, i + 1)
  }

  /** The lines `bufio.Reader.ReadString('\n')` returns without error from position `i` on,
      with their terminating newline removed. A final piece without a newline comes back with
      `io.EOF` and is dropped. */
  function SplitLines(input: seq<byte>, i: nat): (lines: seq<seq<byte>>)
    requires i <= |input|
    decreases |input| - i
  {
    var e := LineEnd(input, i);
    if e == |input| then []
    else [input[i..e]] + SplitLines(input, e + 1)
  }

  /** The lines, each with its newline put back, one after the other. */
  function Unlines(lines: seq<seq<byte>>): seq<byte>
  {
    if lines == [] then [] else lines[0] + ['\n'] + Unlines(lines[1..])
  }

  /** Reading lines loses nothing but the unterminated tail: from position `i`, the input is
      the lines, each followed by its newline, then a tail without a newline. */
  lemma {:induction false} SplitLinesLosesOnlyTail(input: seq<byte>, i: nat)
    requires i <= |input|
    ensures i + |Unlines(SplitLines(input, i))| <= |input|
    ensures input[i..i + |Unlines(SplitLines(input, i))|] == Unlines(SplitLines(input, i))
    ensures forall k :: i + |Unlines(SplitLines(input, i))| <= k < |input| ==> input[k] != '\n'
    decreases |input| - i
  {
    var e := LineEnd(input, i);
    if e < |input| {
      SplitLinesLosesOnlyTail(input, e + 1);
      LineThenRest(input, i, e, Unlines(SplitLines(input, e + 1)));
    } else {
      assert SplitLines(input, i) == [];
    }
  }

  /** One line, its newline, then the lines after it. */
  lemma LineThenRest(input: seq<byte>, i: nat, e: nat, u: seq<byte>)
    requires i <= e < |input| && e == LineEnd(input, i)
    requires u == Unlines(SplitLines(input, e + 1))
    requires e + 1 + |u| <= |input| && input[e + 1..e + 1 + |u|] == u
    ensures Unlines(SplitLines(input, i)) == input[i..e + 1 + |u|]
  {
    var line := input[i..e];
    var rest := SplitLines(input, e + 1);
    assert SplitLines(input, i) == [line] + rest;
    UnlinesCons(line, rest);
    SliceAround(input, i, e, e + 1 + |u|);
    Assoc(line, ['\n'], u);
  }

  lemma SliceAround(s: seq<byte>, i: nat, e: nat, j: nat)
    requires i <= e < j <= |s|
    ensures s[i..j] == s[i..e] + ([s[e]] + s[e + 1..j])
  {
  }

  lemma UnlinesCons(line: seq<byte>, rest: seq<seq<byte>>)
    ensures Unlines([line] + rest) == line + ['\n'] + Unlines(rest)
  {
    assert ([line] + rest)[1..] == rest;
  }

  /** Lines without newlines, each written with its newline and followed by a tail without a
      newline, are read back exactly: the partner of `SplitLinesLosesOnlyTail`. */
  lemma {:induction false} SplitUnlines(lines: seq<seq<byte>>, tail: seq<byte>)
    requires forall k :: 0 <= k < |lines| ==> NoNewline(lines[k])
    requires NoNewline(tail)
    ensures SplitLines(Unlines(lines) + tail, 0) == lines
    decreases |lines|
  {
    if lines == [] {
      TailOnly(tail);
    } else {
      var rest := Unlines(lines[1..]) + tail;
      assert Unlines(lines) + tail == lines[0] + ['\n'] + rest by {
        Assoc(lines[0] + ['\n'], Unlines(lines[1..]), tail);
      }
      HeadLine(lines[0], rest);
      SplitUnlines(lines[1..], tail);
      ConsTail(SplitLines(Unlines(lines) + tail, 0), lines, SplitLines(rest, 0));
    }
  }

  lemma ConsTail(a: seq<seq<byte>>, lines: seq<seq<byte>>, b: seq<seq<byte>>)
    requires lines != [] && a == [lines[0]] + b && b == lines[1..]
    ensures a == lines
  {
  }

  /** A tail without a newline yields no line. */
  lemma TailOnly(tail: seq<byte>)
    requires NoNewline(tail)
    ensures SplitLines(tail, 0) == []
  {
    LineEndAt(tail, 0, |tail|);
  }

  /** A line without a newline, then a newline, is the first line read; the lines after it are
      those of the rest. */
  lemma HeadLine(line: seq<byte>, rest: seq<byte>)
    requires NoNewline(line)
    ensures SplitLines(line + ['\n'] + rest, 0) == [line] + SplitLines(rest, 0)
  {
    var input := line + ['\n'] + rest;
    LineEndAt(input, 0, |line|);
    assert input[0..|line|] == line;
    ShiftLines(line + ['\n'], rest, 0);
  }

  /** Reading lines is unaffected by bytes before the starting position. */
  lemma {:induction false} ShiftLines(pre: seq<byte>, s: seq<byte>, j: nat)
    requires j <= |s|
    ensures SplitLines(pre + s, |pre| + j) == SplitLines(s, j)
    decreases |s| - j
  {
    var e := LineEnd(s, j);
    ShiftLineEnd(pre, s, j);
    if e < |s| {
      ShiftLines(pre, s, e + 1);
      assert (pre + s)[|pre| + j..|pre| + e] == s[j..e];
    }
  }

  lemma ShiftLineEnd(pre: seq<byte>, s: seq<byte>, j: nat)
    requires j <= |s|
    ensures LineEnd(pre + s, |pre| + j) == |pre| + LineEnd(s, j)
  {
    var e := LineEnd(s, j);
    var t := pre + s;
    forall k | |pre| + j <= k < |pre| + e ensures t[k] != '\n' {
      assert t[k] == s[k - |pre|];
    }
    if e < |s| {
      assert t[|pre| + e] == s[e];
    }
    LineEndAt(t, |pre| + j, |pre| + e);
  }

  lemma Assoc(a: seq<byte>, b: seq<byte>, c: seq<byte>)
    ensures a + (b + c) == (a + b) + c
  {
  }

  /** `LineEnd` is the first newline at or after `i`, or the end of the input. */
  lemma LineEndAt(s: seq<byte>, i: nat, e: nat)
    requires i <= e <= |s|
    requires forall k :: i <= k < e ==> s[k] != '\n'
    requires e == |s| || s[e] == '\n'
    ensures LineEnd(s, i) == e
  {
  }

  /** No line holds a newline. */
  lemma {:induction false} LinesHaveNoNewline(input: seq<byte>, i: nat)
    requires i <= |input|
    ensures forall k, j :: 0 <= k < |SplitLines(input, i)| && 0 <= j < |SplitLines(input, i)[k]| ==>
        SplitLines(input, i)[k][j] != '\n'
    decreases |input| - i
  {
    var e := LineEnd(input, i);
    if e < |input| {
      LinesHaveNoNewline(input, e + 1);
    }
  }

  /** The bytes `strings.TrimSpace` removes, restricted to ASCII. */
  predicate IsSpace(b: byte)
  {
    b in {' ', '\t', '\n', '\r', 11 as char, 12 as char}
  }

  /** The first position at or after `i` that holds a non-space byte, or `|s|`. */
  function SkipSpaces(s: seq<byte>, i: nat): (r: nat)
    requires i <= |s|
    ensures i <= r <= |s|
    ensures forall k :: i <= k < r ==> IsSpace(s[k])
    ensures r < |s| ==> !IsSpace(s[r])
    decreases |s| - i
  {
    if i < |s| && IsSpace(s[i]) then SkipSpaces(s, i + 1) else i
  }

  /** The end of the text in `s[lo..j]`: the least `r` such that only spaces lie in `s[r..j]`. */
  function BackSpaces(s: seq<byte>, lo: nat, j: nat): (r: nat)
    requires lo <= j <= |s|
    ensures lo <= r <= j
    ensures forall k :: r <= k < j ==> IsSpace(s[k])
    ensures r > lo ==> !IsSpace(s[r - 1])
    decreases j
  {
    if j > lo && IsSpace(s[j - 1]) then BackSpaces(s, lo, j - 1) else j
  }

  /** `strings.TrimSpace` on ASCII white space: the slice of `s` that starts and ends with a
      non-space byte, only spaces being cut on either side. */
  function TrimSpace(s: seq<byte>): (t: seq<byte>)
    ensures |t| <= |s|
    ensures exists i :: CutAt(s, t, i)
    ensures t != [] ==> !IsSpace(t[0]) && !IsSpace(t[|t| - 1])
  {
    var i := SkipSpaces(s, 0);
    var j := BackSpaces(s, i, |s|);
    assert CutAt(s, s[i..j], i);
    s[i..j]
  }

  /** `t` is `s[i..i + |t|]` and only spaces lie outside it. */
  predicate CutAt(s: seq<byte>, t: seq<byte>, i: int)
  {
    && 0 <= i <= |s| - |t|
    && t == s[i..i + |t|]
    && (forall k | 0 <= k < i :: IsSpace(s[k]))
    && (forall k | i + |t| <= k < |s| :: IsSpace(s[k]))
  }

  /** Whether `s` holds no newline. */
  predicate NoNewline(s: seq<byte>)
  {
    forall k :: 0 <= k < |s| ==> s[k] != '\n'
  }

  /** The trimmed lines. */
  function TrimAll(lines: seq<seq<byte>>): (ts: seq<seq<byte>>)
    ensures |ts| == |lines|
    ensures forall k :: 0 <= k < |lines| ==> ts[k] == TrimSpace(lines[k])
  {
    if lines == [] then [] else [TrimSpace(lines[0])] + TrimAll(lines[1..])
  }

  /** The first line, at or after `i`, that is the second blank line in a row; `|ls|` when there
      is none. */
  function StopFrom(ls: seq<seq<byte>>, i: nat): (n: nat)
    requires 1 <= i <= |ls|
    ensures i <= n <= |ls|
    ensures forall j, k :: i <= k < n && j == k - 1 ==> !(ls[j] == [] && ls[k] == [])
    ensures n < |ls| ==> ls[n - 1] == [] && ls[n] == []
    decreases |ls| - i
  {
    if i == |ls| || (ls[i - 1] == [] && ls[i] == []) then i else StopFrom(ls, i + 1)
  }

  /** How many lines are read before reading stops: all lines before the second blank line in
      a row (two blank lines with no text line between them). */
  function StopLine(ls: seq<seq<byte>>): (n: nat)
    ensures n <= |ls|
    ensures forall j, k :: 0 < k < n && j == k - 1 ==> !(ls[j] == [] && ls[k] == [])
    ensures n < |ls| ==> 0 < n && ls[n - 1] == [] && ls[n] == []
  {
    if |ls| <= 1 then |ls| else StopFrom(ls, 1)
  }

  /** What the trimmed line `ls[i]` contributes: nothing when blank; otherwise the line itself,
      after a newline when the line before it was blank. */
  function Piece(ls: seq<seq<byte>>, i: nat): seq<byte>
    requires i < |ls|
  {
    if ls[i] == [] then []
    else if i > 0 && ls[i - 1] == [] then ['\n'] + ls[i]
    else ls[i]
  }

  /** The message made of the first `n` trimmed lines. */
  function Message(ls: seq<seq<byte>>, n: nat): seq<byte>
    requires n <= |ls|
  {
    if n == 0 then [] else Message(ls, n - 1) + Piece(ls, n - 1)
  }

  /** `readMessageFromStdin` as a whole: the message of the trimmed lines read before the
      second blank line in a row. */
  function ReadMessage(input: seq<byte>): seq<byte>
  {
    var ls := TrimAll(SplitLines(input, 0));
    Message(ls, StopLine(ls))
  }

  /** One line of the loop: a second blank line in a row is where reading stops; any other
      line extends the message by its piece. */
  lemma JoinStep(ls: seq<seq<byte>>, i: nat, result: seq<byte>, emptyCount: int)
    requires i < |ls| && i <= StopLine(ls) && result == Message(ls, i)
    requires emptyCount == if i > 0 && ls[i - 1] == [] then 1 else 0
    ensures ls[i] == [] && emptyCount > 0 ==> i == StopLine(ls)
    ensures ls[i] == [] && emptyCount == 0 ==> i + 1 <= StopLine(ls) && Message(ls, i + 1) == result
    ensures ls[i] != [] ==> i + 1 <= StopLine(ls)
    ensures ls[i] != [] && emptyCount > 0 ==> Message(ls, i + 1) == (result + ['\n']) + ls[i]
    ensures ls[i] != [] && emptyCount == 0 ==> Message(ls, i + 1) == result + ls[i]
  {
    assert Message(ls, i + 1) == result + Piece(ls, i);
    if ls[i] != [] && emptyCount > 0 {
      assert (result + ['\n']) + ls[i] == result + (['\n'] + ls[i]);
    }
  }

  /** The `readMessageFromStdin` loop: for each line, trimmed, a blank line counts towards
      `emptyCount` and a second one in a row ends the loop, while a text line after a blank
      line is preceded by a newline; the line is then appended. */
  method ReadMessageFromStdin(input: seq<byte>) returns (result: seq<byte>)
    ensures result == ReadMessage(input)
  {
    var lines := SplitLines(input, 0);
    ghost var ls := TrimAll(lines);
    result := [];
    var emptyCount := 0;
    var i := 0;
    while i < |lines|
      invariant i <= StopLine(ls)
      invariant result == Message(ls, i)
      invariant emptyCount == if i > 0 && ls[i - 1] == [] then 1 else 0
    {
      var line := TrimSpace(lines[i]);
      JoinStep(ls, i, result, emptyCount);
      if line == [] {
        emptyCount := emptyCount + 1;
        if emptyCount > 1 {
          break;
        }
      } else if emptyCount > 0 {
        result := result + ['\n'];
        emptyCount := 0;
      }
      result := result + line;
      i := i + 1;
    }
  }

  /** A trimmed line without newlines keeps none. */
  lemma TrimKeepsNoNewline(s: seq<byte>)
    requires NoNewline(s)
    ensures NoNewline(TrimSpace(s))
  {
    var t := TrimSpace(s);
    var i :| CutAt(s, t, i);
    forall k | 0 <= k < |t| ensures t[k] != '\n' {
      assert t[k] == s[i + k];
    }
  }

  /** No empty line inside `m`: no two adjacent newlines, no newline at the end. */
  predicate NoEmptyLine(m: seq<byte>)
  {
    && (forall j, k :: 0 <= j < |m| && 0 <= k < |m| && k == j + 1 ==> !(m[j] == '\n' && m[k] == '\n'))
    && (m != [] ==> m[|m| - 1] != '\n')
  }

  lemma AppendLine(m: seq<byte>, line: seq<byte>)
    requires NoEmptyLine(m) && NoNewline(line) && line != []
    ensures NoEmptyLine(m + line)
    ensures NoEmptyLine(m + (['\n'] + line))
  {
    var a := m + line;
    forall j, k | 0 <= j < k < |a| && k == j + 1 ensures !(a[j] == '\n' && a[k] == '\n') {
      if j >= |m| { assert a[j] == line[j - |m|]; }
      else if k == |m| { assert a[k] == line[0]; }
    }
    var b := m + (['\n'] + line);
    forall j, k | 0 <= j < k < |b| && k == j + 1 ensures !(b[j] == '\n' && b[k] == '\n') {
      if j >= |m| { assert b[k] == line[j - |m|]; }
    }
    assert b[|b| - 1] == line[|line| - 1];
  }

  /** The message never holds an empty line, provided the lines hold no newline themselves:
      blank lines only ever become a single newline in front of a text line. */
  lemma {:induction false} MessageHasNoEmptyLine(ls: seq<seq<byte>>, n: nat)
    requires n <= |ls|
    requires forall k :: 0 <= k < |ls| ==> NoNewline(ls[k])
    ensures NoEmptyLine(Message(ls, n))
  {
    if n > 0 {
      MessageHasNoEmptyLine(ls, n - 1);
      PieceKeepsNoEmptyLine(ls, n - 1);
    }
  }

  lemma PieceKeepsNoEmptyLine(ls: seq<seq<byte>>, i: nat)
    requires i < |ls| && NoEmptyLine(Message(ls, i)) && NoNewline(ls[i])
    ensures NoEmptyLine(Message(ls, i + 1))
  {
    var m := Message(ls, i);
    if ls[i] != [] {
      AppendLine(m, ls[i]);
    } else {
      assert m + [] == m;
    }
  }

  /** What `readMessageFromStdin` returns never holds an empty line. */
  lemma ReadMessageHasNoEmptyLine(input: seq<byte>)
    ensures NoEmptyLine(ReadMessage(input))
  {
    var lines := SplitLines(input, 0);
    LinesHaveNoNewline(input, 0);
    var ls := TrimAll(lines);
    forall k | 0 <= k < |ls| ensures NoNewline(ls[k]) {
      TrimKeepsNoNewline(lines[k]);
    }
    MessageHasNoEmptyLine(ls, StopLine(ls));
  }

  /** A blank line between two text lines becomes one newline, two blank lines end the message,
      and the unterminated last line is not read: "ab\n \ncd\n\n\ng" reads as "ab\ncd". */
  lemma ReadExample()
    ensures ReadMessage(ExampleInput) == ['a', 'b', '\n', 'c', 'd']
  {
    ExampleLines();
    var ls := TrimAll(SplitLines(ExampleInput, 0));
    ExampleTrimmed(SplitLines(ExampleInput, 0));
    ExampleStop(ls);
    ExampleJoin(ls);
  }

  const ExampleInput: seq<byte> := ['a', 'b', '\n', ' ', '\n', 'c', 'd', '\n', '\n', '\n', 'g']

  lemma ExampleLines()
    ensures SplitLines(ExampleInput, 0) == [['a', 'b'], [' '], ['c', 'd'], [], []]
  {
    var lines: seq<seq<byte>> := [['a', 'b'], [' '], ['c', 'd'], [], []];
    assert Unlines(lines[4..]) == ['\n'];
    assert Unlines(lines[3..]) == ['\n', '\n'];
    assert Unlines(lines[2..]) == ['c', 'd', '\n', '\n', '\n'];
    assert Unlines(lines[1..]) == [' ', '\n', 'c', 'd', '\n', '\n', '\n'];
    assert ExampleInput == Unlines(lines) + ['g'];
    SplitUnlines(lines, ['g']);
  }

  lemma ExampleTrimmed(lines: seq<seq<byte>>)
    requires lines == [['a', 'b'], [' '], ['c', 'd'], [], []]
    ensures TrimAll(lines) == [['a', 'b'], [], ['c', 'd'], [], []]
  {
    ExampleTrim();
    var ts := TrimAll(lines);
    assert ts[0] == ['a', 'b'] && ts[1] == [] && ts[2] == ['c', 'd'];
    assert TrimSpace([]) == [];
    assert ts[3] == [] && ts[4] == [];
  }

  lemma ExampleTrim()
    ensures TrimSpace([' ']) == []
    ensures TrimSpace(['a', 'b']) == ['a', 'b']
    ensures TrimSpace(['c', 'd']) == ['c', 'd']
  {
    assert [' '][0..0] == [];
    assert ['a', 'b'][0..2] == ['a', 'b'];
    assert ['c', 'd'][0..2] == ['c', 'd'];
  }

  lemma ExampleStop(ls: seq<seq<byte>>)
    requires ls == [['a', 'b'], [], ['c', 'd'], [], []]
    ensures StopLine(ls) == 4
  {
    assert StopFrom(ls, 4) == 4;
    assert StopFrom(ls, 3) == 4;
    assert StopFrom(ls, 2) == 4;
  }

  lemma ExampleJoin(ls: seq<seq<byte>>)
    requires ls == [['a', 'b'], [], ['c', 'd'], [], []]
    ensures Message(ls, 4) == ['a', 'b', '\n', 'c', 'd']
  {
    assert Message(ls, 1) == ['a', 'b'];
    assert Message(ls, 2) == ['a', 'b'];
    assert Piece(ls, 2) == ['\n', 'c', 'd'];
    assert Message(ls, 3) == ['a', 'b', '\n', 'c', 'd'];
    assert Piece(ls, 3) == [];
  }
}
