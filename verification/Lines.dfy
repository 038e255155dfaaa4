/** Texts as newline-terminated lines, and the one way of cutting a text into them. */
module Lines {
  const NEWLINE: char := '\n'

  datatype Split = Split(lines: seq<string>, rest: string)

  /** The newline-terminated lines of `s`, without their newlines, and the unterminated rest. */
  function SplitLines(s: string): Split {
    if s == "" then Split([], "") else AddChar(SplitLines(s[..|s| - 1]), s[|s| - 1])
  }

  function AddChar(x: Split, c: char): Split {
    if c == NEWLINE then Split(x.lines + [x.rest], "") else Split(x.lines, x.rest + [c])
  }

  lemma SplitSnoc(s: string, c: char)
    ensures SplitLines(s + [c]) == AddChar(SplitLines(s), c)
  {
    assert (s + [c])[..|s|] == s;
  }

  function JoinLines(lines: seq<string>): string {
    if lines == [] then "" else JoinLines(lines[..|lines| - 1]) + lines[|lines| - 1] + [NEWLINE]
  }

  predicate IsLine(s: string) {
    NEWLINE !in s
  }

  lemma JoinSnoc(lines: seq<string>, line: string)
    ensures JoinLines(lines + [line]) == JoinLines(lines) + line + [NEWLINE]
  {
    assert (lines + [line])[..|lines|] == lines;
  }

  lemma JoinStep(x: Split, c: char)
    ensures JoinLines(AddChar(x, c).lines) + AddChar(x, c).rest == (JoinLines(x.lines) + x.rest) + [c]
  {
    hide JoinLines;
    if c == NEWLINE {
      JoinSnoc(x.lines, x.rest);
      assert JoinLines(x.lines) + x.rest + [c] + "" == JoinLines(x.lines) + x.rest + [c];
    } else {
      assert JoinLines(x.lines) + (x.rest + [c]) == JoinLines(x.lines) + x.rest + [c];
    }
  }

  /** Splitting loses nothing. */
  lemma {:induction false} JoinInvertsSplit(s: string)
    ensures JoinLines(SplitLines(s).lines) + SplitLines(s).rest == s
  {
    hide JoinLines, AddChar;
    if s == "" {
      NoLines();
    } else {
      var n := |s| - 1;
      JoinInvertsSplit(s[..n]);
      JoinStep(SplitLines(s[..n]), s[n]);
    }
  }

  lemma NoLines()
    ensures JoinLines([]) == ""
  {
  }

  /** It cuts at every newline. */
  lemma {:induction false} PiecesAreLines(s: string)
    ensures IsLine(SplitLines(s).rest) && forall l :: l in SplitLines(s).lines ==> IsLine(l)
  {
    if s != "" {
      PiecesAreLines(s[..|s| - 1]);
    }
  }

  /** There is only one way to cut a text at its newlines. */
  lemma {:induction false} SplitOfLines(lines: seq<string>, rest: string)
    requires IsLine(rest) && forall l :: l in lines ==> IsLine(l)
    ensures SplitLines(JoinLines(lines) + rest) == Split(lines, rest)
    decreases |lines|, |rest|
  {
    if rest != "" {
      var n := |rest| - 1;
      SplitOfLines(lines, rest[..n]);
      assert (JoinLines(lines) + rest)[..|JoinLines(lines) + rest| - 1] == JoinLines(lines) + rest[..n];
      assert rest == rest[..n] + [rest[n]];
    } else if lines != [] {
      var m := |lines| - 1;
      SplitOfLines(lines[..m], lines[m]);
      var s := JoinLines(lines[..m]) + lines[m];
      assert JoinLines(lines) + "" == s + [NEWLINE];
      assert (s + [NEWLINE])[..|s|] == s;
      assert lines == lines[..m] + [lines[m]];
    }
  }

  /** Splitting the continuation of a text continues its split. */
  lemma {:induction false} SplitContinues(a: string, b: string)
    ensures var x, y := SplitLines(a), SplitLines(SplitLines(a).rest + b);
            SplitLines(a + b) == Split(x.lines + y.lines, y.rest)
  {
    var x := SplitLines(a);
    if b == "" {
      ContinueNothing(a);
    } else {
      hide SplitLines;
      var n := |b| - 1;
      SplitContinues(a, b[..n]);
      assert b == b[..n] + [b[n]];
      ContinueStep(a, b[..n], b[n]);
    }
  }

  lemma ContinueNothing(a: string)
    ensures var x, y := SplitLines(a), SplitLines(SplitLines(a).rest + "");
            SplitLines(a + "") == Split(x.lines + y.lines, y.rest)
  {
    PiecesAreLines(a);
    hide SplitLines;
    var x := SplitLines(a);
    OnlyRest(x.rest);
    assert a + "" == a && x.rest + "" == x.rest && x.lines + [] == x.lines;
  }

  lemma ContinueStep(a: string, b: string, c: char)
    requires var x, y := SplitLines(a), SplitLines(SplitLines(a).rest + b);
             SplitLines(a + b) == Split(x.lines + y.lines, y.rest)
    ensures var x, y := SplitLines(a), SplitLines(SplitLines(a).rest + (b + [c]));
            SplitLines(a + (b + [c])) == Split(x.lines + y.lines, y.rest)
  {
    hide SplitLines;
    var x := SplitLines(a);
    var y := SplitLines(x.rest + b);
    assert a + (b + [c]) == (a + b) + [c];
    assert x.rest + (b + [c]) == (x.rest + b) + [c];
    SplitSnoc(a + b, c);
    SplitSnoc(x.rest + b, c);
    assert x.lines + y.lines + [y.rest] == x.lines + (y.lines + [y.rest]);
  }

  /** The first line and what follows it. */
  lemma {:induction false} SplitFront(line: string, tail: string)
    requires IsLine(line)
    ensures SplitLines(line + ([NEWLINE] + tail)) == Split([line] + SplitLines(tail).lines, SplitLines(tail).rest)
  {
    SplitOfLines([line], "");
    assert [line][..0] == [];
    assert JoinLines([line]) + "" == line + [NEWLINE];
    SplitContinues(line + [NEWLINE], tail);
    assert line + [NEWLINE] + tail == line + ([NEWLINE] + tail);
    assert "" + tail == tail;
  }

  lemma OnlyRest(line: string)
    requires IsLine(line)
    ensures SplitLines(line) == Split([], line)
  {
    SplitOfLines([], line);
    assert JoinLines([]) + line == line;
  }
}
