/**
 The flat `key: value` configuration file: two readers that disagree on duplicate keys (the
 agent takes the first, the rule engine the last) and one writer that must satisfy both.
 */
module FlatYaml {
  import opened Text
  import opened Lines

  // ---- One line -------------------------------------------------------------------------------

  predicate IsBlank(c: char) {
    c == ' ' || c == '\t'
  }

  predicate IsFiller(c: char) {
    IsBlank(c) || c == '\r' || c == '\n'
  }

  /** One past the last character of `s` that does not satisfy `p`; zero if there is none. */
  function End(s: string, p: char -> bool): (e: nat)
    ensures e <= |s|
    ensures e > 0 ==> !p(s[e - 1])
    ensures forall i :: e <= i < |s| ==> p(s[i])
  {
    if s == "" || !p(s[|s| - 1]) then |s| else End(s[..|s| - 1], p)
  }

  lemma EndIs(s: string, p: char -> bool, e: nat)
    requires e <= |s| && (e > 0 ==> !p(s[e - 1])) && forall i :: e <= i < |s| ==> p(s[i])
    ensures End(s, p) == e
  {
    hide End;
  }

  lemma SpanIs(s: string, p: char -> bool, n: nat)
    requires n <= |s| && (n < |s| ==> !p(s[n])) && forall i :: 0 <= i < n ==> p(s[i])
    ensures Span(s, p) == n
  {
    hide Span;
  }

  /**
   The readers' trim: blanks in front, blanks and line ends behind.  When the end search finds
   nothing, its "no position" wraps the length, so nothing is cut behind unless nothing was cut
   in front.
   */
  function ReaderTrim(s: string): string {
    var b, e := Span(s, IsBlank), End(s, IsFiller);
    if b == |s| then ""
    else if e == 0 then (if b == 0 then "" else s[b..])
    else if b <= e then s[b..e] else assert false; ""
  }

  /** The writer's trim: blanks only, and nothing at all when there is nothing else. */
  function WriterTrim(s: string): string {
    var b, e := Span(s, IsBlank), End(s, IsBlank);
    if b == |s| then s else if b <= e then s[b..e] else assert false; ""
  }

  function CutComment(line: string): (r: string)
    ensures r <= line
  {
    match Find(line, "#")
    case None => line
    case Some(i) => line[..i]
  }

  /** The key and value the readers find on a line. */
  function Field(line: string): Option<(string, string)> {
    var text := CutComment(line);
    match Find(text, ":")
    case None => None
    case Some(i) => Some((ReaderTrim(text[..i]), ReaderTrim(text[i + 1..])))
  }

  /** The key the writer finds on a line. */
  function WriterKey(line: string): Option<string> {
    var text := CutComment(line);
    match Find(text, ":")
    case None => None
    case Some(i) => Some(WriterTrim(text[..i]))
  }

  function NewLine(key: string, value: string): string {
    key + ": " + value
  }

  predicate Reads(line: string, key: string) {
    Field(line).Some? && Field(line).value.0 == key
  }

  /** A line the readers take for `key` and the writer does not. */
  predicate Stale(line: string, key: string) {
    Reads(line, key) && WriterKey(line) != Some(key)
  }

  // ---- The functions of the file's lines ---------------------------------------------------------

  /** What repeated `std::getline` returns: an unterminated last line counts unless it is empty. */
  function GetLines(text: string): seq<string> {
    var split := SplitLines(text);
    split.lines + if split.rest == "" then [] else [split.rest]
  }

  function FirstLine(lines: seq<string>, key: string): (r: Option<string>)
    ensures r.Some? ==> Reads(r.value, key)
  {
    if lines == [] then None
    else
      var n := |lines| - 1;
      var first := FirstLine(lines[..n], key);
      if first.None? && Reads(lines[n], key) then Some(lines[n]) else first
  }

  function LastLine(lines: seq<string>, key: string): (r: Option<string>)
    ensures r.Some? ==> Reads(r.value, key)
  {
    if lines == [] then None
    else
      var n := |lines| - 1;
      if Reads(lines[n], key) then Some(lines[n]) else LastLine(lines[..n], key)
  }

  function ValueOn(line: Option<string>, default: string): string
    requires line.Some? ==> Field(line.value).Some?
  {
    if line.None? then default else Field(line.value).value.1
  }

  function ParseFlat(lines: seq<string>): map<string, string> {
    if lines == [] then map[]
    else
      var n := |lines| - 1;
      var field := Field(lines[n]);
      if field.None? || field.value.0 == "" then ParseFlat(lines[..n])
      else ParseFlat(lines[..n])[field.value.0 := field.value.1]
  }

  function RewriteLine(line: string, key: string, value: string): string {
    if WriterKey(line) == Some(key) then NewLine(key, value) else line
  }

  function Rewritten(lines: seq<string>, key: string, value: string): seq<string> {
    if lines == [] then []
    else Rewritten(lines[..|lines| - 1], key, value) + [RewriteLine(lines[|lines| - 1], key, value)]
  }

  predicate Found(lines: seq<string>, key: string) {
    exists i :: 0 <= i < |lines| && WriterKey(lines[i]) == Some(key)
  }

  function Written(lines: seq<string>, key: string, value: string): seq<string> {
    Rewritten(lines, key, value) + if Found(lines, key) then [] else [NewLine(key, value)]
  }

  function WriteText(text: string, key: string, value: string): string {
    JoinLines(Written(GetLines(text), key, value))
  }

  // ---- The operations -----------------------------------------------------------------------------
  //
  // A file is `None` when it cannot be opened for reading.

  method ReadYamlField(file: Option<string>, key: string, default: string) returns (r: string)
    ensures r == if file.None? then default else ValueOn(FirstLine(GetLines(file.value), key), default)
  {
    hide GetLines, Field, FirstLine;
    if file.None? {
      return default;
    }
    var lines := GetLines(file.value);
    var i := 0;
    NoFirstLine(key);
    while i < |lines|
      invariant 0 <= i <= |lines|
      invariant FirstLine(lines[..i], key).None?
    {
      SnocFirst(lines[..i], lines[i], key);
      assert lines[..i] + [lines[i]] == lines[..i + 1];
      var field := Field(lines[i]);
      if field.Some? && field.value.0 == key {
        FirstLineExtends(lines, i + 1, key);
        return field.value.1;
      }
      i := i + 1;
    }
    assert lines[..i] == lines;
    return default;
  }

  lemma NoFirstLine(key: string)
    ensures FirstLine([], key).None?
  {
  }

  lemma {:induction false} FirstLineExtends(lines: seq<string>, i: nat, key: string)
    requires i <= |lines| && FirstLine(lines[..i], key).Some?
    ensures FirstLine(lines, key) == FirstLine(lines[..i], key)
  {
    if i == |lines| {
      assert lines[..i] == lines;
    } else {
      assert lines[..|lines| - 1][..i] == lines[..i];
      FirstLineExtends(lines[..|lines| - 1], i, key);
    }
  }

  method ParseFlatYaml(file: Option<string>) returns (out: map<string, string>)
    ensures out == if file.None? then map[] else ParseFlat(GetLines(file.value))
  {
    out := map[];
    if file.None? {
      return;
    }
    var lines := GetLines(file.value);
    var i := 0;
    while i < |lines|
      invariant 0 <= i <= |lines| && out == ParseFlat(lines[..i])
    {
      assert lines[..i + 1][..i] == lines[..i];
      var field := Field(lines[i]);
      if field.Some? && field.value.0 != "" {
        out := out[field.value.0 := field.value.1];
      }
      i := i + 1;
    }
    assert lines[..i] == lines;
  }

  lemma RewriteStep(input: seq<string>, i: nat, key: string, value: string)
    requires i < |input|
    ensures Rewritten(input[..i + 1], key, value) ==
            Rewritten(input[..i], key, value) + [RewriteLine(input[i], key, value)]
    ensures Found(input[..i + 1], key) == (Found(input[..i], key) || WriterKey(input[i]) == Some(key))
  {
    hide RewriteLine, WriterKey;
    assert input[..i + 1][..i] == input[..i];
    assert input[..i + 1][i] == input[i];
  }

  /** Every line in turn, each ended by a newline. */
  method PrintLines(lines: seq<string>) returns (text: string)
    ensures text == JoinLines(lines)
  {
    text := "";
    var i := 0;
    while i < |lines|
      invariant 0 <= i <= |lines| && text == JoinLines(lines[..i])
    {
      assert lines[..i + 1][..i] == lines[..i];
      text := text + lines[i] + [NEWLINE];
      i := i + 1;
    }
    assert lines[..i] == lines;
  }

  /** `opens` says whether the file can be opened for writing. */
  method WriteYamlField(file: Option<string>, opens: bool, key: string, value: string)
    returns (ok: bool, out: Option<string>)
    ensures ok == (file.Some? && opens)
    ensures out == if ok then Some(WriteText(file.value, key, value)) else file
  {
    hide WriterKey, NewLine, Found, Rewritten, GetLines;
    if file.None? {
      return false, file;
    }
    var input := GetLines(file.value);
    var lines: seq<string> := [];
    var found := false;
    var i := 0;
    NothingRewritten(key, value);
    while i < |input|
      invariant 0 <= i <= |input|
      invariant lines == Rewritten(input[..i], key, value)
      invariant found == Found(input[..i], key)
    {
      RewriteStep(input, i, key, value);
      var line := input[i];
      if WriterKey(line) == Some(key) {
        line := NewLine(key, value);
        found := true;
      }
      lines := lines + [line];
      i := i + 1;
    }
    assert input[..i] == input;
    if !found {
      lines := lines + [NewLine(key, value)];
    }
    assert lines == Written(input, key, value);
    if !opens {
      return false, file;
    }
    var text := PrintLines(lines);
    return true, Some(text);
  }

  lemma NothingRewritten(key: string, value: string)
    ensures Rewritten([], key, value) == [] && !Found([], key)
  {
  }

  // ---- How reader and writer see one line ------------------------------------------------------------

  /** A key that survives being printed on a line. */
  predicate PlainKey(key: string) {
    key != "" && ReaderTrim(key) == key && ':' !in key && '#' !in key && IsLine(key)
  }

  /** A value that survives being printed on a line. */
  predicate PlainValue(value: string) {
    ReaderTrim(value) == value && '#' !in value && IsLine(value)
  }

  lemma TrimmedEnds(s: string)
    requires s != "" && ReaderTrim(s) == s
    ensures !IsBlank(s[0]) && !IsFiller(s[|s| - 1])
  {
    hide Span, End;
  }

  lemma FindChar(s: string, c: char, i: nat)
    requires i < |s| && s[i] == c && c !in s[..i]
    ensures Find(s, [c]) == Some(i)
  {
    assert forall j :: 0 <= j < i ==> s[..i][j] == s[j];
    FindCharAt(s, c, 0, i);
  }

  lemma TrimOfSpaced(value: string)
    requires ReaderTrim(value) == value
    ensures ReaderTrim(" " + value) == value
  {
    hide Span, End;
    var s := " " + value;
    if value == "" {
      SpanIs(s, IsBlank, 1);
    } else {
      TrimmedEnds(value);
      SpanIs(s, IsBlank, 1);
      EndIs(s, IsFiller, |s|);
    }
  }

  lemma ColonOfNewLine(key: string, value: string)
    requires PlainKey(key) && '#' !in value
    ensures CutComment(NewLine(key, value)) == NewLine(key, value)
    ensures Find(NewLine(key, value), ":") == Some(|key|)
    ensures NewLine(key, value)[..|key|] == key && NewLine(key, value)[|key| + 1..] == " " + value
  {
    hide Find, ReaderTrim;
    var s := NewLine(key, value);
    assert s[..|key|] == key;
    FindNoChar(s, '#');
    FindChar(s, ':', |key|);
  }

  /** A written line reads back. */
  lemma NewLineReads(key: string, value: string)
    requires PlainKey(key) && PlainValue(value)
    ensures Field(NewLine(key, value)) == Some((key, value))
    ensures forall k :: Reads(NewLine(key, value), k) == (k == key)
  {
    hide Find, ReaderTrim, CutComment, NewLine;
    ColonOfNewLine(key, value);
    TrimOfSpaced(value);
  }

  /** The writer recognises its own lines. */
  lemma NewLineIsFound(key: string, value: string)
    requires PlainKey(key) && '#' !in value
    ensures WriterKey(NewLine(key, value)) == Some(key)
  {
    hide Find, CutComment, NewLine, Span, End;
    ColonOfNewLine(key, value);
    TrimmedEnds(key);
    SpanIs(key, IsBlank, 0);
    EndIs(key, IsBlank, |key|);
  }

  lemma WriterTrimIsReaderTrim(s: string, key: string)
    requires PlainKey(key) && WriterTrim(s) == key
    ensures ReaderTrim(s) == key
  {
    TrimmedEnds(key);
    hide Span, End;
    var b, e := Span(s, IsBlank), End(s, IsBlank);
    if b < |s| {
      assert s[b] == key[0] && s[e - 1] == key[|key| - 1];
      EndIs(s, IsFiller, e);
    }
  }

  lemma ReaderTrimIsWriterTrim(s: string, key: string)
    requires PlainKey(key) && ReaderTrim(s) == key && '\r' !in s && IsLine(s)
    ensures WriterTrim(s) == key
  {
    hide Span, End;
    var b, e := Span(s, IsBlank), End(s, IsFiller);
    if b < |s| {
      EndIs(s, IsBlank, e);
    }
  }

  /** What the writer replaces, the readers would have read. */
  lemma WriterMatchIsRead(line: string, key: string)
    requires PlainKey(key) && WriterKey(line) == Some(key)
    ensures Reads(line, key)
  {
    hide Find, CutComment, WriterTrim, ReaderTrim;
    var text := CutComment(line);
    WriterTrimIsReaderTrim(text[..Find(text, ":").value], key);
  }

  /** No carriage return stands before the first colon outside a comment. */
  predicate CleanLine(line: string) {
    var text := CutComment(line);
    var colon := Find(text, ":");
    colon.Some? ==> '\r' !in text[..colon.value]
  }

  /** A carriage return in front of the colon is the only way for a line to be stale. */
  lemma CleanLineIsNotStale(line: string, key: string)
    requires PlainKey(key) && IsLine(line) && CleanLine(line)
    ensures !Stale(line, key)
  {
    hide Find, WriterTrim, ReaderTrim;
    var text := CutComment(line);
    var colon := Find(text, ":");
    if Reads(line, key) {
      assert text[..colon.value] <= line;
      ReaderTrimIsWriterTrim(text[..colon.value], key);
    }
  }

  /** A carriage return stands among the characters that the readers trim from the end of the key. */
  predicate ReturnBehindKey(line: string) {
    var text := CutComment(line);
    var colon := Find(text, ":");
    colon.Some? &&
      var k := text[..colon.value];
      '\r' in k[End(k, IsFiller)..]
  }

  lemma TrimmedPart(k: string, key: string)
    requires PlainKey(key) && ReaderTrim(k) == key
    ensures Span(k, IsBlank) < End(k, IsFiller) && key == k[Span(k, IsBlank)..End(k, IsFiller)]
  {
    TrimmedEnds(key);
    hide Span, End;
  }

  lemma BlankEndIs(k: string, e: nat)
    requires e <= |k| && (e > 0 ==> !IsFiller(k[e - 1])) && forall i :: e <= i < |k| ==> IsFiller(k[i])
    requires IsLine(k) && '\r' !in k[e..]
    ensures End(k, IsBlank) == e
  {
    forall i | e <= i < |k|
      ensures IsBlank(k[i])
    {
      assert k[i] == k[e..][i - e];
    }
    EndIs(k, IsBlank, e);
  }

  /** The blanks at the end reach back to the fillers there exactly when these hold no carriage return. */
  lemma SameEndIff(k: string)
    requires IsLine(k)
    ensures End(k, IsFiller) <= End(k, IsBlank)
    ensures End(k, IsBlank) == End(k, IsFiller) <==> '\r' !in k[End(k, IsFiller)..]
  {
    var e, w := End(k, IsFiller), End(k, IsBlank);
    if '\r' !in k[e..] {
      BlankEndIs(k, e);
    } else {
      var i :| 0 <= i < |k[e..]| && k[e..][i] == '\r';
      assert k[e + i] == '\r';
    }
    hide End;
  }

  /** Trimming as the writer does gives the readers' key exactly when it meets no carriage return. */
  lemma SameTrimIff(k: string, key: string)
    requires PlainKey(key) && ReaderTrim(k) == key && IsLine(k)
    ensures WriterTrim(k) == key <==> '\r' !in k[End(k, IsFiller)..]
  {
    TrimmedPart(k, key);
    SameEndIff(k);
    hide Span, End, ReaderTrim, PlainKey, IsBlank, IsFiller, IsLine;
    var b, e, w := Span(k, IsBlank), End(k, IsFiller), End(k, IsBlank);
    assert |k[b..w]| == w - b && |k[b..e]| == e - b;
  }

  /** Exactly the lines that are stale, in terms of their characters. */
  lemma StaleIff(line: string, key: string)
    requires PlainKey(key) && IsLine(line) && Reads(line, key)
    ensures Stale(line, key) <==> ReturnBehindKey(line)
  {
    hide Find, WriterTrim, ReaderTrim, End, PlainKey;
    var text := CutComment(line);
    var k := text[..Find(text, ":").value];
    assert k <= line;
    SameTrimIff(k, key);
  }

  // ---- What a write does to the readings ------------------------------------------------------------

  lemma RewriteReads(line: string, key: string, value: string)
    requires PlainKey(key) && PlainValue(value)
    ensures forall k :: Reads(RewriteLine(line, key, value), k) == Reads(line, k)
    ensures Field(line).Some? ==>
      Field(RewriteLine(line, key, value)) ==
        (if Reads(line, key) && !Stale(line, key) then Some((key, value)) else Field(line))
  {
    hide Field, WriterKey, NewLine;
    NewLineReads(key, value);
    if WriterKey(line) == Some(key) {
      WriterMatchIsRead(line, key);
    }
  }

  lemma SnocFirst(lines: seq<string>, line: string, key: string)
    ensures FirstLine(lines + [line], key) ==
            (if FirstLine(lines, key).None? && Reads(line, key) then Some(line) else FirstLine(lines, key))
    ensures LastLine(lines + [line], key) == if Reads(line, key) then Some(line) else LastLine(lines, key)
  {
    assert (lines + [line])[..|lines|] == lines;
  }

  /** The readers stop at the same lines before and after rewriting. */
  lemma {:induction false} ReadingsOfRewritten(lines: seq<string>, key: string, value: string, k: string)
    requires PlainKey(key) && PlainValue(value)
    ensures Follows(FirstLine(lines, k), FirstLine(Rewritten(lines, key, value), k), key, value)
    ensures Follows(LastLine(lines, k), LastLine(Rewritten(lines, key, value), k), key, value)
    decreases |lines|
  {
    hide *;
    if lines == [] {
      NothingRead(key, value, k);
    } else {
      var n := |lines| - 1;
      ReadingsOfRewritten(lines[..n], key, value, k);
      RewriteStep(lines, n, key, value);
      assert lines[..n + 1] == lines && lines[..n] + [lines[n]] == lines;
      RewriteReads(lines[n], key, value);
      OneMoreLine(lines[..n], Rewritten(lines[..n], key, value), lines[n], key, value, k);
    }
  }

  lemma NothingRead(key: string, value: string, k: string)
    ensures FirstLine([], k).None? && LastLine([], k).None? && Rewritten([], key, value) == []
    ensures Follows(None, None, key, value)
  {
  }

  lemma OneMoreLine(lines: seq<string>, out: seq<string>, line: string, key: string, value: string, k: string)
    requires Follows(FirstLine(lines, k), FirstLine(out, k), key, value)
    requires Follows(LastLine(lines, k), LastLine(out, k), key, value)
    requires Reads(RewriteLine(line, key, value), k) == Reads(line, k)
    ensures var more, new_ := lines + [line], out + [RewriteLine(line, key, value)];
            && Follows(FirstLine(more, k), FirstLine(new_, k), key, value)
            && Follows(LastLine(more, k), LastLine(new_, k), key, value)
  {
    SnocFirst(lines, line, k);
    SnocFirst(out, RewriteLine(line, key, value), k);
    hide Reads, RewriteLine, FirstLine, LastLine;
  }

  predicate Follows(before: Option<string>, after: Option<string>, key: string, value: string) {
    if before.None? then after.None? else after == Some(RewriteLine(before.value, key, value))
  }

  lemma {:induction false} RewrittenLength(lines: seq<string>, key: string, value: string)
    ensures |Rewritten(lines, key, value)| == |lines|
    ensures forall i :: 0 <= i < |lines| ==> Rewritten(lines, key, value)[i] == RewriteLine(lines[i], key, value)
  {
    hide RewriteLine;
    if lines != [] {
      RewrittenLength(lines[..|lines| - 1], key, value);
    }
  }

  lemma {:induction false} FoundIsRead(lines: seq<string>, key: string)
    requires PlainKey(key) && Found(lines, key)
    ensures FirstLine(lines, key).Some? && LastLine(lines, key).Some?
  {
    hide Reads, WriterKey, PlainKey;
    var n := |lines| - 1;
    if WriterKey(lines[n]) == Some(key) {
      WriterMatchIsRead(lines[n], key);
    } else {
      assert Found(lines[..n], key);
      FoundIsRead(lines[..n], key);
    }
  }

  lemma WrittenIs(lines: seq<string>, key: string, value: string)
    ensures Written(lines, key, value) ==
            (if Found(lines, key) then Rewritten(lines, key, value)
             else Rewritten(lines, key, value) + [NewLine(key, value)])
  {
    hide Rewritten, NewLine, Found;
  }

  /** The first-wins reader stops at a line that the writer does not recognise. */
  predicate FirstStuck(lines: seq<string>, key: string) {
    var first := FirstLine(lines, key);
    first.Some? && Stale(first.value, key)
  }

  /** The writer finds some line of the key, but not the one the last-wins reader takes. */
  predicate LastStuck(lines: seq<string>, key: string) {
    var last := LastLine(lines, key);
    Found(lines, key) && last.Some? && Stale(last.value, key)
  }

  /** A rewritten line of the key is stale if it was, and then it is unchanged. */
  lemma RewriteStale(line: string, key: string, value: string)
    requires PlainKey(key) && PlainValue(value) && Reads(line, key)
    ensures var out := RewriteLine(line, key, value);
            && Reads(out, key) && Stale(out, key) == Stale(line, key)
            && Field(out).value.1 == if Stale(line, key) then Field(line).value.1 else value
  {
    hide Field, WriterKey, NewLine;
    RewriteReads(line, key, value);
    NewLineIsFound(key, value);
  }

  lemma OwnLineIsNotStale(key: string, value: string)
    requires PlainKey(key) && PlainValue(value)
    ensures Field(NewLine(key, value)) == Some((key, value)) && !Stale(NewLine(key, value), key)
    ensures forall k :: Reads(NewLine(key, value), k) == (k == key)
  {
    hide Field, WriterKey, NewLine;
    NewLineReads(key, value);
    NewLineIsFound(key, value);
  }

  /** What the first-wins reader finds after a write, for any lines. */
  lemma {:induction false} FirstAfterWrite(lines: seq<string>, key: string, value: string, default: string)
    requires PlainKey(key) && PlainValue(value)
    ensures var first, after := FirstLine(lines, key), FirstLine(Written(lines, key, value), key);
            && after.Some?
            && ValueOn(after, default) == (if FirstStuck(lines, key) then ValueOn(first, default) else value)
            && FirstStuck(Written(lines, key, value), key) == FirstStuck(lines, key)
  {
    hide Field, Stale, RewriteLine, PlainKey, PlainValue, NewLine, Rewritten, FirstLine, LastLine, Found, Written;
    WrittenIs(lines, key, value);
    var first := FirstLine(lines, key);
    ReadingsOfRewritten(lines, key, value, key);
    OwnLineIsNotStale(key, value);
    SnocFirst(Rewritten(lines, key, value), NewLine(key, value), key);
    if first.Some? {
      RewriteStale(first.value, key, value);
    } else if Found(lines, key) {
      FoundIsRead(lines, key);
    }
  }

  /** What the last-wins reader finds after a write, for any lines. */
  lemma {:induction false} LastAfterWrite(lines: seq<string>, key: string, value: string, default: string)
    requires PlainKey(key) && PlainValue(value)
    ensures var last, after := LastLine(lines, key), LastLine(Written(lines, key, value), key);
            && after.Some?
            && ValueOn(after, default) == (if LastStuck(lines, key) then ValueOn(last, default) else value)
            && LastStuck(Written(lines, key, value), key) == LastStuck(lines, key)
  {
    hide Field, Stale, RewriteLine, PlainKey, PlainValue, NewLine, Rewritten, FirstLine, LastLine, Found, Written;
    WrittenIs(lines, key, value);
    WrittenIsFound(lines, key, value);
    var last := LastLine(lines, key);
    ReadingsOfRewritten(lines, key, value, key);
    OwnLineIsNotStale(key, value);
    SnocFirst(Rewritten(lines, key, value), NewLine(key, value), key);
    if Found(lines, key) {
      FoundIsRead(lines, key);
      RewriteStale(last.value, key, value);
    }
  }

  lemma WrittenIsFound(lines: seq<string>, key: string, value: string)
    requires PlainKey(key) && PlainValue(value)
    ensures Found(Written(lines, key, value), key)
  {
    hide WriterKey, NewLine, PlainKey, Rewritten, Written;
    WrittenIs(lines, key, value);
    assert '#' !in value;
    NewLineIsFound(key, value);
    if Found(lines, key) {
      RewriteFinds(lines, key, value);
    } else {
      var out := Rewritten(lines, key, value) + [NewLine(key, value)];
      assert WriterKey(out[|out| - 1]) == Some(key);
    }
  }

  /**
   Exactly when the agent reads back what it wrote: the first line it takes for the key is one
   the writer recognises, or carried the value already.
   */
  lemma {:induction false} FirstReadAfterWrite(lines: seq<string>, key: string, value: string, default: string)
    requires PlainKey(key) && PlainValue(value)
    ensures var first, after := FirstLine(lines, key), FirstLine(Written(lines, key, value), key);
            && after.Some?
            && (ValueOn(after, default) == value <==>
                  first.None? || !Stale(first.value, key) || ValueOn(first, default) == value)
  {
    hide Field, Stale, PlainKey, PlainValue, FirstLine, Written;
    FirstAfterWrite(lines, key, value, default);
  }

  /**
   Exactly when the rule engine reads back what the agent wrote: nothing was replaced, so the new
   line is the last, or the last line taken for the key is one the writer recognises, or carried
   the value already.
   */
  lemma {:induction false} LastReadAfterWrite(lines: seq<string>, key: string, value: string, default: string)
    requires PlainKey(key) && PlainValue(value)
    ensures var last, after := LastLine(lines, key), LastLine(Written(lines, key, value), key);
            && after.Some?
            && (ValueOn(after, default) == value <==>
                  || !Found(lines, key)
                  || (last.Some? && (!Stale(last.value, key) || ValueOn(last, default) == value)))
  {
    hide Field, Stale, PlainKey, PlainValue, LastLine, Written, Found;
    LastAfterWrite(lines, key, value, default);
    if Found(lines, key) {
      FoundIsRead(lines, key);
    }
  }

  /** Either reader finds for another key what it found before. */
  lemma {:induction false} OtherKeysKeepTheirValues(
    lines: seq<string>, key: string, value: string, other: string, default: string)
    requires PlainKey(key) && PlainValue(value) && other != key
    ensures var written := Written(lines, key, value);
            && ValueOn(FirstLine(written, other), default) == ValueOn(FirstLine(lines, other), default)
            && ValueOn(LastLine(written, other), default) == ValueOn(LastLine(lines, other), default)
            && FirstLine(written, other).Some? == FirstLine(lines, other).Some?
            && LastLine(written, other).Some? == LastLine(lines, other).Some?
  {
    hide RewriteLine, PlainKey, PlainValue, NewLine, Rewritten, FirstLine, LastLine, Found, WriterKey, Written;
    WrittenIs(lines, key, value);
    ReadingsOfRewritten(lines, key, value, other);
    NewLineReads(key, value);
    SnocFirst(Rewritten(lines, key, value), NewLine(key, value), other);
    if FirstLine(lines, other).Some? {
      RewriteReads(FirstLine(lines, other).value, key, value);
    }
    if LastLine(lines, other).Some? {
      RewriteReads(LastLine(lines, other).value, key, value);
    }
  }

  /** The rule engine's map holds the last reading of every non-empty key. */
  lemma {:induction false} ParseFlatIsLast(lines: seq<string>, key: string)
    ensures key in ParseFlat(lines) <==> key != "" && LastLine(lines, key).Some?
    ensures key in ParseFlat(lines) ==> ParseFlat(lines)[key] == ValueOn(LastLine(lines, key), "")
  {
    hide Field;
    if lines != [] {
      ParseFlatIsLast(lines[..|lines| - 1], key);
    }
  }

  // ---- Whole files ------------------------------------------------------------------------------------

  predicate CleanText(text: string) {
    forall i :: 0 <= i < |GetLines(text)| ==> CleanLine(GetLines(text)[i])
  }

  lemma GetLinesAreLines(text: string)
    ensures forall l :: l in GetLines(text) ==> IsLine(l)
  {
    PiecesAreLines(text);
  }

  lemma {:induction false} RewrittenAreLines(lines: seq<string>, key: string, value: string)
    requires forall l :: l in lines ==> IsLine(l)
    requires IsLine(key) && IsLine(value)
    ensures forall l :: l in Rewritten(lines, key, value) ==> IsLine(l)
  {
    hide WriterKey;
    if lines != [] {
      RewrittenAreLines(lines[..|lines| - 1], key, value);
    }
  }

  /** The written file has exactly the written lines. */
  lemma LinesOfWrittenText(text: string, key: string, value: string)
    requires IsLine(key) && IsLine(value)
    ensures GetLines(WriteText(text, key, value)) == Written(GetLines(text), key, value)
  {
    hide SplitLines, JoinLines, Rewritten, Found;
    var lines := Written(GetLines(text), key, value);
    GetLinesAreLines(text);
    RewrittenAreLines(GetLines(text), key, value);
    SplitOfLines(lines, "");
    assert JoinLines(lines) + "" == JoinLines(lines);
  }

  lemma {:induction false} CleanFirstIsNotStale(text: string, key: string)
    requires CleanText(text) && PlainKey(key)
    ensures var first := FirstLine(GetLines(text), key); first.Some? ==> !Stale(first.value, key)
    ensures var last := LastLine(GetLines(text), key); last.Some? ==> !Stale(last.value, key)
  {
    hide GetLines, Stale, CleanLine, PlainKey, Reads;
    GetLinesAreLines(text);
    ReadingsAreLines(GetLines(text), key);
    var first, last := FirstLine(GetLines(text), key), LastLine(GetLines(text), key);
    if first.Some? {
      CleanLineIsNotStale(first.value, key);
    }
    if last.Some? {
      CleanLineIsNotStale(last.value, key);
    }
  }

  lemma {:induction false} ReadingsAreLines(lines: seq<string>, key: string)
    ensures var first := FirstLine(lines, key); first.Some? ==> first.value in lines
    ensures var last := LastLine(lines, key); last.Some? ==> last.value in lines
  {
    hide Reads;
    if lines != [] {
      ReadingsAreLines(lines[..|lines| - 1], key);
    }
  }

  /**
   The exact effect of a write on any file: what either reader finds for the key, that nothing
   else they read changes, and that a second write meets the same obstacles.
   */
  lemma WriteEffect(text: string, key: string, value: string, default: string)
    requires PlainKey(key) && PlainValue(value)
    ensures var before, after := GetLines(text), GetLines(WriteText(text, key, value));
            && ValueOn(FirstLine(after, key), default)
               == (if FirstStuck(before, key) then ValueOn(FirstLine(before, key), default) else value)
            && ParseFlat(after)
               == ParseFlat(before)[key := if LastStuck(before, key) then ValueOn(LastLine(before, key), "") else value]
            && (forall k :: k != key ==>
                  ValueOn(FirstLine(after, k), default) == ValueOn(FirstLine(before, k), default))
            && FirstStuck(after, key) == FirstStuck(before, key) && LastStuck(after, key) == LastStuck(before, key)
  {
    hide GetLines, WriteText, Written, Stale, FirstLine, LastLine, ParseFlat, Field, FirstStuck, LastStuck;
    var before, after := GetLines(text), GetLines(WriteText(text, key, value));
    LinesOfWrittenText(text, key, value);
    FirstAfterWrite(before, key, value, default);
    LastAfterWrite(before, key, value, "");
    assert key != "";
    hide PlainKey, PlainValue, Reads, Found;
    forall k
      ensures k in ParseFlat(after) <==> k == key || k in ParseFlat(before)
      ensures k != key && k in ParseFlat(after) ==> ParseFlat(after)[k] == ParseFlat(before)[k]
      ensures k == key ==>
        ParseFlat(after)[k] == (if LastStuck(before, key) then ValueOn(LastLine(before, key), "") else value)
      ensures k != key ==> ValueOn(FirstLine(after, k), default) == ValueOn(FirstLine(before, k), default)
    {
      ParseFlatIsLast(before, k);
      ParseFlatIsLast(after, k);
      if k != key {
        OtherKeysKeepTheirValues(before, key, value, k, default);
        OtherKeysKeepTheirValues(before, key, value, k, "");
      }
    }
  }

  /** Some line of the key has no carriage return behind it. */
  predicate SomeLineIsReplaced(lines: seq<string>, key: string) {
    exists line :: line in lines && Reads(line, key) && !ReturnBehindKey(line)
  }

  lemma FoundIff(lines: seq<string>, key: string)
    requires PlainKey(key) && forall line :: line in lines ==> IsLine(line)
    ensures Found(lines, key) <==> SomeLineIsReplaced(lines, key)
  {
    hide WriterKey, ReturnBehindKey, PlainKey, Reads;
    forall line | line in lines
      ensures WriterKey(line) == Some(key) <==> Reads(line, key) && !ReturnBehindKey(line)
    {
      if Reads(line, key) {
        StaleIff(line, key);
      }
      if WriterKey(line) == Some(key) {
        WriterMatchIsRead(line, key);
      }
    }
  }

  /**
   When each reader returns the written value, as a condition on the characters of any file: the
   agent, unless its first line for the key has a carriage return behind the key; the rule engine,
   unless its last line has and some other line does not; and in any case where the value was
   there already.
   */
  lemma {:induction false} ReadBackIff(text: string, key: string, value: string, default: string)
    requires PlainKey(key) && PlainValue(value)
    ensures var before, after := GetLines(text), GetLines(WriteText(text, key, value));
            var first, last := FirstLine(before, key), LastLine(before, key);
            && (ValueOn(FirstLine(after, key), default) == value <==>
                  first.None? || !ReturnBehindKey(first.value) || ValueOn(first, default) == value)
            && key in ParseFlat(after)
            && (ParseFlat(after)[key] == value <==>
                  || last.None? || !ReturnBehindKey(last.value)
                  || !SomeLineIsReplaced(before, key) || ValueOn(last, "") == value)
  {
    hide GetLines, WriteText, Stale, FirstLine, LastLine, ParseFlat, Field, Found, ReturnBehindKey, SomeLineIsReplaced;
    var before := GetLines(text);
    var first, last := FirstLine(before, key), LastLine(before, key);
    WriteEffect(text, key, value, default);
    GetLinesAreLines(text);
    ReadingsAreLines(before, key);
    FoundIff(before, key);
    if first.Some? {
      StaleIff(first.value, key);
    }
    if last.Some? {
      StaleIff(last.value, key);
    }
  }

  /**
   So in a file with no carriage return before a colon, a write gives both readers the new value,
   however often the key occurred, and changes nothing else they read.
   */
  lemma WriteThenRead(text: string, key: string, value: string, default: string)
    requires CleanText(text) && PlainKey(key) && PlainValue(value)
    ensures var before, after := GetLines(text), GetLines(WriteText(text, key, value));
            && ValueOn(FirstLine(after, key), default) == value
            && ParseFlat(after) == ParseFlat(before)[key := value]
            && forall k :: k != key ==> ValueOn(FirstLine(after, k), default) == ValueOn(FirstLine(before, k), default)
  {
    hide GetLines, WriteText, Stale, CleanText, FirstLine, LastLine, ParseFlat, Field, Found;
    WriteEffect(text, key, value, default);
    CleanFirstIsNotStale(text, key);
  }

  lemma {:induction false} WriteKeepsClean(text: string, key: string, value: string)
    requires CleanText(text) && PlainKey(key) && PlainValue(value) && '\r' !in key
    ensures CleanText(WriteText(text, key, value))
  {
    hide GetLines, WriteText, CleanLine, PlainKey, NewLine, WriterKey, Rewritten, Found;
    PlainKeyIsLine(key);
    LinesOfWrittenText(text, key, value);
    RewrittenLength(GetLines(text), key, value);
    NewLineIsClean(key, value);
  }

  lemma NewLineIsClean(key: string, value: string)
    requires PlainKey(key) && '#' !in value && '\r' !in key
    ensures CleanLine(NewLine(key, value))
  {
    hide Find, CutComment, NewLine;
    ColonOfNewLine(key, value);
  }

  /** What makes a key or value plain, in terms of its ends. */
  lemma PlainWord(s: string)
    requires s != "" && !IsBlank(s[0]) && !IsFiller(s[|s| - 1])
    ensures ReaderTrim(s) == s
  {
    hide Span, End;
    SpanIs(s, IsBlank, 0);
    EndIs(s, IsFiller, |s|);
  }

  lemma {:induction false} RewriteTwice(lines: seq<string>, key: string, v1: string, v2: string)
    requires PlainKey(key) && '#' !in v1
    ensures Rewritten(Rewritten(lines, key, v1), key, v2) == Rewritten(lines, key, v2)
  {
    hide WriterKey, NewLine, PlainKey;
    if lines != [] {
      var n := |lines| - 1;
      RewriteTwice(lines[..n], key, v1, v2);
      NewLineIsFound(key, v1);
      var once := Rewritten(lines[..n], key, v1);
      assert (once + [RewriteLine(lines[n], key, v1)])[..|once|] == once;
    }
  }

  lemma {:induction false} RewriteFinds(lines: seq<string>, key: string, value: string)
    requires PlainKey(key) && '#' !in value
    ensures Found(Rewritten(lines, key, value), key) == Found(lines, key)
  {
    hide WriterKey, NewLine, PlainKey;
    RewrittenLength(lines, key, value);
    NewLineIsFound(key, value);
    var out := Rewritten(lines, key, value);
    if Found(lines, key) {
      var i :| 0 <= i < |lines| && WriterKey(lines[i]) == Some(key);
      assert WriterKey(out[i]) == Some(key);
    }
  }

  lemma NothingToRewrite(lines: seq<string>, key: string, value: string)
    requires !Found(lines, key)
    ensures Rewritten(lines, key, value) == lines
  {
    RewrittenLength(lines, key, value);
  }

  /** Only the last of several writes matters, so writing is idempotent. */
  lemma LastWriteWins(text: string, key: string, v1: string, v2: string)
    requires PlainKey(key) && '#' !in v1 && IsLine(v1)
    ensures WriteText(WriteText(text, key, v1), key, v2) == WriteText(text, key, v2)
  {
    hide WriterKey, PlainKey, GetLines, Rewritten, JoinLines, NewLine;
    var lines := GetLines(text);
    assert IsLine(key) by { PlainKeyIsLine(key); }
    LinesOfWrittenText(text, key, v1);
    WrittenTwice(lines, key, v1, v2);
  }

  lemma PlainKeyIsLine(key: string)
    requires PlainKey(key)
    ensures IsLine(key)
  {
  }

  lemma WrittenTwice(lines: seq<string>, key: string, v1: string, v2: string)
    requires PlainKey(key) && '#' !in v1
    ensures Written(Written(lines, key, v1), key, v2) == Written(lines, key, v2)
  {
    hide WriterKey, PlainKey, NewLine, RewriteLine, Written, Rewritten, Found;
    WrittenIs(lines, key, v1);
    WrittenIs(lines, key, v2);
    WrittenIs(Written(lines, key, v1), key, v2);
    RewriteTwice(lines, key, v1, v2);
    RewriteFinds(lines, key, v1);
    if !Found(lines, key) {
      NothingToRewrite(lines, key, v1);
      NothingToRewrite(lines, key, v2);
      RewriteOwnLine(lines, key, v1, v2);
    }
  }

  lemma RewriteOwnLine(lines: seq<string>, key: string, v1: string, v2: string)
    requires PlainKey(key) && '#' !in v1
    ensures var once := lines + [NewLine(key, v1)];
            && Found(once, key)
            && Rewritten(once, key, v2) == Rewritten(lines, key, v2) + [NewLine(key, v2)]
  {
    hide WriterKey, NewLine, PlainKey;
    var once := lines + [NewLine(key, v1)];
    NewLineIsFound(key, v1);
    assert once[..|lines|] == lines;
    assert WriterKey(once[|lines|]) == Some(key);
  }

  // ---- Carriage returns ---------------------------------------------------------------------------------

  lemma TrimsOfCarriageReturn(key: string)
    requires PlainKey(key)
    ensures ReaderTrim(key + "\r") == key && WriterTrim(key + "\r") == key + "\r"
  {
    hide Span, End;
    var k := key + "\r";
    TrimmedEnds(key);
    SpanIs(k, IsBlank, 0);
    EndIs(k, IsFiller, |key|);
    EndIs(k, IsBlank, |k|);
  }

  lemma ColonOfCarriageReturn(key: string, value: string)
    requires PlainKey(key) && '#' !in value
    ensures var k := key + "\r";
            var line := NewLine(k, value);
            && CutComment(line) == line && Find(line, ":") == Some(|k|)
            && line[..|k|] == k && line[|k| + 1..] == " " + value
  {
    hide Find, ReaderTrim;
    var k := key + "\r";
    var line := NewLine(k, value);
    assert line[..|k|] == k && line[|k| + 1..] == " " + value;
    FindNoChar(line, '#');
    FindChar(line, ':', |k|);
  }

  /** Every line `key CR ": " value` is stale: read, but not replaced. */
  lemma CarriageReturnHidesKey(key: string, value: string)
    requires PlainKey(key) && PlainValue(value)
    ensures var line := NewLine(key + "\r", value);
            Field(line) == Some((key, value)) && WriterKey(line) == Some(key + "\r")
  {
    hide Find, ReaderTrim, WriterTrim, CutComment, NewLine;
    TrimsOfCarriageReturn(key);
    ColonOfCarriageReturn(key, value);
    TrimOfSpaced(value);
  }

  /**
   A carriage return in front of the colon breaks the round trip: the write adds a line that only
   the rule engine sees, and the agent keeps reading the old value.
   */
  lemma {:induction false} WriteIsNotRead(key: string, old_: string, new_: string)
    requires PlainKey(key) && PlainValue(old_) && PlainValue(new_) && old_ != new_
    ensures var lines := Written([NewLine(key + "\r", old_)], key, new_);
            ValueOn(FirstLine(lines, key), "") == old_ && ValueOn(LastLine(lines, key), "") == new_
  {
    hide Field, WriterKey, PlainKey, PlainValue, NewLine, Written;
    var line := NewLine(key + "\r", old_);
    CarriageReturnHidesKey(key, old_);
    WrittenIs([line], key, new_);
    NothingToRewrite([line], key, new_);
    NewLineReads(key, new_);
    SnocFirst([], line, key);
    SnocFirst([line], NewLine(key, new_), key);
    assert [] + [line] == [line];
  }
}
