/**
 The flat configuration file as characters: what a line of each shape means to readers and
 writer, which lines the readers take, and what a write leaves of the file.
 */
module FlatYamlText {
  import opened Text
  import opened Lines
  import opened FlatYaml

  // ---- Trimming ---------------------------------------------------------------------------

  predicate AllOf(s: string, chars: string) {
    forall i :: 0 <= i < |s| ==> s[i] in chars
  }

  lemma BlankIs(c: char)
    ensures IsBlank(c) <==> c in " \t"
    ensures IsFiller(c) <==> c in " \t\r\n"
  {
  }

  lemma Blanks(s: string)
    ensures AllOf(s, " \t") <==> forall i :: 0 <= i < |s| ==> IsBlank(s[i])
    ensures AllOf(s, " \t\r\n") <==> forall i :: 0 <= i < |s| ==> IsFiller(s[i])
  {
    forall c: char
      ensures IsBlank(c) <==> c in " \t"
      ensures IsFiller(c) <==> c in " \t\r\n"
    {
      BlankIs(c);
    }
  }

  /** The ends that matter in `lead + core + tail`. */
  lemma Parts(lead: string, core: string, tail: string, s: string, p: char -> bool)
    requires s == lead + core + tail && core != "" && AllOf(lead, " \t")
    requires core[0] !in " \t" && !p(core[|core| - 1]) && forall i :: 0 <= i < |tail| ==> p(tail[i])
    ensures Span(s, IsBlank) == |lead| && End(s, p) == |lead| + |core|
    ensures s[|lead|..|lead| + |core|] == core && |lead| < |s|
  {
    Blanks(lead);
    BlankIs(core[0]);
    hide AllOf, IsBlank;
    SpanIs(s, IsBlank, |lead|);
    EndIs(s, p, |lead| + |core|);
  }

  /**
   What the readers make of a text: the part between the blanks in front and the blanks and line
   ends behind; nothing if there are only blanks; and of blanks followed by nothing but line ends
   and blanks, everything from the first line end on, unless it comes first.
   */
  lemma ReaderTrimIs(lead: string, core: string, tail: string)
    requires AllOf(lead, " \t") && AllOf(tail, " \t\r\n")
    ensures core != "" && core[0] !in " \t" && core[|core| - 1] !in " \t\r\n" ==>
              ReaderTrim(lead + core + tail) == core
    ensures ReaderTrim(lead) == ""
    ensures tail != "" && tail[0] in "\r\n" ==> ReaderTrim(lead + tail) == if lead == "" then "" else tail
  {
    Blanks(lead);
    Blanks(tail);
    if core != "" && core[0] !in " \t" && core[|core| - 1] !in " \t\r\n" {
      BlankIs(core[|core| - 1]);
      Parts(lead, core, tail, lead + core + tail, IsFiller);
    }
    hide Span, End, AllOf;
    SpanIs(lead, IsBlank, |lead|);
    if tail != "" && tail[0] in "\r\n" {
      SpanIs(lead + tail, IsBlank, |lead|);
      EndIs(lead + tail, IsFiller, 0);
    }
  }

  /** What the writer makes of a key: it leaves carriage returns, and a blank key, as they are. */
  lemma WriterTrimIs(lead: string, core: string, tail: string)
    requires AllOf(lead, " \t") && AllOf(tail, " \t")
    ensures core != "" && core[0] !in " \t" && core[|core| - 1] !in " \t" ==>
              WriterTrim(lead + core + tail) == core
    ensures WriterTrim(lead) == lead
  {
    Blanks(lead);
    Blanks(tail);
    if core != "" && core[0] !in " \t" && core[|core| - 1] !in " \t" {
      BlankIs(core[|core| - 1]);
      Parts(lead, core, tail, lead + core + tail, IsBlank);
    }
    hide Span, End, AllOf;
    SpanIs(lead, IsBlank, |lead|);
  }

  // ---- One line -----------------------------------------------------------------------------

  predicate Comment(s: string) {
    s == "" || s[0] == '#'
  }

  lemma CutIs(text: string, comment: string)
    requires '#' !in text && Comment(comment)
    ensures CutComment(text + comment) == text
  {
    hide Find;
    var line := text + comment;
    if comment == "" {
      assert line == text;
      FindNoChar(line, '#');
    } else {
      assert line[..|text|] == text;
      FindChar(line, '#', |text|);
    }
  }

  /**
   A line is a key, a colon, a value and perhaps a comment from the first `#` on: the readers trim
   key and value, the writer trims the key its own way.  Without a colon there is no field.
   */
  lemma LineIs(key: string, value: string, comment: string)
    requires ':' !in key && '#' !in key && '#' !in value && Comment(comment)
    ensures Field(key + ":" + value + comment) == Some((ReaderTrim(key), ReaderTrim(value)))
    ensures WriterKey(key + ":" + value + comment) == Some(WriterTrim(key))
    ensures Field(key + comment).None? && WriterKey(key + comment).None?
  {
    hide Find, ReaderTrim, WriterTrim, CutComment;
    var text := key + ":" + value;
    CutIs(text, comment);
    CutIs(key, comment);
    assert text[..|key|] == key && text[|key| + 1..] == value;
    FindChar(text, ':', |key|);
    FindNoChar(key, ':');
  }

  // ---- Which line -----------------------------------------------------------------------------

  /** The first reader takes the first line that carries the key. */
  lemma {:induction false} FirstLineIs(lines: seq<string>, key: string, i: nat)
    requires i < |lines| && Reads(lines[i], key) && forall j :: 0 <= j < i ==> !Reads(lines[j], key)
    ensures FirstLine(lines, key) == Some(lines[i])
  {
    hide Reads;
    var n := |lines| - 1;
    if i < n {
      FirstLineIs(lines[..n], key, i);
    } else {
      NoLineRead(lines[..n], key);
    }
  }

  /** The last reader takes the last one. */
  lemma {:induction false} LastLineIs(lines: seq<string>, key: string, i: nat)
    requires i < |lines| && Reads(lines[i], key) && forall j :: i < j < |lines| ==> !Reads(lines[j], key)
    ensures LastLine(lines, key) == Some(lines[i])
  {
    hide Reads;
    var n := |lines| - 1;
    if i < n {
      LastLineIs(lines[..n], key, i);
    }
  }

  lemma {:induction false} NoLineRead(lines: seq<string>, key: string)
    requires forall j :: 0 <= j < |lines| ==> !Reads(lines[j], key)
    ensures FirstLine(lines, key).None? && LastLine(lines, key).None?
  {
    hide Reads;
    if lines != [] {
      NoLineRead(lines[..|lines| - 1], key);
    }
  }

  /** The lines of a file are its text, cut at the newlines, whether or not the last one is ended. */
  lemma {:induction false} GetLinesBack(text: string)
    ensures forall l :: l in GetLines(text) ==> '\n' !in l
    ensures JoinLines(GetLines(text)) ==
            if text == "" || text[|text| - 1] == '\n' then text else text + "\n"
  {
    PiecesAreLines(text);
    JoinInvertsSplit(text);
    hide SplitLines, JoinLines;
    var split := SplitLines(text);
    if split.rest == "" {
      assert split.lines + [] == split.lines && JoinLines(split.lines) + "" == JoinLines(split.lines);
      EndsInNewline(split.lines);
    } else {
      JoinSnoc(split.lines, split.rest);
      assert text[|text| - 1] == split.rest[|split.rest| - 1];
    }
  }

  lemma EndsInNewline(lines: seq<string>)
    ensures var s := JoinLines(lines); s == "" || s[|s| - 1] == '\n'
  {
  }

  /**
   A write keeps every line that is not of the key, comments and blank lines included, where it was;
   puts the new line in the place of every line of the key; and appends it if there is none.
   */
  lemma {:induction false} WriteKeepsLines(text: string, key: string, value: string)
    requires '\n' !in key && '\n' !in value
    ensures var before, after := GetLines(text), GetLines(WriteText(text, key, value));
            var replaced := exists i :: 0 <= i < |before| && WriterKey(before[i]) == Some(key);
            && |after| == |before| + (if replaced then 0 else 1)
            && (forall i :: 0 <= i < |before| ==>
                  after[i] == if WriterKey(before[i]) == Some(key) then key + ": " + value else before[i])
            && (!replaced ==> after[|before|] == key + ": " + value)
  {
    hide GetLines, WriteText, Rewritten, WriterKey, NewLine;
    LinesOfWrittenText(text, key, value);
    RewrittenLength(GetLines(text), key, value);
    NewLineIs(key, value);
  }

  lemma NewLineIs(key: string, value: string)
    ensures NewLine(key, value) == key + ": " + value
  {
  }
}
