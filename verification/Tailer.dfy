/**
 The log tailer: bytes arrive in arbitrary reads and are handed on as lines; what has no
 newline yet is kept, and dropped when the file is rotated away.
 */
module Tailer {
  import opened Text
  import opened Lines

  // ---- The tailer -----------------------------------------------------------------------------

  function Concat(chunks: seq<string>): string {
    if chunks == [] then "" else Concat(chunks[..|chunks| - 1]) + chunks[|chunks| - 1]
  }

  /** What happens to the watched path: bytes can be read from it, or it is moved or deleted. */
  datatype Event = Bytes(chunk: string) | Rotated

  /** The bytes read from each file in turn, the last one being the file now open. */
  function FilesOf(events: seq<Event>): (files: seq<string>)
    ensures files != []
  {
    if events == [] then [""]
    else
      var before, n := FilesOf(events[..|events| - 1]), |events| - 1;
      match events[n]
      case Bytes(chunk) => before[|before| - 1 := before[|before| - 1] + chunk]
      case Rotated => before + [""]
  }

  function LinesOfFiles(files: seq<string>): seq<string> {
    if files == [] then [] else LinesOfFiles(files[..|files| - 1]) + SplitLines(files[|files| - 1]).lines
  }

  /** Where a newline is at or after `p`, none is before it. */
  lemma NextNewline(buf: string, p: nat)
    requires p <= |buf|
    ensures var nl := FindFrom(buf, [NEWLINE], p);
            && (nl.Some? ==> p <= nl.value < |buf| && buf[nl.value] == NEWLINE && IsLine(buf[p..nl.value]))
            && (nl.None? ==> IsLine(buf[p..]))
  {
    var nl := FindFrom(buf, [NEWLINE], p);
    if nl.Some? {
      assert buf[nl.value..nl.value + 1][0] == NEWLINE;
    }
    forall j | p <= j < (if nl.Some? then nl.value else |buf|)
      ensures buf[j] != NEWLINE
    {
      assert !At(buf, [NEWLINE], j);
      assert buf[j..j + 1] == [buf[j]];
    }
  }

  /** What the bytes from `p` on still add to the lines, given the text kept so far. */
  function Pending(partial: string, buf: string, p: nat): Split
    requires p <= |buf|
  {
    SplitLines(partial + buf[p..])
  }

  lemma PendingStep(partial: string, buf: string, p: nat)
    requires p <= |buf| && IsLine(partial)
    ensures var nl := FindFrom(buf, [NEWLINE], p);
            match nl
            case None =>
              && IsLine(partial + buf[p..])
              && Pending(partial + buf[p..], buf, |buf|) == Pending(partial, buf, p)
            case Some(i) =>
              && p <= i < |buf| && IsLine("")
              && Pending(partial, buf, p)
                 == var after := Pending("", buf, i + 1); Split([partial + buf[p..i]] + after.lines, after.rest)
  {
    hide FindFrom, SplitLines, IsLine;
    NextNewline(buf, p);
    LineAppend("", "");
    var nl := FindFrom(buf, [NEWLINE], p);
    if nl.None? {
      LineAppend(partial, buf[p..]);
      assert partial + buf[p..] + buf[|buf|..] == partial + buf[p..];
    } else {
      var i := nl.value;
      CutAt(partial, buf, p, i);
      LineAppend(partial, buf[p..i]);
      SplitFront(partial + buf[p..i], buf[i + 1..]);
    }
  }

  lemma LineAppend(a: string, b: string)
    ensures IsLine("")
    ensures IsLine(a) && IsLine(b) ==> IsLine(a + b)
  {
  }

  lemma CutAt(partial: string, buf: string, p: nat, i: nat)
    requires p <= i < |buf| && buf[i] == NEWLINE
    ensures partial + buf[p..] == (partial + buf[p..i]) + ([NEWLINE] + buf[i + 1..])
    ensures "" + buf[i + 1..] == buf[i + 1..]
  {
    assert buf[p..] == buf[p..i] + ([NEWLINE] + buf[i + 1..]);
  }

  class LogTailer {
    var partial: string
    // What the callback has been given so far.
    var delivered: seq<string>

    ghost predicate Valid()
      reads this
    {
      IsLine(partial)
    }

    constructor ()
      ensures Valid() && partial == "" && delivered == []
    {
      partial, delivered := "", [];
    }

    /** One `read`: a pointer walks the buffer from newline to newline. */
    method DrainBuffer(buf: string)
      requires Valid()
      modifies this
      ensures Valid()
      ensures delivered == old(delivered) + SplitLines(old(partial) + buf).lines
      ensures partial == SplitLines(old(partial) + buf).rest
    {
      hide FindFrom, SplitLines, IsLine;
      ghost var whole := SplitLines(partial + buf);
      var p := 0;
      assert buf[0..] == buf;
      while p < |buf|
        invariant p <= |buf| && IsLine(partial)
        invariant delivered + Pending(partial, buf, p).lines == old(delivered) + whole.lines
        invariant Pending(partial, buf, p).rest == whole.rest
      {
        PendingStep(partial, buf, p);
        var nl := FindFrom(buf, [NEWLINE], p);
        if nl.None? {
          partial := partial + buf[p..];
          p := |buf|;
          break;
        }
        var line := partial + buf[p..nl.value];
        ghost var after := Pending("", buf, nl.value + 1);
        assert delivered + ([line] + after.lines) == delivered + [line] + after.lines;
        delivered := delivered + [line];
        partial := "";
        p := nl.value + 1;
      }
      assert partial + buf[p..] == partial;
      OnlyRest(partial);
    }

    /** However the bytes are cut into reads, the same lines are delivered. */
    method Drain(chunks: seq<string>)
      requires Valid()
      modifies this
      ensures Valid()
      ensures delivered == old(delivered) + SplitLines(old(partial) + Concat(chunks)).lines
      ensures partial == SplitLines(old(partial) + Concat(chunks)).rest
    {
      hide SplitLines, IsLine;
      OnlyRest(partial);
      assert partial + Concat(chunks[..0]) == partial;
      for i := 0 to |chunks|
        invariant Valid()
        invariant delivered == old(delivered) + SplitLines(old(partial) + Concat(chunks[..i])).lines
        invariant partial == SplitLines(old(partial) + Concat(chunks[..i])).rest
      {
        ghost var soFar := old(partial) + Concat(chunks[..i]);
        assert soFar + chunks[i] == old(partial) + Concat(chunks[..i + 1]) by {
          assert chunks[..i + 1][..i] == chunks[..i];
        }
        SplitContinues(soFar, chunks[i]);
        DrainBuffer(chunks[i]);
      }
      assert chunks[..|chunks|] == chunks;
    }

    /** What is left of the old file without a newline is dropped. */
    method Rotate()
      modifies this
      ensures Valid() && partial == "" && delivered == old(delivered)
    {
      partial := "";
    }

    /** Over any number of reads and rotations, each delivered line is a line of one file. */
    method Follow(events: seq<Event>)
      requires partial == "" && delivered == []
      modifies this
      ensures var files := FilesOf(events);
              && delivered == LinesOfFiles(files)
              && partial == SplitLines(files[|files| - 1]).rest
    {
      for i := 0 to |events|
        invariant Valid()
        invariant delivered == LinesOfFiles(FilesOf(events[..i]))
        invariant partial == SplitLines(Last(FilesOf(events[..i]))).rest
      {
        assert events[..i + 1][..i] == events[..i];
        ghost var files := FilesOf(events[..i]);
        FollowStep(files, events[i]);
        hide SplitLines;
        match events[i]
        case Bytes(chunk) => DrainBuffer(chunk);
        case Rotated => Rotate();
      }
      assert events[..|events|] == events;
    }
  }

  function Last(files: seq<string>): string
    requires files != []
  {
    files[|files| - 1]
  }

  lemma FollowStep(files: seq<string>, e: Event)
    requires files != []
    ensures match e
            case Bytes(chunk) =>
              var more := SplitLines(SplitLines(Last(files)).rest + chunk);
              var after := files[|files| - 1 := Last(files) + chunk];
              && LinesOfFiles(after) == LinesOfFiles(files) + more.lines
              && SplitLines(Last(after)).rest == more.rest
            case Rotated =>
              && LinesOfFiles(files + [""]) == LinesOfFiles(files)
              && SplitLines(Last(files + [""])).rest == ""
  {
    match e
    case Bytes(chunk) =>
      var n := |files| - 1;
      SplitContinues(Last(files), chunk);
      assert files[n := Last(files) + chunk][..n] == files[..n];
      hide SplitLines;
      var x := LinesOfFiles(files[..n]);
      var a, b := SplitLines(Last(files)).lines, SplitLines(SplitLines(Last(files)).rest + chunk).lines;
      assert x + (a + b) == x + a + b;
    case Rotated =>
      assert (files + [""])[..|files|] == files;
      assert LinesOfFiles(files) + [] == LinesOfFiles(files);
  }

  /** No delivered line holds bytes of two files: each one is a line of a single file. */
  lemma {:induction false} LinesDoNotMix(files: seq<string>, line: string)
    requires line in LinesOfFiles(files)
    ensures exists f :: f in files && line in SplitLines(f).lines
  {
    var n := |files| - 1;
    if line in LinesOfFiles(files[..n]) {
      LinesDoNotMix(files[..n], line);
      var f :| f in files[..n] && line in SplitLines(f).lines;
      assert f in files;
    } else {
      assert files[n] in files && line in SplitLines(files[n]).lines;
    }
  }
}
