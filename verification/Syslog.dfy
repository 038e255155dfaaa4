/**
 The syslog line parser (RFC 3164, section 4.1): an optional priority, a timestamp
 without a year, a host, a process with an optional pid, and the message.
 */
module Syslog {
  import opened Text
  import opened Events
  import KvParser

  /** The time source: the current year and time, and the C library's `mktime`. */
  datatype Clock = Clock(year: int, now: int, makeTime: (int, int, int, int, int, int) -> int)

  const EMPTY_EVENT := LogEvent(0, "", "", 0, UNKNOWN_LEVEL, UNKNOWN_FORMAT, "", "", map[])

  // ---- Pieces -----------------------------------------------------------------------------

  /** A non-negative number, or -1. */
  function ParseInt(s: string): int {
    var v := FromChars(Trim(s));
    if v.Some? && v.value >= 0 then v.value else -1
  }

  const MONTHS := ["jan", "feb", "mar", "apr", "may", "jun", "jul", "aug", "sep", "oct", "nov", "dec"]

  function MonthIndex(lower: string, i: nat): int
    decreases 12 - i
  {
    if i >= 12 then -1 else if MONTHS[i] == lower then i else MonthIndex(lower, i + 1)
  }

  function MonthFromAbbr(abbr: string): int {
    if |abbr| != 3 then -1 else MonthIndex(LowerAll(abbr), 0)
  }

  function PriorityToLevel(pri: nat): LogLevel {
    [EMERG, ALERT, CRITICAL_LEVEL, ERROR, WARN, NOTICE, INFO, DEBUG][pri % 8]
  }

  /** The level's code counts down from 8 as the syslog severity counts up from 0. */
  lemma LevelCode(pri: nat)
    ensures PriorityToLevel(pri).Code() == 8 - pri % 8
  {
  }

  function SyslogTimestamp(ts: string, clock: Clock): Option<int>
    requires |ts| == 15
  {
    var mon, day := MonthFromAbbr(ts[..3]), ParseInt(ts[4..6]);
    var hour, min, sec := ParseInt(ts[7..9]), ParseInt(ts[10..12]), ParseInt(ts[13..15]);
    if mon < 0 || day <= 0 || hour < 0 || min < 0 || sec < 0 then None
    else
      var t := clock.makeTime(clock.year, mon, day, hour, min, sec);
      if t > clock.now + DAY then Some(clock.makeTime(clock.year - 1, mon, day, hour, min, sec)) else Some(t)
  }

  /** The optional `<priority>`: the rest of the line and the level, or nothing if it is not closed. */
  function TakePriority(line: string, ev: LogEvent): Option<(string, LogEvent)> {
    if line == "" || line[0] != '<' then Some((line, ev))
    else
      var close := Find(line, ">");
      if close.None? then None
      else
        assert At(line, ">", close.value) && line[close.value] == line[close.value..close.value + 1][0];
        var pri := ParseInt(line[1..close.value]);
        Some((line[close.value + 1..], if pri >= 0 then ev.(level := PriorityToLevel(pri)) else ev))
  }

  predicate TimestampShape(rest: string) {
    && |rest| >= 16
    && MonthFromAbbr(rest[..3]) >= 0
    && rest[3] == ' ' && rest[6] == ' ' && rest[9] == ':' && rest[12] == ':'
  }

  /** The position of the colon that ends the process field. */
  function ColonPosition(rest: string): Option<nat> {
    var pos := Find(rest, ": ");
    if pos.Some? then pos else RFind(rest, ":")
  }

  /** The process name, and the pid if one is given. */
  function TakeProcess(field: string, ev: LogEvent): LogEvent {
    var bracket := Find(field, "[");
    if bracket.None? then ev.(logSource := field)
    else
      var named := ev.(logSource := field[..bracket.value]);
      var close := FindFrom(field, "]", bracket.value);
      if close.None? then named
      else
        assert field[bracket.value..bracket.value + 1] != field[close.value..close.value + 1];
        var pid := ParseInt(field[bracket.value + 1..close.value]);
        if pid >= 0 then named.(pid := pid) else named
  }

  function WithMessage(ev: LogEvent, msg: string): LogEvent {
    ev.(message := msg, format := SYSLOG,
        level := if ev.level == UNKNOWN_LEVEL then INFO else ev.level,
        fields := KvParser.Scan(msg, ev.fields))
  }

  /** Process and message, and what follows from them. */
  function TakeBody(rest: string, ev: LogEvent): (bool, LogEvent) {
    var colon := ColonPosition(rest);
    if colon.None? then (false, ev)
    else
      var msg := if colon.value + 2 <= |rest| then rest[colon.value + 2..] else "";
      (true, WithMessage(TakeProcess(rest[..colon.value], ev), msg))
  }

  function TakeHost(rest: string, ev: LogEvent): (bool, LogEvent) {
    var blank := Find(rest, " ");
    var host := if blank.Some? then rest[..blank.value] else rest;
    if host == "" then (false, ev)
    else
      TakeBody(if blank.Some? then Ltrim(rest[blank.value + 1..]) else "", ev.(sourceHost := host))
  }

  /** `parse_syslog`: whether it matched, and the event, which a failed attempt may have touched. */
  function ParseSyslog(line: string, ev: LogEvent, clock: Clock): (bool, LogEvent) {
    var start := TakePriority(line, ev);
    if start.None? then (false, ev)
    else
      var (rest0, ev1) := start.value;
      var rest := Ltrim(rest0);
      if !TimestampShape(rest) then (false, ev1)
      else
        var time := SyslogTimestamp(rest[..15], clock);
        if time.None? then (false, ev1)
        else TakeHost(Ltrim(rest[15..]), ev1.(timestamp := time.value))
  }

  /** The public entry point, up to and including the syslog attempt. */
  function ParseLine(raw: string, clock: Clock): Option<LogEvent> {
    var line := Trim(raw);
    if line == "" then None
    else
      var (ok, ev) := ParseSyslog(line, EMPTY_EVENT.(rawLine := line), clock);
      if ok then Some(ev) else None
  }

  // ---- Printing -----------------------------------------------------------------------------

  datatype Line = Line(
    pri: Option<nat>,
    stamp: string,
    host: string,
    process: string,
    pid: Option<nat>,
    message: string)

  function RenderPriority(pri: Option<nat>): string {
    if pri.Some? then "<" + Decimal(pri.value) + ">" else ""
  }

  function RenderPid(pid: Option<nat>): string {
    if pid.Some? then "[" + Decimal(pid.value) + "]" else ""
  }

  function RenderBody(l: Line): string {
    l.process + RenderPid(l.pid) + ": " + l.message
  }

  function Render(l: Line): string {
    RenderPriority(l.pri) + (l.stamp + (" " + (l.host + (" " + RenderBody(l)))))
  }

  predicate NoSpace(s: string) {
    forall i :: 0 <= i < |s| ==> !IsSpace(s[i])
  }

  predicate WellShaped(l: Line, clock: Clock) {
    && (l.pri.Some? ==> l.pri.value <= INT_MAX)
    && |l.stamp| == 15 && TimestampShape(l.stamp + " ") && SyslogTimestamp(l.stamp, clock).Some?
    && l.host != "" && NoSpace(l.host)
    && (l.process != "" ==> !IsSpace(l.process[0])) && '[' !in l.process && Find(l.process, ": ").None?
    && (l.pid.Some? ==> l.pid.value <= INT_MAX)
    && (l.message != "" ==> !IsSpace(l.message[|l.message| - 1]))
  }

  /** The event the line was printed from. */
  function EventOf(l: Line, clock: Clock): LogEvent
    requires WellShaped(l, clock)
  {
    LogEvent(
      SyslogTimestamp(l.stamp, clock).value, l.host, l.process,
      if l.pid.Some? then l.pid.value else 0,
      if l.pri.Some? then PriorityToLevel(l.pri.value) else INFO,
      SYSLOG, Trim(Render(l)), l.message, KvParser.Scan(l.message, map[]))
  }

  // ---- Reading the pieces back ---------------------------------------------------------------

  predicate Solid(s: string) {
    s == "" || !IsSpace(s[0])
  }

  lemma LtrimSolid(s: string)
    requires Solid(s)
    ensures Ltrim(s) == s && Ltrim(" " + s) == s
  {
    SpanConcat(" ", s, IsSpace);
    assert (" " + s)[1..] == s;
  }

  lemma RtrimSolid(s: string)
    requires s != "" && !IsSpace(s[|s| - 1])
    ensures Rtrim(s) == s && Rtrim(s + " ") == s
  {
    assert (s + " ")[..|s|] == s;
  }

  /** The first `c` of `a + c + b` is right behind `a` if `a` has none. */
  lemma FindChar(a: string, c: char, b: string)
    requires c !in a
    ensures Find(a + ([c] + b), [c]) == Some(|a|)
  {
    var s := a + ([c] + b);
    assert s[|a|] == c;
    assert forall j :: 0 <= j < |a| ==> s[j] == a[j];
    hide FindFrom;
    FindCharAt(s, c, 0, |a|);
  }

  lemma ParseIntDecimal(n: nat)
    requires n <= INT_MAX
    ensures ParseInt(Decimal(n)) == n
  {
    var d := Decimal(n);
    assert IsDigit(d[0]) && IsDigit(d[|d| - 1]);
    LtrimSolid(d);
    RtrimSolid(d);
    FromCharsDecimal(n, "");
    assert d + "" == d;
  }

  lemma DigitsHold(n: nat, c: char)
    requires !IsDigit(c)
    ensures c !in Decimal(n)
  {
    var d := Decimal(n);
    assert forall i :: 0 <= i < |d| ==> IsDigit(d[i]);
  }

  lemma PriorityBack(pri: nat, rest: string, ev: LogEvent)
    requires pri <= INT_MAX
    ensures TakePriority("<" + Decimal(pri) + ">" + rest, ev) == Some((rest, ev.(level := PriorityToLevel(pri))))
  {
    hide Decimal, PriorityToLevel, ParseInt;
    var d := Decimal(pri);
    var line := "<" + d + ">" + rest;
    DigitsHold(pri, '>');
    assert line == ("<" + d) + (['>'] + rest);
    FindChar("<" + d, '>', rest);
    assert line[1..1 + |d|] == d && line[1 + |d| + 1..] == rest;
    ParseIntDecimal(pri);
  }

  lemma PidBack(process: string, pid: nat, ev: LogEvent)
    requires '[' !in process && pid <= INT_MAX
    ensures TakeProcess(process + ("[" + Decimal(pid) + "]"), ev) == ev.(logSource := process, pid := pid)
  {
    hide Decimal, ParseInt, Find;
    var d := Decimal(pid);
    var field := process + ("[" + d + "]");
    DigitsHold(pid, ']');
    assert field == process + (['['] + (d + "]"));
    FindChar(process, '[', d + "]");
    var open, close := |process|, |process| + 1 + |d|;
    assert field[close] == ']' && field[open] == '[';
    assert forall j :: open < j < close ==> field[j] == d[j - open - 1];
    FindCharAt(field, ']', open, close);
    hide FindFrom;
    assert field[..open] == process && field[open + 1..close] == d;
    ParseIntDecimal(pid);
  }

  lemma NameBack(process: string, ev: LogEvent)
    requires '[' !in process
    ensures TakeProcess(process, ev) == ev.(logSource := process)
  {
    FindNoChar(process, '[');
  }

  /** The body without the blank that trimming takes from an empty message. */
  function TrimmedBody(l: Line): string {
    l.process + RenderPid(l.pid) + ":" + if l.message == "" then "" else " " + l.message
  }

  lemma NoColonBlank(l: Line, j: int)
    requires '[' !in l.process && Find(l.process, ": ").None?
    ensures !At(l.process + RenderPid(l.pid) + ":", ": ", j)
  {
    hide Decimal;
    var q := RenderPid(l.pid) + ":";
    var p := l.process + RenderPid(l.pid) + ":";
    assert p == l.process + q;
    assert ' ' !in q by {
      if l.pid.Some? {
        DigitsHold(l.pid.value, ' ');
      }
    }
    if 0 <= j && j + 2 <= |p| {
      assert p[j..j + 2][1] == p[j + 1];
      if j + 2 <= |l.process| {
        assert p[j..j + 2] == l.process[j..j + 2];
        assert !At(l.process, ": ", j);
      } else {
        assert p[j + 1] == q[j + 1 - |l.process|];
      }
    }
  }

  // ---- The inverse ----------------------------------------------------------------------------

  lemma BodyColon(l: Line)
    requires '[' !in l.process && Find(l.process, ": ").None?
    ensures ColonPosition(TrimmedBody(l)) == Some(|l.process + RenderPid(l.pid)|)
  {
    hide RenderPid;
    var p := l.process + RenderPid(l.pid);
    var body := TrimmedBody(l);
    forall j
      ensures !At(p + ":", ": ", j)
    {
      NoColonBlank(l, j);
    }
    if l.message == "" {
      assert body == p + ":";
      AtChar(body, ':', |p|);
      assert forall j :: j > |p| ==> !At(body, ":", j);
    } else {
      assert body == (p + ": ") + l.message;
      assert body[|p|..|p| + 2] == ": ";
      forall j | 0 <= j < |p|
        ensures !At(body, ": ", j)
      {
        assert !At(p + ":", ": ", j);
        assert body[j..j + 2] == (p + ":")[j..j + 2];
      }
      FindIs(body, ": ", |p|);
    }
  }

  lemma ProcessBack(l: Line, ev: LogEvent)
    requires '[' !in l.process && (l.pid.Some? ==> l.pid.value <= INT_MAX)
    ensures TakeProcess(l.process + RenderPid(l.pid), ev)
         == ev.(logSource := l.process, pid := if l.pid.Some? then l.pid.value else ev.pid)
  {
    if l.pid.Some? {
      PidBack(l.process, l.pid.value, ev);
      assert "[" + Decimal(l.pid.value) + "]" == RenderPid(l.pid);
    } else {
      NameBack(l.process, ev);
      assert l.process + "" == l.process;
    }
  }

  lemma BodyBack(l: Line, clock: Clock, ev: LogEvent)
    requires WellShaped(l, clock)
    ensures TakeBody(TrimmedBody(l), ev)
         == (true, WithMessage(
                     ev.(logSource := l.process, pid := if l.pid.Some? then l.pid.value else ev.pid), l.message))
  {
    hide RenderPid, TrimmedBody, ColonPosition, TakeProcess, WithMessage, Find, SyslogTimestamp, TimestampShape,
         Decimal;
    BodyColon(l);
    ProcessBack(l, ev);
    BodySlices(l);
    hide WellShaped;
  }

  lemma BodySlices(l: Line)
    ensures var p, body := l.process + RenderPid(l.pid), TrimmedBody(l);
            && |p| <= |body| && body[..|p|] == p
            && (if |p| + 2 <= |body| then body[|p| + 2..] else "") == l.message
  {
    hide RenderPid;
    var p := l.process + RenderPid(l.pid);
    if l.message != "" {
      assert TrimmedBody(l) == p + (": " + l.message);
    }
  }

  lemma SolidBody(l: Line, clock: Clock)
    requires WellShaped(l, clock)
    ensures Solid(TrimmedBody(l)) && TrimmedBody(l) != ""
  {
    hide SyslogTimestamp, TimestampShape, Decimal, Find;
    var body := TrimmedBody(l);
    if l.process != "" {
      assert body[0] == l.process[0];
    } else if l.pid.Some? {
      assert body[0] == '[';
    }
  }

  lemma HostBack(l: Line, clock: Clock, ev: LogEvent)
    requires WellShaped(l, clock)
    ensures TakeHost(l.host + (" " + TrimmedBody(l)), ev) == TakeBody(TrimmedBody(l), ev.(sourceHost := l.host))
  {
    SolidBody(l, clock);
    assert ' ' !in l.host by {
      assert IsSpace(' ');
    }
    hide TakeBody, TrimmedBody, WellShaped;
    var body := TrimmedBody(l);
    var rest := l.host + (" " + body);
    FindChar(l.host, ' ', body);
    LtrimSolid(body);
    assert rest[..|l.host|] == l.host && rest[|l.host| + 1..] == body;
  }

  lemma MonthStartsWithLetter(abbr: string)
    requires MonthFromAbbr(abbr) >= 0
    ensures |abbr| == 3 && !IsSpace(abbr[0]) && abbr[0] != '<'
  {
    MonthMatches(LowerAll(abbr), 0);
    assert LowerAll(abbr)[0] == Lower(abbr[0]);
  }

  lemma MonthMatches(lower: string, i: nat)
    requires MonthIndex(lower, i) >= 0
    ensures lower != "" && IsAlpha(lower[0])
    decreases 12 - i
  {
    if i < 12 && MONTHS[i] != lower {
      MonthMatches(lower, i + 1);
    }
  }

  /** The line from the timestamp on. */
  function AfterPriority(l: Line): string {
    l.stamp + (" " + (l.host + (" " + TrimmedBody(l))))
  }

  lemma StampBack(l: Line, clock: Clock)
    requires WellShaped(l, clock)
    ensures var rest := AfterPriority(l);
            && rest != "" && rest[0] != '<' && Ltrim(rest) == rest && TimestampShape(rest)
            && rest[..15] == l.stamp && Ltrim(rest[15..]) == l.host + (" " + TrimmedBody(l))
  {
    var rest := AfterPriority(l);
    var tail := l.host + (" " + TrimmedBody(l));
    assert Solid(tail) by {
      assert tail[0] == l.host[0];
    }
    assert rest[..15] == l.stamp && rest[15..] == " " + tail;
    assert rest[..3] == (l.stamp + " ")[..3] && rest[..15] == (l.stamp + " ")[..15];
    MonthStartsWithLetter(rest[..3]);
    hide TrimmedBody, SyslogTimestamp, Find, MonthFromAbbr;
    LtrimSolid(tail);
    LtrimSolid(rest);
    assert forall i :: 0 <= i < 15 ==> rest[i] == (l.stamp + " ")[i];
  }

  function WithPriority(pri: Option<nat>, ev: LogEvent): LogEvent {
    if pri.Some? then ev.(level := PriorityToLevel(pri.value)) else ev
  }

  lemma PriorityStep(l: Line, clock: Clock, ev: LogEvent)
    requires WellShaped(l, clock)
    ensures TakePriority(RenderPriority(l.pri) + AfterPriority(l), ev)
         == Some((AfterPriority(l), WithPriority(l.pri, ev)))
  {
    StampBack(l, clock);
    hide AfterPriority, TimestampShape, PriorityToLevel, ParseInt;
    var rest := AfterPriority(l);
    if l.pri.Some? {
      PriorityBack(l.pri.value, rest, ev);
      assert "<" + Decimal(l.pri.value) + ">" + rest == RenderPriority(l.pri) + rest;
    } else {
      assert "" + rest == rest;
    }
  }

  /** The fields that a line sets, one after the other. */
  lemma EventPieces(l: Line, clock: Clock, ev: LogEvent)
    requires WellShaped(l, clock)
    requires ev.level == UNKNOWN_LEVEL && ev.pid == 0 && ev.fields == map[]
    ensures var time := SyslogTimestamp(l.stamp, clock).value;
            var ev1 := WithPriority(l.pri, ev).(timestamp := time, sourceHost := l.host);
            WithMessage(ev1.(logSource := l.process, pid := if l.pid.Some? then l.pid.value else ev1.pid), l.message)
            == EventOf(l, clock).(rawLine := ev.rawLine)
  {
    hide WellShaped, Trim, Render, SyslogTimestamp, KvParser.Scan;
    if l.pri.Some? {
      LevelCode(l.pri.value);
    }
    hide PriorityToLevel;
  }

  /** The parser applied to a line printed without trailing blank. */
  lemma SyslogBack(l: Line, clock: Clock, ev: LogEvent)
    requires WellShaped(l, clock)
    requires ev.level == UNKNOWN_LEVEL && ev.pid == 0 && ev.fields == map[]
    ensures ParseSyslog(RenderPriority(l.pri) + AfterPriority(l), ev, clock)
         == (true, EventOf(l, clock).(rawLine := ev.rawLine))
  {
    PriorityStep(l, clock, ev);
    StampBack(l, clock);
    var ev2 := WithPriority(l.pri, ev).(timestamp := SyslogTimestamp(l.stamp, clock).value);
    HostBack(l, clock, ev2);
    BodyBack(l, clock, ev2.(sourceHost := l.host));
    EventPieces(l, clock, ev);
    hide TakePriority, RenderPriority, AfterPriority, TimestampShape, SyslogTimestamp, TakeHost, TakeBody,
         WellShaped, TrimmedBody, WithMessage, WithPriority, EventOf, Ltrim;
  }

  lemma BodyEnd(l: Line)
    requires l.message != "" ==> !IsSpace(l.message[|l.message| - 1])
    ensures TrimmedBody(l) != "" && !IsSpace(TrimmedBody(l)[|TrimmedBody(l)| - 1])
  {
    hide RenderPid;
    var body := TrimmedBody(l);
    if l.message != "" {
      assert body[|body| - 1] == l.message[|l.message| - 1];
    }
  }

  lemma LineForms(l: Line)
    requires TrimmedBody(l) != ""
    ensures var line, body := RenderPriority(l.pri) + AfterPriority(l), TrimmedBody(l);
            && Render(l) == (if l.message == "" then line + " " else line)
            && line != "" && line[|line| - 1] == body[|body| - 1]
  {
    RenderedBody(l);
    hide RenderBody, TrimmedBody, RenderPriority;
  }

  lemma LineStart(l: Line, clock: Clock)
    requires WellShaped(l, clock)
    ensures Solid(RenderPriority(l.pri) + AfterPriority(l)) && Solid(RenderPriority(l.pri) + AfterPriority(l) + " ")
  {
    StampBack(l, clock);
    hide AfterPriority, TimestampShape, SyslogTimestamp, WellShaped;
    var rest := AfterPriority(l);
    assert !IsSpace(rest[0]);
    if l.pri.Some? {
      assert (RenderPriority(l.pri) + rest)[0] == '<';
    } else {
      assert (RenderPriority(l.pri) + rest)[0] == rest[0];
    }
  }

  /** Trimming takes nothing but the blank behind the colon of an empty message. */
  lemma TrimRendered(l: Line, clock: Clock)
    requires WellShaped(l, clock)
    ensures Trim(Render(l)) == RenderPriority(l.pri) + AfterPriority(l)
    ensures Trim(Render(l)) != ""
  {
    hide *;
    BodyEndOf(l, clock);
    LineForms(l);
    LineStart(l, clock);
    TrimSolid(RenderPriority(l.pri) + AfterPriority(l));
  }

  lemma BodyEndOf(l: Line, clock: Clock)
    requires WellShaped(l, clock)
    ensures TrimmedBody(l) != "" && !IsSpace(TrimmedBody(l)[|TrimmedBody(l)| - 1])
  {
    BodyEnd(l);
  }

  lemma TrimSolid(line: string)
    requires line != "" && Solid(line) && Solid(line + " ") && !IsSpace(line[|line| - 1])
    ensures Trim(line) == line && Trim(line + " ") == line
  {
    hide Ltrim, Rtrim, IsSpace;
    LtrimSolid(line);
    LtrimSolid(line + " ");
    RtrimSolid(line);
  }

  lemma RenderedBody(l: Line)
    ensures RenderBody(l) == if l.message == "" then TrimmedBody(l) + " " else TrimmedBody(l)
  {
    hide RenderPid;
  }

  /**
   Printing a well-shaped line and parsing it gives back its host, process, pid and
   message, the level of its priority, and the key-value pairs of its message.
   */
  lemma {:induction false} ParseInvertsRender(l: Line, clock: Clock)
    requires WellShaped(l, clock)
    ensures ParseLine(Render(l), clock) == Some(EventOf(l, clock))
    ensures l.pri.Some? ==> ParseLine(Render(l), clock).value.level.Code() == 8 - l.pri.value % 8
  {
    if l.pri.Some? {
      LevelCode(l.pri.value);
    }
    TrimRendered(l, clock);
    var line := Trim(Render(l));
    SyslogBack(l, clock, EMPTY_EVENT.(rawLine := line));
    hide ParseSyslog, Trim, Render, RenderPriority, AfterPriority, WellShaped, SyslogTimestamp, PriorityToLevel,
         KvParser.Scan;
  }
}
