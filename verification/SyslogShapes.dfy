/**
 Exactly which lines the syslog parser accepts, and what it makes of them, in terms of the pieces
 of the line: well formed or not, every line is one of these.
 */
module SyslogShapes {
  import opened Text
  import opened Events
  import opened Syslog
  import opened SyslogStamps
  import KvParser

  // ---- The timestamp ------------------------------------------------------------------------

  predicate Number(s: string, n: nat) {
    FromChars(Trim(s)) == Some(n)
  }

  lemma NumberIff(s: string, n: nat)
    ensures Number(s, n) <==> ParseInt(s) == n
  {
    hide FromChars, Trim;
  }

  /** The fifteen characters name this moment. */
  predicate StampReads(stamp: string, t: Moment) {
    && |stamp| == 15 && t.month < 12 && LowerAll(stamp[..3]) == LowerAll(NAMES[t.month])
    && stamp[3] == ' ' && stamp[6] == ' ' && stamp[9] == ':' && stamp[12] == ':'
    && Number(stamp[4..6], t.day) && t.day > 0
    && Number(stamp[7..9], t.hour) && Number(stamp[10..12], t.minute) && Number(stamp[13..15], t.second)
  }

  lemma {:induction false} MonthIndexFound(lower: string, i: nat)
    ensures var j := MonthIndex(lower, i); j >= 0 ==> i <= j < 12 && MONTHS[j] == lower
    decreases 12 - i
  {
    if i < 12 && MONTHS[i] != lower {
      MonthIndexFound(lower, i + 1);
    }
  }

  lemma MonthIff(abbr: string, j: nat)
    requires j < 12
    ensures MonthFromAbbr(abbr) == j <==> LowerAll(abbr) == LowerAll(NAMES[j])
  {
    LowerName(j);
    MonthIndexFound(LowerAll(abbr), 0);
    MonthIndexIs(0, j);
    hide LowerAll, MonthIndex;
  }

  lemma MonthRange(abbr: string)
    ensures MonthFromAbbr(abbr) < 12
  {
    MonthIndexFound(LowerAll(abbr), 0);
    hide LowerAll, MonthIndex;
  }

  /** The parser's tests of the timestamp, on the fifteen characters themselves. */
  predicate StampPasses(stamp: string, clock: Clock) {
    && |stamp| == 15 && MonthFromAbbr(stamp[..3]) >= 0
    && stamp[3] == ' ' && stamp[6] == ' ' && stamp[9] == ':' && stamp[12] == ':'
    && SyslogTimestamp(stamp, clock).Some?
  }

  lemma StampReadsMeans(stamp: string, t: Moment, clock: Clock)
    requires StampReads(stamp, t)
    ensures StampPasses(stamp, clock) && SyslogTimestamp(stamp, clock) == Some(Meant(t, clock))
  {
    MonthIff(stamp[..3], t.month);
    NumberIff(stamp[4..6], t.day);
    NumberIff(stamp[7..9], t.hour);
    NumberIff(stamp[10..12], t.minute);
    NumberIff(stamp[13..15], t.second);
    hide MonthFromAbbr, ParseInt, Number, LowerAll, Meant, SyslogTimestamp;
    TimeOfFields(stamp, t, clock);
  }

  ghost predicate NamesMoment(stamp: string) {
    exists t :: StampReads(stamp, t)
  }

  lemma MomentIff(stamp: string, clock: Clock)
    ensures NamesMoment(stamp) <==> StampPasses(stamp, clock)
  {
    hide StampReads, StampPasses;
    if t :| StampReads(stamp, t) {
      StampReadsMeans(stamp, t, clock);
    }
    if StampPasses(stamp, clock) {
      var t := PassingStampReads(stamp, clock);
    }
  }

  function MomentOf(stamp: string): Moment
    requires |stamp| == 15
    requires MonthFromAbbr(stamp[..3]) >= 0 && ParseInt(stamp[4..6]) >= 0
    requires ParseInt(stamp[7..9]) >= 0 && ParseInt(stamp[10..12]) >= 0 && ParseInt(stamp[13..15]) >= 0
  {
    Moment(MonthFromAbbr(stamp[..3]), ParseInt(stamp[4..6]), ParseInt(stamp[7..9]), ParseInt(stamp[10..12]),
           ParseInt(stamp[13..15]))
  }

  lemma PassingStampReads(stamp: string, clock: Clock) returns (t: Moment)
    requires StampPasses(stamp, clock)
    ensures StampReads(stamp, t)
  {
    hide MonthFromAbbr, ParseInt, Number, LowerAll;
    t := MomentOf(stamp);
    MonthRange(stamp[..3]);
    MonthIff(stamp[..3], t.month);
    NumberIff(stamp[4..6], t.day);
    NumberIff(stamp[7..9], t.hour);
    NumberIff(stamp[10..12], t.minute);
    NumberIff(stamp[13..15], t.second);
  }

  // ---- The body -------------------------------------------------------------------------------

  /**
   Where the process ends: at the first colon before a blank, or, if there is none, at the last
   colon.
   */
  ghost predicate ColonAt(body: string, i: nat) {
    if exists j :: At(body, ": ", j) then At(body, ": ", i) && forall j :: j < i ==> !At(body, ": ", j)
    else At(body, ":", i) && forall j :: i < j ==> !At(body, ":", j)
  }

  lemma ColonIff(body: string, i: nat)
    ensures ColonAt(body, i) <==> ColonPosition(body) == Some(i)
  {
    var first, last := FindFrom(body, ": ", 0), RFindUpTo(body, ":", |body| + 1);
    hide FindFrom, RFindUpTo;
    assert forall j :: At(body, ":", j) ==> j < |body| + 1;
    assert forall j :: At(body, ": ", j) ==> 0 <= j;
    hide At;
  }

  lemma HasColon(body: string)
    ensures ColonPosition(body).Some? <==> ':' in body
  {
    var first, last := FindFrom(body, ": ", 0), RFindUpTo(body, ":", |body| + 1);
    forall j
      ensures At(body, ":", j) <==> 0 <= j < |body| && body[j] == ':'
    {
      AtChar(body, ':', j);
    }
    if first.Some? {
      assert body[first.value..first.value + 2][0] == body[first.value];
    }
    hide FindFrom, RFindUpTo, At;
  }

  /** The message begins two characters behind the colon, whatever the first of them is. */
  function MessageBehind(body: string, i: nat): string {
    if i + 2 <= |body| then body[i + 2..] else ""
  }

  /** Name and pid: up to the first bracket, and between it and the next closing one. */
  ghost predicate ProcessIs(field: string, name: string, pid: Option<nat>) {
    if '[' !in field then name == field && pid.None?
    else
      && '[' !in name && name + "[" <= field
      && var inside := field[|name| + 1..];
         if ']' !in inside then pid.None?
         else exists text :: ']' !in text && text + "]" <= inside
                             && pid == if ParseInt(text) >= 0 then Some(ParseInt(text)) else None
  }

  lemma PrefixPieces(a: string, c: char, s: string)
    requires a + [c] <= s
    ensures |a| < |s| && s[..|a|] == a && s[|a|] == c && s == a + ([c] + s[|a| + 1..])
  {
  }

  lemma OpenBracket(field: string, name: string)
    requires '[' !in name && name + "[" <= field
    ensures |name| < |field| && field[..|name|] == name && field[|name|] == '['
    ensures Find(field, "[") == Some(|name|)
  {
    PrefixPieces(name, '[', field);
    FindChar(name, '[', field[|name| + 1..]);
  }

  lemma CloseBracket(field: string, b: nat, text: string)
    requires b < |field| && field[b] == '[' && ']' !in text && text + "]" <= field[b + 1..]
    ensures FindFrom(field, "]", b) == Some(b + 1 + |text|)
    ensures b + 1 + |text| < |field| && field[b + 1..b + 1 + |text|] == text
  {
    hide FindFrom;
    var inside := field[b + 1..];
    PrefixPieces(text, ']', inside);
    assert forall j :: b < j < b + 1 + |text| ==> field[j] == text[j - b - 1];
    assert field[b + 1 + |text|] == inside[|text|];
    FindCharAt(field, ']', b, b + 1 + |text|);
  }

  lemma ProcessReads(field: string, name: string, pid: Option<nat>, ev: LogEvent)
    requires ProcessIs(field, name, pid)
    ensures TakeProcess(field, ev) == ev.(logSource := name, pid := if pid.Some? then pid.value else ev.pid)
  {
    hide ParseInt, Find, FindFrom, At;
    if '[' !in field {
      FindNoChar(field, '[');
    } else {
      OpenBracket(field, name);
      var inside := field[|name| + 1..];
      if ']' !in inside {
        NoneBehind(field, ']', |name|);
      } else {
        var text :| ']' !in text && text + "]" <= inside
          && pid == if ParseInt(text) >= 0 then Some(ParseInt(text)) else None;
        CloseBracket(field, |name|, text);
      }
    }
  }

  lemma NoneBehind(s: string, c: char, i: nat)
    requires i < |s| && s[i] != c && c !in s[i + 1..]
    ensures FindFrom(s, [c], i).None?
  {
    assert forall j :: i < j < |s| ==> s[j] == s[i + 1..][j - i - 1];
    forall j | i <= j
      ensures !At(s, [c], j)
    {
      AtChar(s, c, j);
    }
    hide At;
  }

  // ---- The line ---------------------------------------------------------------------------------

  predicate AllSpace(s: string) {
    forall i :: 0 <= i < |s| ==> s[i] in " \t\n\r\U{0B}\U{0C}"
  }

  lemma SpaceIs(c: char)
    ensures IsSpace(c) <==> c in " \t\n\r\U{0B}\U{0C}"
  {
  }

  lemma AllSpaceIff(s: string)
    ensures AllSpace(s) <==> forall i :: 0 <= i < |s| ==> IsSpace(s[i])
  {
    forall c: char
      ensures IsSpace(c) <==> c in " \t\n\r\U{0B}\U{0C}"
    {
      SpaceIs(c);
    }
  }

  /** The line as its pieces, each as the parser cuts it. */
  datatype Pieces = Pieces(pri: Option<string>, lead: string, stamp: string, gap: string, host: string, after: string)

  function Whole(p: Pieces): string {
    (if p.pri.Some? then "<" + p.pri.value + ">" else "") + (p.lead + (p.stamp + (p.gap + (p.host + p.after))))
  }

  /** What the host's end leaves: the blanks behind it and the body. */
  function BodyOf(p: Pieces): string {
    if p.after == "" then "" else Ltrim(p.after[1..])
  }

  ghost predicate Cut(p: Pieces) {
    && (if p.pri.Some? then '>' !in p.pri.value else Whole(p) != "" && Whole(p)[0] != '<')
    && AllSpace(p.lead) && AllSpace(p.gap)
    && NamesMoment(p.stamp)
    && p.host != "" && ' ' !in p.host && !AllSpace(p.host[..1])
    && (p.after == "" || p.after[0] == ' ')
    && ':' in BodyOf(p)
  }

  function Started(p: Pieces, ev: LogEvent): LogEvent {
    if p.pri.Some? && ParseInt(p.pri.value) >= 0 then ev.(level := PriorityToLevel(ParseInt(p.pri.value))) else ev
  }

  lemma PriorityPiece(pri: Option<string>, rest: string, ev: LogEvent)
    requires if pri.Some? then '>' !in pri.value else rest != "" && rest[0] != '<'
    ensures var line := (if pri.Some? then "<" + pri.value + ">" else "") + rest;
            TakePriority(line, ev) == Some((rest, if pri.Some? && ParseInt(pri.value) >= 0
                                                  then ev.(level := PriorityToLevel(ParseInt(pri.value))) else ev))
  {
    hide ParseInt, PriorityToLevel;
    if pri.Some? {
      var line := "<" + pri.value + ">" + rest;
      assert line == ("<" + pri.value) + (['>'] + rest);
      FindChar("<" + pri.value, '>', rest);
      assert line[1..1 + |pri.value|] == pri.value && line[1 + |pri.value| + 1..] == rest;
    } else {
      assert "" + rest == rest;
    }
  }

  lemma LtrimPiece(lead: string, rest: string)
    requires AllSpace(lead) && (rest == "" || !AllSpace(rest[..1]))
    ensures Ltrim(lead + rest) == rest
  {
    AllSpaceIff(lead);
    if rest != "" {
      AllSpaceIff(rest[..1]);
    }
    hide AllSpace, IsSpace;
    SpanConcat(lead, rest, IsSpace);
    assert (lead + rest)[|lead|..] == rest;
  }

  lemma StampStart(stamp: string, clock: Clock)
    requires StampPasses(stamp, clock)
    ensures !AllSpace(stamp[..1]) && stamp[0] != '<'
  {
    MonthStartsWithLetter(stamp[..3]);
    AllSpaceIff(stamp[..1]);
    assert stamp[..3][0] == stamp[0] && stamp[..1][0] == stamp[0];
    hide MonthFromAbbr, SyslogTimestamp, IsSpace, AllSpace;
  }

  lemma StampPiece(stamp: string, rest: string, clock: Clock)
    requires StampPasses(stamp, clock) && rest != ""
    ensures TimestampShape(stamp + rest) && (stamp + rest)[..15] == stamp && (stamp + rest)[15..] == rest
  {
    assert (stamp + rest)[..3] == stamp[..3];
    hide MonthFromAbbr, SyslogTimestamp;
  }

  lemma HostPiece(host: string, after: string, ev: LogEvent)
    requires host != "" && ' ' !in host && (after == "" || after[0] == ' ')
    ensures TakeHost(host + after, ev) ==
            TakeBody(if after == "" then "" else Ltrim(after[1..]), ev.(sourceHost := host))
  {
    hide TakeBody, Ltrim;
    if after == "" {
      assert host + after == host;
      FindNoChar(host, ' ');
    } else {
      assert after == [' '] + after[1..];
      FindChar(host, ' ', after[1..]);
      assert (host + after)[..|host|] == host && (host + after)[|host| + 1..] == after[1..];
    }
  }

  /** A line cut into such pieces is parsed as its body, with what the other pieces say. */
  lemma {:induction false} PiecesParse(p: Pieces, t: Moment, ev: LogEvent, clock: Clock)
    requires Cut(p) && StampReads(p.stamp, t)
    ensures ParseSyslog(Whole(p), ev, clock) ==
            TakeBody(BodyOf(p), Started(p, ev).(timestamp := Meant(t, clock), sourceHost := p.host))
  {
    hide StampReads, Meant, NamesMoment;
    StampReadsMeans(p.stamp, t, clock);
    hide TakePriority, TimestampShape, SyslogTimestamp, TakeHost, TakeBody, Ltrim, ParseInt, PriorityToLevel, AllSpace,
         MonthFromAbbr;
    var tail := p.gap + (p.host + p.after);
    var rest := p.stamp + tail;
    assert p.lead + rest != "";
    PriorityPiece(p.pri, p.lead + rest, ev);
    StampStart(p.stamp, clock);
    assert rest[..1] == p.stamp[..1];
    LtrimPiece(p.lead, rest);
    StampPiece(p.stamp, tail, clock);
    assert (p.host + p.after)[..1] == p.host[..1];
    LtrimPiece(p.gap, p.host + p.after);
    HostPiece(p.host, p.after, Started(p, ev).(timestamp := Meant(t, clock)));
  }

  /** What the body of an accepted line becomes. */
  lemma {:induction false} BodyParses(body: string, i: nat, name: string, pid: Option<nat>, ev: LogEvent)
    requires i <= |body| && ColonAt(body, i) && ProcessIs(body[..i], name, pid)
    ensures TakeBody(body, ev) ==
            (true, WithMessage(ev.(logSource := name, pid := if pid.Some? then pid.value else ev.pid),
                               MessageBehind(body, i)))
  {
    ColonIff(body, i);
    ProcessReads(body[..i], name, pid, ev);
    hide ColonPosition, TakeProcess, WithMessage, ColonAt, ProcessIs;
  }

  lemma BodyAccepted(body: string, ev: LogEvent)
    ensures TakeBody(body, ev).0 <==> ':' in body
  {
    HasColon(body);
    hide ColonPosition, TakeProcess, WithMessage;
  }

  // ---- Exactly the accepted lines -----------------------------------------------------------------

  lemma SplitSpace(s: string) returns (lead: string, rest: string)
    ensures s == lead + rest && AllSpace(lead) && rest == Ltrim(s) && (rest == "" || !AllSpace(rest[..1]))
  {
    var n := Span(s, IsSpace);
    lead, rest := s[..n], s[n..];
    AllSpaceIff(lead);
    if rest != "" {
      AllSpaceIff(rest[..1]);
    }
    hide AllSpace, IsSpace;
  }

  lemma SplitPriority(line: string, ev: LogEvent) returns (pri: Option<string>, rest: string)
    requires line != "" && TakePriority(line, ev).Some?
    ensures rest == TakePriority(line, ev).value.0
    ensures line == (if pri.Some? then "<" + pri.value + ">" else "") + rest
    ensures if pri.Some? then '>' !in pri.value else line[0] != '<'
  {
    hide ParseInt, PriorityToLevel;
    if line[0] != '<' {
      pri, rest := None, line;
    } else {
      var close := FindFrom(line, ">", 0);
      AtChar(line, '>', close.value);
      forall j | 0 <= j < close.value
        ensures line[j] != '>'
      {
        AtChar(line, '>', j);
      }
      pri, rest := Some(line[1..close.value]), line[close.value + 1..];
    }
  }

  lemma SplitHost(s: string) returns (host: string, after: string)
    ensures s == host + after && ' ' !in host && (after == "" || after[0] == ' ')
    ensures (host == "") == (s == "" || s[0] == ' ')
  {
    var blank := FindFrom(s, " ", 0);
    if blank.None? {
      host, after := s, "";
      forall j: nat | j < |s|
        ensures s[j] != ' '
      {
        AtChar(s, ' ', j);
      }
    } else {
      host, after := s[..blank.value], s[blank.value..];
      AtChar(s, ' ', blank.value);
      forall j | 0 <= j < blank.value
        ensures s[j] != ' '
      {
        AtChar(s, ' ', j);
      }
    }
  }

  lemma ShapePasses(rest: string, clock: Clock)
    requires TimestampShape(rest) && SyslogTimestamp(rest[..15], clock).Some?
    ensures StampPasses(rest[..15], clock)
  {
    assert rest[..15][..3] == rest[..3];
    hide MonthFromAbbr, SyslogTimestamp;
  }

  /** The pieces of the line, when every test up to the host has passed. */
  lemma {:induction false} AcceptedIsCut(line: string, ev: LogEvent, clock: Clock) returns (p: Pieces)
    requires line != "" && ParseSyslog(line, ev, clock).0
    ensures line == Whole(p) && Cut(p)
  {
    hide TakePriority, TimestampShape, SyslogTimestamp, TakeHost, TakeBody, Ltrim, ParseInt, PriorityToLevel, AllSpace,
         MonthFromAbbr, StampPasses;
    var pri, rest0 := SplitPriority(line, ev);
    var lead, rest := SplitSpace(rest0);
    AtLeastSixteen(rest);
    var stamp := rest[..15];
    ShapePasses(rest, clock);
    MomentIff(stamp, clock);
    hide NamesMoment;
    var gap, hostAnd := SplitSpace(rest[15..]);
    var host, after := SplitHost(hostAnd);
    p := Pieces(pri, lead, stamp, gap, host, after);
    assert rest == stamp + rest[15..];
    assert line == Whole(p);
    StampStart(stamp, clock);
    HostFails(hostAnd, ev);
    var (_, ev1) := TakePriority(line, ev).value;
    var ev2 := ev1.(timestamp := SyslogTimestamp(stamp, clock).value);
    HostFails(hostAnd, ev2);
    assert host != "";
    assert host[..1] == hostAnd[..1];
    HostPiece(host, after, ev2);
    BodyAccepted(BodyOf(p), ev2.(sourceHost := host));
  }

  lemma AtLeastSixteen(rest: string)
    ensures TimestampShape(rest) ==> |rest| >= 16
  {
  }

  lemma HostFails(s: string, ev: LogEvent)
    ensures s == "" || s[0] == ' ' ==> !TakeHost(s, ev).0
  {
    hide TakeBody, Ltrim;
    if s == "" {
      FindNoChar(s, ' ');
    } else if s[0] == ' ' {
      FindCharAt(s, ' ', 0, 0);
    }
  }

  /**
   A line is taken as syslog exactly when it can be cut into an optional closed priority, blanks,
   a timestamp that names a moment, blanks, a host without a blank, and a body with a colon.
   */
  lemma {:induction false} AcceptedIff(raw: string, clock: Clock)
    ensures ParseLine(raw, clock).Some? <==> exists p :: Whole(p) == Trim(raw) && Cut(p)
  {
    hide Trim, ParseSyslog, Cut, Whole;
    var line := Trim(raw);
    var ev := EMPTY_EVENT.(rawLine := line);
    if p :| Whole(p) == line && Cut(p) {
      CutIsAccepted(p, ev, clock);
    }
    if line != "" && ParseSyslog(line, ev, clock).0 {
      var p := AcceptedIsCut(line, ev, clock);
    }
  }

  lemma CutIsAccepted(p: Pieces, ev: LogEvent, clock: Clock)
    requires Cut(p)
    ensures Whole(p) != "" && ParseSyslog(Whole(p), ev, clock).0
  {
    var t :| StampReads(p.stamp, t);
    PiecesParse(p, t, ev, clock);
    BodyAccepted(BodyOf(p), Started(p, ev).(timestamp := Meant(t, clock), sourceHost := p.host));
    StampReadsMeans(p.stamp, t, clock);
    hide TakeBody, ParseSyslog, AllSpace, SyslogTimestamp, MonthFromAbbr, Ltrim, ParseInt, StampReads;
  }

  /** The event of an accepted line, from its pieces. */
  lemma {:induction false} EventOfPieces(
    raw: string, p: Pieces, t: Moment, i: nat, name: string, pid: Option<nat>, clock: Clock)
    requires Whole(p) == Trim(raw) && Cut(p) && StampReads(p.stamp, t)
    requires i <= |BodyOf(p)| && ColonAt(BodyOf(p), i) && ProcessIs(BodyOf(p)[..i], name, pid)
    ensures var msg := MessageBehind(BodyOf(p), i);
            var pri := if p.pri.Some? then ParseInt(p.pri.value) else -1;
            var level := if pri >= 0 then PriorityToLevel(pri) else INFO;
            ParseLine(raw, clock) ==
            Some(LogEvent(Meant(t, clock), p.host, name, if pid.Some? then pid.value else 0, level, SYSLOG, Whole(p),
                          msg, KvParser.Scan(msg, map[])))
  {
    hide Trim, Whole, Cut, StampReads, ColonAt, ProcessIs, BodyOf, ParseSyslog, TakeBody, Meant, KvParser.Scan,
         ParseInt;
    var ev := EMPTY_EVENT.(rawLine := Whole(p));
    CutIsAccepted(p, ev, clock);
    PiecesParse(p, t, ev, clock);
    BodyParses(BodyOf(p), i, name, pid, Started(p, ev).(timestamp := Meant(t, clock), sourceHost := p.host));
    if p.pri.Some? && ParseInt(p.pri.value) >= 0 {
      LevelCode(ParseInt(p.pri.value));
    }
    hide PriorityToLevel;
  }
}
