/**
 The timestamp of a syslog line (RFC 3164, section 4.1.2), from the numbers it is printed from: they
 reach the C library's conversion, with the year that the line does not name.
 */
module SyslogStamps {
  import opened Text
  import opened Events
  import opened Syslog
  import KvParser

  const NAMES := ["Jan", "Feb", "Mar", "Apr", "May", "Jun", "Jul", "Aug", "Sep", "Oct", "Nov", "Dec"]

  /** The month counts from 0, as in the C library. */
  datatype Moment = Moment(month: nat, day: nat, hour: nat, minute: nat, second: nat)

  predicate InRange(t: Moment) {
    t.month < 12 && 1 <= t.day < 100 && t.hour < 100 && t.minute < 100 && t.second < 100
  }

  function Two(n: nat): (r: string)
    requires n < 100
    ensures |r| == 2
  {
    [DigitChar(n / 10), DigitChar(n % 10)]
  }

  /** Two characters, the first one blank below 10. */
  function Padded(n: nat): (r: string)
    requires n < 100
    ensures |r| == 2
  {
    if n < 10 then [' ', DigitChar(n)] else Two(n)
  }

  function Stamp(t: Moment): string
    requires InRange(t)
  {
    NAMES[t.month] + " " + Padded(t.day) + " " + Two(t.hour) + ":" + Two(t.minute) + ":" + Two(t.second)
  }

  lemma OneDigit(n: nat)
    requires n < 10
    ensures DigitsValue([DigitChar(n)]) == n && IsDigit(DigitChar(n))
  {
    assert [DigitChar(n)][..0] == "";
  }

  lemma TwoDigits(n: nat)
    requires n < 100
    ensures ParseInt(Two(n)) == n
  {
    var s := Two(n);
    OneDigit(n / 10);
    OneDigit(n % 10);
    assert s[..1] == [DigitChar(n / 10)] && s[1] == DigitChar(n % 10);
    assert DigitsValue(s) == n / 10 * 10 + n % 10;
    hide DigitsValue;
    LtrimSolid(s);
    RtrimSolid(s);
    SpanConcat(s, "", IsDigit);
    assert s + "" == s && s[..2] == s;
  }

  lemma PaddedDigits(n: nat)
    requires n < 100
    ensures ParseInt(Padded(n)) == n
  {
    if n < 10 {
      var d := [DigitChar(n)];
      OneDigit(n);
      assert Padded(n) == " " + d;
      hide DigitsValue;
      LtrimSolid(d);
      RtrimSolid(d);
      SpanConcat(d, "", IsDigit);
      assert d + "" == d && d[..1] == d;
    } else {
      TwoDigits(n);
    }
  }

  lemma MonthsDiffer(i: nat, j: nat)
    requires i < j < 12
    ensures MONTHS[i] != MONTHS[j]
  {
    assert MONTHS[i][0] != MONTHS[j][0] || MONTHS[i][1] != MONTHS[j][1] || MONTHS[i][2] != MONTHS[j][2];
  }

  lemma {:induction false} MonthIndexIs(i: nat, j: nat)
    requires i <= j < 12
    ensures MonthIndex(MONTHS[j], i) == j
    decreases j - i
  {
    if i < j {
      MonthsDiffer(i, j);
      MonthIndexIs(i + 1, j);
    }
  }

  lemma LowerName(j: nat)
    requires j < 12
    ensures |NAMES[j]| == 3 && LowerAll(NAMES[j]) == MONTHS[j]
  {
    var a, b := NAMES[j], MONTHS[j];
    assert |a| == 3 && |b| == 3;
    assert Lower(a[0]) == b[0] && Lower(a[1]) == b[1] && Lower(a[2]) == b[2];
  }

  lemma MonthBack(j: nat)
    requires j < 12
    ensures MonthFromAbbr(NAMES[j]) == j
  {
    LowerName(j);
    MonthIndexIs(0, j);
  }

  lemma StampPieces(t: Moment)
    requires InRange(t)
    ensures var s := Stamp(t);
            && |s| == 15 && s[..3] == NAMES[t.month] && s[4..6] == Padded(t.day)
            && s[7..9] == Two(t.hour) && s[10..12] == Two(t.minute) && s[13..15] == Two(t.second)
            && s[3] == ' ' && s[6] == ' ' && s[9] == ':' && s[12] == ':'
  {
    LowerName(t.month);
    hide LowerAll, Two, Padded;
    var s := Stamp(t);
    var front := NAMES[t.month] + " " + Padded(t.day) + " ";
    assert s == front + (Two(t.hour) + ":" + Two(t.minute) + ":" + Two(t.second));
    assert s[..7] == front && s[..3] == front[..3] && s[4..6] == front[4..6];
  }

  /** The time meant: this year, or the year before if that were more than 24 hours ahead. */
  function Meant(t: Moment, clock: Clock): int {
    var now := clock.makeTime(clock.year, t.month, t.day, t.hour, t.minute, t.second);
    if now > clock.now + 24 * 3600 * 1_000_000_000
    then clock.makeTime(clock.year - 1, t.month, t.day, t.hour, t.minute, t.second)
    else now
  }

  lemma StampShape(t: Moment)
    requires InRange(t)
    ensures |Stamp(t)| == 15 && TimestampShape(Stamp(t) + " ")
  {
    StampPieces(t);
    MonthBack(t.month);
    hide Stamp, MonthFromAbbr, Padded, Two;
    assert (Stamp(t) + " ")[..3] == Stamp(t)[..3];
  }

  /** The timestamp parser on fields whose numbers are known. */
  lemma TimeOfFields(s: string, t: Moment, clock: Clock)
    requires |s| == 15 && MonthFromAbbr(s[..3]) == t.month && ParseInt(s[4..6]) == t.day && t.day > 0
    requires ParseInt(s[7..9]) == t.hour && ParseInt(s[10..12]) == t.minute && ParseInt(s[13..15]) == t.second
    ensures SyslogTimestamp(s, clock) == Some(Meant(t, clock))
  {
    hide MonthFromAbbr, ParseInt;
  }

  /** A printed timestamp is accepted and means its numbers. */
  lemma {:induction false} StampMeans(t: Moment, clock: Clock)
    requires InRange(t)
    ensures |Stamp(t)| == 15 && TimestampShape(Stamp(t) + " ")
    ensures SyslogTimestamp(Stamp(t), clock) == Some(Meant(t, clock))
  {
    StampShape(t);
    StampPieces(t);
    MonthBack(t.month);
    PaddedDigits(t.day);
    TwoDigits(t.hour);
    TwoDigits(t.minute);
    TwoDigits(t.second);
    hide Stamp, MonthFromAbbr, ParseInt, Padded, Two, SyslogTimestamp, Meant, TimestampShape;
    TimeOfFields(Stamp(t), t, clock);
  }

  lemma StampParses(l: Line, clock: Clock)
    requires WellShaped(l, clock)
    ensures |l.stamp| == 15 && SyslogTimestamp(l.stamp, clock).Some?
  {
  }

  lemma EventParts(l: Line, clock: Clock)
    requires WellShaped(l, clock)
    ensures |l.stamp| == 15
    ensures var ev := EventOf(l, clock);
            && Some(ev.timestamp) == SyslogTimestamp(l.stamp, clock)
            && ev.sourceHost == l.host && ev.logSource == l.process
            && ev.message == l.message && ev.pid == (if l.pid.Some? then l.pid.value else 0)
            && ev.format == SYSLOG && ev.level.Code() == if l.pri.Some? then 8 - l.pri.value % 8 else 2
  {
    hide Trim, Render, SyslogTimestamp, PriorityToLevel, KvParser.Scan, WellShaped;
    StampParses(l, clock);
    if l.pri.Some? {
      LevelCode(l.pri.value);
    } else {
      assert EventOf(l, clock).level == INFO && INFO.Code() == 2;
    }
  }

  /** Lines printed from numbers are read back with the time these mean. */
  lemma {:induction false} ParseInvertsNumbers(t: Moment, l: Line, clock: Clock)
    requires InRange(t) && l.stamp == Stamp(t) && WellShaped(l, clock)
    ensures ParseLine(Render(l), clock).Some?
    ensures var ev := ParseLine(Render(l), clock).value;
            && ev.timestamp == Meant(t, clock) && ev.sourceHost == l.host && ev.logSource == l.process
            && ev.message == l.message && ev.pid == (if l.pid.Some? then l.pid.value else 0)
            && ev.format == SYSLOG && ev.level.Code() == if l.pri.Some? then 8 - l.pri.value % 8 else 2
  {
    hide *;
    StampMeans(t, clock);
    ParseInvertsRender(l, clock);
    EventParts(l, clock);
  }
}
