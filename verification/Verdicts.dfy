/**
 What the four rules say, stated without the functions that compute it: when a rule raises an
 alert and what the alert holds, in terms of the characters of the messages, the fields of the
 events, the literal windows and the counts in the snapshot.
 */
module Verdicts {
  import opened Text
  import opened Events
  import opened StringSets
  import opened Rules

  // ---- Texts --------------------------------------------------------------------------------

  /** The word occurs in the message, whatever the case of its letters. */
  predicate Mentions(msg: string, word: string) {
    exists i :: 0 <= i <= |msg| - |word| && MentionsAt(msg, word, i)
  }

  predicate MentionsAt(msg: string, word: string, i: nat)
    requires i + |word| <= |msg|
  {
    forall j :: 0 <= j < |word| ==> Lower(msg[i + j]) == Lower(word[j])
  }

  lemma SliceAt(s: string, i: nat, n: nat, j: nat)
    ensures i + n <= |s| && j < n ==> s[i..i + n][j] == s[i + j]
  {
  }

  lemma IContainsIff(msg: string, word: string)
    ensures IContains(msg, word) <==> Mentions(msg, word)
  {
    var h, n := LowerAll(msg), LowerAll(word);
    forall i: nat | i + |word| <= |msg|
      ensures At(h, n, i) <==> MentionsAt(msg, word, i)
    {
      forall j: nat | j < |word|
        ensures h[i..i + |n|][j] == n[j] <==> Lower(msg[i + j]) == Lower(word[j])
      {
        SliceAt(h, i, |n|, j);
      }
      assert MentionsAt(msg, word, i) ==> h[i..i + |n|] == n;
    }
    var r := FindFrom(h, n, 0);
    if i :| 0 <= i <= |msg| - |word| && MentionsAt(msg, word, i) {
      assert At(h, n, i);
    }
  }

  /** `word` is what stands between position `i` and the next of the `ends`, or the end of the message. */
  predicate WordAt(msg: string, i: nat, ends: string, word: string) {
    && i + |word| <= |msg| && msg[i..i + |word|] == word
    && (forall j :: 0 <= j < |word| ==> word[j] !in ends)
    && (i + |word| < |msg| ==> msg[i + |word|] in ends)
  }

  predicate FirstAt(msg: string, tag: string, i: nat) {
    At(msg, tag, i) && forall j :: 0 <= j < i ==> !At(msg, tag, j)
  }

  ghost predicate LastAt(msg: string, tag: string, i: nat) {
    At(msg, tag, i) && forall j :: i < j ==> !At(msg, tag, j)
  }

  ghost predicate Absent(msg: string, tag: string) {
    forall i :: !At(msg, tag, i)
  }

  /** The word behind the first `tag`; empty if there is none. */
  ghost predicate TagWord(msg: string, tag: string, ends: string, word: string) {
    if Absent(msg, tag) then word == ""
    else exists i: nat :: FirstAt(msg, tag, i) && WordAt(msg, i + |tag|, ends, word)
  }

  lemma WordIsAt(msg: string, i: nat, ends: string, p: char -> bool)
    requires i <= |msg| && forall c :: p(c) <==> c !in ends
    ensures var rest := msg[i..]; WordAt(msg, i, ends, rest[..Span(rest, p)])
  {
    var rest := msg[i..];
    var word := rest[..Span(rest, p)];
    assert msg[i..i + |word|] == word;
    assert i + |word| < |msg| ==> msg[i + |word|] == rest[|word|];
  }

  lemma OneWord(msg: string, i: nat, ends: string, a: string, b: string)
    requires WordAt(msg, i, ends, a) && WordAt(msg, i, ends, b)
    ensures a == b
  {
    SliceAt(msg, i, |b|, |a|);
    SliceAt(msg, i, |a|, |b|);
  }

  lemma OneTagWord(msg: string, tag: string, ends: string, a: string, b: string)
    requires TagWord(msg, tag, ends, a) && TagWord(msg, tag, ends, b)
    ensures a == b
  {
    hide WordAt;
    if !Absent(msg, tag) {
      var i: nat :| FirstAt(msg, tag, i) && WordAt(msg, i + |tag|, ends, a);
      var j: nat :| FirstAt(msg, tag, j) && WordAt(msg, j + |tag|, ends, b);
      assert i == j;
      OneWord(msg, i + |tag|, ends, a, b);
    }
  }

  lemma FieldIsTagWord(msg: string, key: string)
    ensures TagWord(msg, key, " \t\r\n", ParseKvField(msg, key))
  {
    var r := FindFrom(msg, key, 0);
    if r.Some? {
      WordIsAt(msg, r.value + |key|, " \t\r\n", NotFieldEnd);
      assert FirstAt(msg, key, r.value);
    }
    hide WordAt, Span;
  }

  lemma FromIsTagWord(msg: string)
    ensures TagWord(msg, "from ", " ", ParseFromIp(msg))
  {
    var r := FindFrom(msg, "from ", 0);
    if r.Some? {
      assert forall c :: NotBlank(c) <==> c !in " ";
      WordIsAt(msg, r.value + 5, " ", NotBlank);
      assert FirstAt(msg, "from ", r.value);
    }
    hide WordAt, Span;
  }

  /** The user of a sudo session: the word behind the last " by ". */
  ghost predicate UserIs(msg: string, user: string) {
    if Absent(msg, " by ") then user == ""
    else exists i: nat :: LastAt(msg, " by ", i) && WordAt(msg, i + 4, " \t(", user)
  }

  lemma UserIff(msg: string, user: string)
    ensures UserIs(msg, user) <==> user == ParseSudoUser(msg)
  {
    var r := RFindUpTo(msg, " by ", |msg| + 1);
    if r.Some? {
      assert LastAt(msg, " by ", r.value);
      WordIsAt(msg, r.value + 4, " \t(", NotUserEnd);
      hide Span;
      if UserIs(msg, user) {
        var i: nat :| LastAt(msg, " by ", i) && WordAt(msg, i + 4, " \t(", user);
        assert i == r.value;
        OneWord(msg, i + 4, " \t(", user, ParseSudoUser(msg));
      }
    } else {
      assert forall i :: At(msg, " by ", i) ==> i < |msg| + 1;
    }
  }

  // ---- Addresses and ports ------------------------------------------------------------------------

  /**
   The address an event is about: the field `src_ip`, else `client`, else `src`, else the word
   behind the first "SRC=", and if that is empty the word behind the first "from ".
   */
  ghost predicate AddressIs(ev: LogEvent, ip: string) {
    if "src_ip" in ev.fields then ip == ev.fields["src_ip"]
    else if "client" in ev.fields then ip == ev.fields["client"]
    else if "src" in ev.fields then ip == ev.fields["src"]
    else if TagWord(ev.message, "SRC=", " \t\r\n", "") then TagWord(ev.message, "from ", " ", ip)
    else TagWord(ev.message, "SRC=", " \t\r\n", ip)
  }

  lemma AddressIff(ev: LogEvent, ip: string)
    ensures AddressIs(ev, ip) <==> ip == ExtractSrcIp(ev)
  {
    var src, from := ParseKvField(ev.message, "SRC="), ParseFromIp(ev.message);
    FieldIsTagWord(ev.message, "SRC=");
    FromIsTagWord(ev.message);
    hide TagWord, ParseKvField, ParseFromIp;
    if TagWord(ev.message, "SRC=", " \t\r\n", "") {
      OneTagWord(ev.message, "SRC=", " \t\r\n", "", src);
    }
    if TagWord(ev.message, "SRC=", " \t\r\n", ip) {
      OneTagWord(ev.message, "SRC=", " \t\r\n", ip, src);
    }
    if TagWord(ev.message, "from ", " ", ip) {
      OneTagWord(ev.message, "from ", " ", ip, from);
    }
  }

  /** The number that the word behind the first "DPT=" starts with, or -1. */
  ghost predicate PortIs(msg: string, port: int) {
    exists word :: TagWord(msg, "DPT=", " \t\r\n", word)
                   && port == if FromChars(word).Some? then FromChars(word).value else -1
  }

  lemma PortIff(msg: string, port: int)
    ensures PortIs(msg, port) <==> port == ParseDpt(msg)
  {
    var w := ParseKvField(msg, "DPT=");
    FieldIsTagWord(msg, "DPT=");
    hide TagWord, ParseKvField, FromChars;
    if PortIs(msg, port) {
      var word :| TagWord(msg, "DPT=", " \t\r\n", word)
        && port == if FromChars(word).Some? then FromChars(word).value else -1;
      OneTagWord(msg, "DPT=", " \t\r\n", word, w);
    }
  }

  // ---- Counting in the snapshot -----------------------------------------------------------------

  /** Not older than the window in seconds, nor than 24 hours. */
  predicate Recent(e: LogEvent, now: int, seconds: int) {
    e.timestamp >= now - seconds * 1_000_000_000 && e.timestamp >= now - 86_400_000_000_000
  }

  lemma RecentIff(e: LogEvent, now: int, seconds: int)
    ensures Recent(e, now, seconds) <==> e.timestamp >= Horizon(now, seconds * SECOND)
  {
  }

  predicate LoginFailure(e: LogEvent) {
    && (e.logSource == "sshd" || e.logSource == "sshd-session")
    && (Mentions(e.message, "Failed password") || Mentions(e.message, "Invalid user"))
  }

  lemma LoginFailureIff(e: LogEvent)
    ensures LoginFailure(e) <==> FromSshd(e) && LoginFailed(e.message)
  {
    IContainsIff(e.message, "Failed password");
    IContainsIff(e.message, "Invalid user");
  }

  /** The positions of the earlier failures from `ip` that the SSH rule counts. */
  ghost function FailuresFrom(snapshot: seq<LogEvent>, ip: string, now: int, seconds: int): set<int> {
    set i | 0 <= i < |snapshot| && Recent(snapshot[i], now, seconds) && LoginFailure(snapshot[i])
            && AddressIs(snapshot[i], ip)
  }

  lemma OneMoreFailure(snapshot: seq<LogEvent>, ip: string, now: int, seconds: int)
    requires snapshot != []
    ensures var n := |snapshot| - 1;
            var before := FailuresFrom(snapshot[..n], ip, now, seconds);
            && n !in before
            && FailuresFrom(snapshot, ip, now, seconds) ==
               if Recent(snapshot[n], now, seconds) && LoginFailure(snapshot[n]) && AddressIs(snapshot[n], ip)
               then before + {n} else before
  {
    hide Recent, LoginFailure, AddressIs;
  }

  lemma HitIff(e: LogEvent, ip: string, now: int, seconds: int)
    ensures Recent(e, now, seconds) && LoginFailure(e) && AddressIs(e, ip) <==>
            SshHit(e, ip, Horizon(now, seconds * SECOND))
  {
    RecentIff(e, now, seconds);
    LoginFailureIff(e);
    AddressIff(e, ip);
    hide Recent, LoginFailure, AddressIs, Horizon, FromSshd, LoginFailed, ExtractSrcIp;
  }

  lemma {:induction false} CountIsSize(snapshot: seq<LogEvent>, ip: string, now: int, seconds: int)
    ensures SshCount(snapshot, ip, Horizon(now, seconds * SECOND)) == |FailuresFrom(snapshot, ip, now, seconds)|
  {
    hide Recent, LoginFailure, AddressIs, Horizon, SshHit;
    if snapshot != [] {
      var n := |snapshot| - 1;
      CountIsSize(snapshot[..n], ip, now, seconds);
      HitIff(snapshot[n], ip, now, seconds);
      OneMoreFailure(snapshot, ip, now, seconds);
      hide FailuresFrom;
    }
  }

  // ---- The rules ------------------------------------------------------------------------------------

  /** The share of a total, at most 1; a total of zero counts as reached. */
  predicate ScoreIs(score: real, count: int, total: int) {
    if total == 0 || (total > 0 && count >= total) then score == 1.0
    else score * total as real == count as real
  }

  lemma ScoreHolds(count: nat, total: int)
    ensures ScoreIs(Score(count, total), count, total)
  {
  }

  /** The parts of an alert that every rule takes from the event. */
  predicate TakenFrom(a: Alert, ev: LogEvent) {
    a.timestamp == ev.timestamp && a.sourceHost == ev.sourceHost
  }

  /** When the SSH rule fires, and what its alert holds. */
  lemma {:induction false} SshVerdict(ev: LogEvent, snapshot: seq<LogEvent>, cfg: RuleConfig, ip: string)
    requires AddressIs(ev, ip)
    ensures var count := 1 + |FailuresFrom(snapshot, ip, ev.timestamp, cfg.sshWindowSeconds)|;
            var alert := NaiveSsh(ev, snapshot, cfg);
            && (alert.Some? <==> LoginFailure(ev) && ip != "" && count >= cfg.sshThreshold)
            && (alert.Some? ==>
                 && TakenFrom(alert.value, ev)
                 && alert.value.ruleId == "SSH_BRUTE_FORCE_001" && alert.value.severity == HIGH
                 && alert.value.metadata == map["src_ip" := ip, "attempt_count" := Decimal(count)]
                 && ScoreIs(alert.value.anomalyScore, count, cfg.sshThreshold * 2))
  {
    AddressIff(ev, ip);
    LoginFailureIff(ev);
    CountIsSize(snapshot, ip, ev.timestamp, cfg.sshWindowSeconds);
    ScoreHolds(1 + |FailuresFrom(snapshot, ip, ev.timestamp, cfg.sshWindowSeconds)|, cfg.sshThreshold * 2);
    hide AddressIs, LoginFailure, ExtractSrcIp, FromSshd, LoginFailed, FailuresFrom, SshCount, Score, ScoreIs, Horizon;
  }

  /** A kernel event about `ip` whose message names the positive port. */
  ghost predicate NamesPort(e: LogEvent, ip: string, port: int) {
    && e.logSource == "kernel" && AddressIs(e, ip) && Mentions(e.message, "DPT=")
    && port > 0 && PortIs(e.message, port)
  }

  /** `ports` are the distinct ports of the event and of the recent ones about its address. */
  ghost predicate PortsAre(ports: set<int>, ev: LogEvent, snapshot: seq<LogEvent>, ip: string, seconds: int) {
    forall p :: p in ports <==>
      || (p > 0 && PortIs(ev.message, p))
      || exists e :: e in snapshot && Recent(e, ev.timestamp, seconds) && NamesPort(e, ip, p)
  }

  lemma PortHitIff(e: LogEvent, ip: string, now: int, seconds: int, p: int)
    ensures Recent(e, now, seconds) && NamesPort(e, ip, p) <==>
            PortHit(e, ip, Horizon(now, seconds * SECOND)) && p == ParseDpt(e.message)
  {
    RecentIff(e, now, seconds);
    AddressIff(e, ip);
    PortIff(e.message, p);
    IContainsIff(e.message, "DPT=");
    hide AddressIs, PortIs, Mentions, IContains, ExtractSrcIp, ParseDpt, Recent, Horizon;
  }

  lemma OwnPortIff(ev: LogEvent, p: int)
    ensures p in OwnPort(ev) <==> p > 0 && PortIs(ev.message, p)
  {
    PortIff(ev.message, p);
    hide PortIs, ParseDpt;
  }

  lemma PortSeenIff(ev: LogEvent, snapshot: seq<LogEvent>, ip: string, seconds: int, p: int)
    ensures p in PortsSeen(snapshot, ip, Horizon(ev.timestamp, seconds * SECOND)) <==>
            exists e :: e in snapshot && Recent(e, ev.timestamp, seconds) && NamesPort(e, ip, p)
  {
    hide NamesPort, PortHit, Recent, Horizon, ParseDpt;
    forall e
      ensures Recent(e, ev.timestamp, seconds) && NamesPort(e, ip, p) <==>
              PortHit(e, ip, Horizon(ev.timestamp, seconds * SECOND)) && p == ParseDpt(e.message)
    {
      PortHitIff(e, ip, ev.timestamp, seconds, p);
    }
  }

  lemma PortsIff(ports: set<int>, ev: LogEvent, snapshot: seq<LogEvent>, ip: string, seconds: int)
    requires PortsAre(ports, ev, snapshot, ip, seconds)
    ensures ports == OwnPort(ev) + PortsSeen(snapshot, ip, Horizon(ev.timestamp, seconds * SECOND))
  {
    hide NamesPort, PortIs, Recent, Horizon, OwnPort, PortsSeen;
    forall p
      ensures p in ports <==> p in OwnPort(ev) + PortsSeen(snapshot, ip, Horizon(ev.timestamp, seconds * SECOND))
    {
      OwnPortIff(ev, p);
      PortSeenIff(ev, snapshot, ip, seconds, p);
    }
  }

  /** When the port scan rule fires, and what its alert holds. */
  lemma {:induction false} ScanVerdict(
    ev: LogEvent, snapshot: seq<LogEvent>, cfg: RuleConfig, ip: string, ports: set<int>)
    requires AddressIs(ev, ip) && PortsAre(ports, ev, snapshot, ip, cfg.scanWindowSeconds)
    ensures var alert := NaiveScan(ev, snapshot, cfg);
            && (alert.Some? <==>
                 && ev.logSource == "kernel" && (Mentions(ev.message, "REJECT") || Mentions(ev.message, "DPT="))
                 && ip != "" && |ports| >= cfg.scanThreshold)
            && (alert.Some? ==>
                 && TakenFrom(alert.value, ev)
                 && alert.value.ruleId == "PORT_SCAN_001" && alert.value.severity == HIGH
                 && alert.value.metadata == map["src_ip" := ip, "port_count" := Decimal(|ports|)]
                 && ScoreIs(alert.value.anomalyScore, |ports|, 50))
  {
    AddressIff(ev, ip);
    IContainsIff(ev.message, "REJECT");
    IContainsIff(ev.message, "DPT=");
    PortsIff(ports, ev, snapshot, ip, cfg.scanWindowSeconds);
    ScoreHolds(|ports|, 50);
    hide AddressIs, ExtractSrcIp, Mentions, IContains, OwnPort, PortsSeen, PortsAre, Score, ScoreIs, Horizon;
  }

  /** A session of the user was opened strictly before the event and recently enough. */
  predicate PriorSession(snapshot: seq<LogEvent>, user: string, now: int, hours: int) {
    exists e :: e in snapshot && e.timestamp < now && Recent(e, now, hours * 3600)
                && e.logSource == "sudo" && Mentions(e.message, "session opened") && Mentions(e.message, user)
  }

  lemma PriorSessionIff(snapshot: seq<LogEvent>, user: string, now: int, hours: int)
    ensures PriorSession(snapshot, user, now, hours) <==>
            SeenBefore(snapshot, user, Horizon(now, hours * 3600 * SECOND), now)
  {
    forall e | e in snapshot
      ensures Recent(e, now, hours * 3600) <==> e.timestamp >= Horizon(now, hours * 3600 * SECOND)
      ensures IContains(e.message, "session opened") <==> Mentions(e.message, "session opened")
      ensures IContains(e.message, user) <==> Mentions(e.message, user)
    {
      RecentIff(e, now, hours * 3600);
      IContainsIff(e.message, "session opened");
      IContainsIff(e.message, user);
    }
    hide IContains, Mentions, Recent, Horizon;
  }

  /** When the privilege rule fires, and what its alert holds. */
  lemma {:induction false} PrivVerdict(ev: LogEvent, snapshot: seq<LogEvent>, cfg: RuleConfig, user: string)
    requires UserIs(ev.message, user)
    ensures var alert := NaivePriv(ev, snapshot, cfg);
            && (alert.Some? <==>
                 && ev.logSource == "sudo" && Mentions(ev.message, "session opened") && user != ""
                 && !PriorSession(snapshot, user, ev.timestamp, cfg.privHistoryHours))
            && (alert.Some? ==>
                 && TakenFrom(alert.value, ev)
                 && alert.value.ruleId == "PRIV_ESC_001" && alert.value.severity == CRITICAL
                 && alert.value.metadata == map["username" := user] && alert.value.anomalyScore == 0.9)
  {
    UserIff(ev.message, user);
    IContainsIff(ev.message, "session opened");
    PriorSessionIff(snapshot, user, ev.timestamp, cfg.privHistoryHours);
    hide UserIs, ParseSudoUser, Mentions, IContains, PriorSession, SeenBefore, Horizon;
  }

  predicate AuthFailure(e: LogEvent) {
    || Mentions(e.message, "authentication failure") || Mentions(e.message, "Failed password")
    || Mentions(e.message, "auth error") || Mentions(e.message, "Invalid user")
  }

  lemma AuthFailureIff(e: LogEvent)
    ensures AuthFailure(e) <==> AuthFailed(e.message)
  {
    IContainsIff(e.message, "authentication failure");
    IContainsIff(e.message, "Failed password");
    IContainsIff(e.message, "auth error");
    IContainsIff(e.message, "Invalid user");
    hide IContains, Mentions;
  }

  /** `services` lists, once each and in the order of `std::string`, the sources of the failures about `ip`. */
  ghost predicate ServicesAre(services: seq<string>, ev: LogEvent, snapshot: seq<LogEvent>, ip: string, seconds: int) {
    && Increasing(services)
    && forall x :: x in services <==>
         x != "" && (x == ev.logSource
                     || exists e :: e in snapshot && Recent(e, ev.timestamp, seconds) && AuthFailure(e)
                                    && AddressIs(e, ip) && e.logSource == x)
  }

  lemma ServicesIff(services: seq<string>, ev: LogEvent, snapshot: seq<LogEvent>, ip: string, seconds: int)
    requires ServicesAre(services, ev, snapshot, ip, seconds)
    ensures services == InOrder(OwnService(ev) + ServicesHit(snapshot, ip, Horizon(ev.timestamp, seconds * SECOND)))
  {
    var from := Horizon(ev.timestamp, seconds * SECOND);
    forall e | e in snapshot
      ensures Recent(e, ev.timestamp, seconds) && AuthFailure(e) && AddressIs(e, ip) && e.logSource != "" <==>
              ServiceHit(e, ip, from)
    {
      RecentIff(e, ev.timestamp, seconds);
      AddressIff(e, ip);
      AuthFailureIff(e);
      hide AddressIs, ExtractSrcIp, AuthFailure, AuthFailed, Recent, Horizon;
    }
    hide AddressIs, AuthFailure, Recent, ServiceHit, Horizon, Increasing;
    OneOrder(services, InOrder(OwnService(ev) + ServicesHit(snapshot, ip, from)));
  }

  /** When the multi-service rule fires, and what its alert holds. */
  lemma {:induction false} MultiVerdict(
    ev: LogEvent, snapshot: seq<LogEvent>, cfg: RuleConfig, ip: string, services: seq<string>)
    requires AddressIs(ev, ip) && ServicesAre(services, ev, snapshot, ip, cfg.multiWindowSeconds)
    ensures var alert := NaiveMulti(ev, snapshot, cfg);
            && (alert.Some? <==> AuthFailure(ev) && ip != "" && |services| >= cfg.multiMinServices)
            && (alert.Some? ==>
                 && TakenFrom(alert.value, ev)
                 && alert.value.ruleId == "MULTI_SERVICE_AUTH_001" && alert.value.severity == CRITICAL
                 && alert.value.metadata ==
                      map["src_ip" := ip, "services" := JoinComma(services), "service_count" := Decimal(|services|)]
                 && ScoreIs(alert.value.anomalyScore, |services|, 4))
  {
    AddressIff(ev, ip);
    AuthFailureIff(ev);
    ServicesIff(services, ev, snapshot, ip, cfg.multiWindowSeconds);
    ScoreHolds(|services|, 4);
    hide AddressIs, ExtractSrcIp, AuthFailure, AuthFailed, ServicesAre, OwnService, ServicesHit, Score, ScoreIs,
         Horizon, JoinComma;
  }
}
