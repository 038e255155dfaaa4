/**
 The per-event index over the ring-buffer snapshot and the four rules that read it.
 Every rule is proved to give the verdict of the naive detector on the whole snapshot.
 The source keeps pointers into the snapshot; here a group holds the events themselves.
 */
module EventIndexes {
  import opened Text
  import opened Events
  import opened StringSets
  import opened Rules

  datatype EventIndex = EventIndex(
    byIp: map<string, seq<LogEvent>>,
    bySource: map<string, seq<LogEvent>>,
    last60s: seq<LogEvent>,
    last300s: seq<LogEvent>)

  // ---- What an index has to be ------------------------------------------------

  /** The events of `s` at or after `from`, in order. */
  function Since(s: seq<LogEvent>, from: int): seq<LogEvent> {
    if s == [] then []
    else
      var last := s[|s| - 1];
      Since(s[..|s| - 1], from) + if last.timestamp >= from then [last] else []
  }

  /** Those of them whose key is `v`. */
  function Group(s: seq<LogEvent>, from: int, key: LogEvent -> string, v: string): seq<LogEvent> {
    if s == [] then []
    else
      var last := s[|s| - 1];
      Group(s[..|s| - 1], from, key, v) + if last.timestamp >= from && key(last) == v then [last] else []
  }

  ghost predicate Groups(m: map<string, seq<LogEvent>>, s: seq<LogEvent>, from: int, key: LogEvent -> string) {
    forall v :: Group(s, from, key, v) == if v in m then m[v] else []
  }

  ghost predicate Indexes(index: EventIndex, snapshot: seq<LogEvent>, now: int) {
    && Groups(index.byIp, snapshot, now - DAY, ExtractSrcIp)
    && Groups(index.bySource, snapshot, now - DAY, LogSource)
    && index.last300s == Since(snapshot, now - 300 * SECOND)
    && index.last60s == Since(snapshot, now - 60 * SECOND)
  }

  lemma {:induction false} GroupMembers(s: seq<LogEvent>, from: int, key: LogEvent -> string, v: string)
    ensures forall e :: e in Group(s, from, key, v) <==> e in s && e.timestamp >= from && key(e) == v
  {
    if s != [] {
      GroupMembers(s[..|s| - 1], from, key, v);
      assert s == s[..|s| - 1] + [s[|s| - 1]];
    }
  }

  /**
   The groups partition the retained events: an event occurs in the group of its own key
   as often as it is retained, and in no other group.
   */
  lemma {:induction false} GroupsPartition(
      s: seq<LogEvent>, from: int, key: LogEvent -> string, v: string, e: LogEvent)
    ensures multiset(Group(s, from, key, v))[e] == if key(e) == v then multiset(Since(s, from))[e] else 0
  {
    if s != [] {
      GroupsPartition(s[..|s| - 1], from, key, v, e);
    }
  }

  // ---- Building it ------------------------------------------------------------

  function AddTo(m: map<string, seq<LogEvent>>, v: string, ev: LogEvent): map<string, seq<LogEvent>> {
    m[v := (if v in m then m[v] else []) + [ev]]
  }

  lemma AddToGroups(m: map<string, seq<LogEvent>>, s: seq<LogEvent>, from: int, key: LogEvent -> string, ev: LogEvent)
    requires Groups(m, s, from, key)
    ensures Groups(if ev.timestamp >= from then AddTo(m, key(ev), ev) else m, s + [ev], from, key)
  {
    assert (s + [ev])[..|s|] == s;
    forall v
      ensures Group(s + [ev], from, key, v) ==
        var m' := if ev.timestamp >= from then AddTo(m, key(ev), ev) else m;
        if v in m' then m'[v] else []
    {
      assert Group(s, from, key, v) == if v in m then m[v] else [];
    }
  }

  lemma NothingGrouped(from: int, key: LogEvent -> string)
    ensures Groups(map[], [], from, key)
  {
  }

  method BuildIndex(snapshot: seq<LogEvent>, now: int) returns (index: EventIndex)
    ensures Indexes(index, snapshot, now)
  {
    hide Groups, ExtractSrcIp, AddTo;
    var byIp: map<string, seq<LogEvent>>, bySource: map<string, seq<LogEvent>> := map[], map[];
    var last60s: seq<LogEvent>, last300s: seq<LogEvent> := [], [];
    var cutoff60s := now - 60 * SECOND;
    var cutoff300s := now - 300 * SECOND;
    var cutoffMax := now - DAY;
    NothingGrouped(cutoffMax, ExtractSrcIp);
    NothingGrouped(cutoffMax, LogSource);
    for i := 0 to |snapshot|
      invariant Groups(byIp, snapshot[..i], cutoffMax, ExtractSrcIp)
      invariant Groups(bySource, snapshot[..i], cutoffMax, LogSource)
      invariant last300s == Since(snapshot[..i], cutoff300s)
      invariant last60s == Since(snapshot[..i], cutoff60s)
    {
      var ev := snapshot[i];
      assert snapshot[..i + 1] == snapshot[..i] + [ev];
      AddToGroups(byIp, snapshot[..i], cutoffMax, ExtractSrcIp, ev);
      AddToGroups(bySource, snapshot[..i], cutoffMax, LogSource, ev);
      assert snapshot[..i + 1][..i] == snapshot[..i];
      if ev.timestamp < cutoffMax {
        continue;
      }
      byIp := AddTo(byIp, ExtractSrcIp(ev), ev);
      bySource := AddTo(bySource, ev.logSource, ev);
      if ev.timestamp >= cutoff300s {
        last300s := last300s + [ev];
        if ev.timestamp >= cutoff60s {
          last60s := last60s + [ev];
        }
      }
    }
    assert snapshot[..|snapshot|] == snapshot;
    index := EventIndex(byIp, bySource, last60s, last300s);
  }

  // ---- A group answers for the whole snapshot -----------------------------------

  lemma {:induction false} SshCountOfGroup(s: seq<LogEvent>, ip: string, now: int, window: int)
    ensures SshCount(Group(s, now - DAY, ExtractSrcIp, ip), ip, now - window)
         == SshCount(s, ip, Horizon(now, window))
  {
    hide ExtractSrcIp, LoginFailed;
    if s != [] {
      var n := |s| - 1;
      SshCountOfGroup(s[..n], ip, now, window);
      var before := Group(s[..n], now - DAY, ExtractSrcIp, ip);
      assert (before + [s[n]])[..|before|] == before;
      assert before + [] == before;
    }
  }

  lemma PortsOfGroup(s: seq<LogEvent>, ip: string, now: int, window: int)
    ensures PortsSeen(Group(s, now - DAY, ExtractSrcIp, ip), ip, now - window)
         == PortsSeen(s, ip, Horizon(now, window))
  {
    GroupMembers(s, now - DAY, ExtractSrcIp, ip);
  }

  lemma ServicesOfGroup(s: seq<LogEvent>, ip: string, now: int, window: int)
    ensures ServicesHit(Group(s, now - DAY, ExtractSrcIp, ip), ip, now - window)
         == ServicesHit(s, ip, Horizon(now, window))
  {
    GroupMembers(s, now - DAY, ExtractSrcIp, ip);
  }

  lemma SessionsOfGroup(s: seq<LogEvent>, user: string, now: int, window: int)
    ensures SeenBefore(Group(s, now - DAY, LogSource, "sudo"), user, now - window, now)
         == SeenBefore(s, user, Horizon(now, window), now)
  {
    GroupMembers(s, now - DAY, LogSource, "sudo");
  }

  // ---- The loops over one group ---------------------------------------------------

  ghost predicate AllKeyed(group: seq<LogEvent>, key: LogEvent -> string, v: string) {
    forall e :: e in group ==> key(e) == v
  }

  method CountFailures(group: seq<LogEvent>, ghost ip: string, cutoff: int) returns (count: nat)
    requires AllKeyed(group, ExtractSrcIp, ip)
    ensures count == SshCount(group, ip, cutoff)
  {
    hide ExtractSrcIp, LoginFailed;
    count := 0;
    for i := 0 to |group|
      invariant count == SshCount(group[..i], ip, cutoff)
    {
      var g := group[i];
      assert group[..i + 1][..i] == group[..i];
      assert g in group;
      if !FromSshd(g) || g.timestamp < cutoff || !LoginFailed(g.message) {
        continue;
      }
      count := count + 1;
    }
    assert group[..|group|] == group;
  }

  method CollectPorts(group: seq<LogEvent>, ghost ip: string, cutoff: int, own: set<int>) returns (ports: set<int>)
    requires AllKeyed(group, ExtractSrcIp, ip)
    ensures ports == own + PortsSeen(group, ip, cutoff)
  {
    hide ExtractSrcIp, IContains, ParseDpt;
    ports := own;
    for i := 0 to |group|
      invariant ports == own + PortsSeen(group[..i], ip, cutoff)
    {
      var g := group[i];
      assert group[..i + 1] == group[..i] + [g];
      assert g in group;
      if g.timestamp < cutoff || g.logSource != "kernel" || !IContains(g.message, "DPT=") {
        continue;
      }
      var dpt := ParseDpt(g.message);
      if dpt > 0 {
        ports := ports + {dpt};
      }
    }
    assert group[..|group|] == group;
  }

  method FindSession(group: seq<LogEvent>, user: string, cutoff: int, now: int) returns (seen: bool)
    requires AllKeyed(group, LogSource, "sudo")
    ensures seen == SeenBefore(group, user, cutoff, now)
  {
    hide IContains;
    seen := false;
    for i := 0 to |group|
      invariant !seen && !SeenBefore(group[..i], user, cutoff, now)
    {
      var g := group[i];
      assert group[..i + 1] == group[..i] + [g];
      assert g in group;
      if g.timestamp < cutoff || g.timestamp >= now
         || !IContains(g.message, "session opened") || !IContains(g.message, user) {
        continue;
      }
      seen := true;
      assert LogSource(g) == "sudo" && SessionHit(g, user, cutoff, now);
      break;
    }
    assert !seen ==> group[..|group|] == group;
  }

  method CollectServices(group: seq<LogEvent>, ghost ip: string, cutoff: int, own: string)
    returns (services: seq<string>)
    requires AllKeyed(group, ExtractSrcIp, ip)
    ensures Increasing(services)
    ensures forall x :: x in services <==> x in ServicesHit(group, ip, cutoff) || (x == own && own != "")
  {
    hide ExtractSrcIp, AuthFailed, Insert;
    services := if own != "" then [own] else [];
    for i := 0 to |group|
      invariant Increasing(services)
      invariant forall x :: x in services <==> x in ServicesHit(group[..i], ip, cutoff) || (x == own && own != "")
    {
      var g := group[i];
      assert group[..i + 1] == group[..i] + [g];
      assert g in group;
      if g.timestamp < cutoff || !AuthFailed(g.message) {
        continue;
      }
      if g.logSource != "" {
        InsertKeepsOrder(services, g.logSource);
        services := Insert(services, g.logSource);
      }
    }
    assert group[..|group|] == group;
  }

  // ---- The rules ----------------------------------------------------------------

  /** The group of a key, found through one of the two maps. */
  method Lookup(m: map<string, seq<LogEvent>>, v: string,
                ghost snapshot: seq<LogEvent>, ghost from: int, ghost key: LogEvent -> string)
    returns (group: seq<LogEvent>)
    requires Groups(m, snapshot, from, key)
    ensures group == Group(snapshot, from, key, v)
    ensures AllKeyed(group, key, v)
  {
    group := if v in m then m[v] else [];
    assert group == Group(snapshot, from, key, v);
    GroupMembers(snapshot, from, key, v);
  }

  method EvaluateSsh(ev: LogEvent, index: EventIndex, cfg: RuleConfig, ghost snapshot: seq<LogEvent>)
    returns (alert: Option<Alert>)
    requires Indexes(index, snapshot, ev.timestamp)
    ensures alert == NaiveSsh(ev, snapshot, cfg)
  {
    hide ExtractSrcIp, LoginFailed, SshCount, Group, Groups, SshAlert;
    if !FromSshd(ev) || !LoginFailed(ev.message) {
      return None;
    }
    var ip := ExtractSrcIp(ev);
    if ip == "" {
      return None;
    }
    var cutoff := ev.timestamp - cfg.sshWindowSeconds * SECOND;
    var group := Lookup(index.byIp, ip, snapshot, ev.timestamp - DAY, ExtractSrcIp);
    var earlier := CountFailures(group, ip, cutoff);
    SshCountOfGroup(snapshot, ip, ev.timestamp, cfg.sshWindowSeconds * SECOND);
    alert := SshAlert(ev, ip, 1 + earlier, cfg);
  }

  method EvaluateScan(ev: LogEvent, index: EventIndex, cfg: RuleConfig, ghost snapshot: seq<LogEvent>)
    returns (alert: Option<Alert>)
    requires Indexes(index, snapshot, ev.timestamp)
    ensures alert == NaiveScan(ev, snapshot, cfg)
  {
    hide ExtractSrcIp, IContains, PortsSeen, Group, Groups, OwnPort, ScanAlert;
    if ev.logSource != "kernel" || (!IContains(ev.message, "REJECT") && !IContains(ev.message, "DPT=")) {
      return None;
    }
    var ip := ExtractSrcIp(ev);
    if ip == "" {
      return None;
    }
    var cutoff := ev.timestamp - cfg.scanWindowSeconds * SECOND;
    var group := Lookup(index.byIp, ip, snapshot, ev.timestamp - DAY, ExtractSrcIp);
    var ports := CollectPorts(group, ip, cutoff, OwnPort(ev));
    PortsOfGroup(snapshot, ip, ev.timestamp, cfg.scanWindowSeconds * SECOND);
    alert := ScanAlert(ev, ip, |ports|, cfg);
  }

  method EvaluatePriv(ev: LogEvent, index: EventIndex, cfg: RuleConfig, ghost snapshot: seq<LogEvent>)
    returns (alert: Option<Alert>)
    requires Indexes(index, snapshot, ev.timestamp)
    ensures alert == NaivePriv(ev, snapshot, cfg)
  {
    hide IContains, ParseSudoUser, SeenBefore, Group, Groups, PrivAlert;
    if ev.logSource != "sudo" || !IContains(ev.message, "session opened") {
      return None;
    }
    var user := ParseSudoUser(ev.message);
    if user == "" {
      return None;
    }
    var cutoff := ev.timestamp - cfg.privHistoryHours * 3600 * SECOND;
    var group := Lookup(index.bySource, "sudo", snapshot, ev.timestamp - DAY, LogSource);
    var seen := FindSession(group, user, cutoff, ev.timestamp);
    SessionsOfGroup(snapshot, user, ev.timestamp, cfg.privHistoryHours * 3600 * SECOND);
    alert := if seen then None else Some(PrivAlert(ev, user));
  }

  method EvaluateMulti(ev: LogEvent, index: EventIndex, cfg: RuleConfig, ghost snapshot: seq<LogEvent>)
    returns (alert: Option<Alert>)
    requires Indexes(index, snapshot, ev.timestamp)
    ensures alert == NaiveMulti(ev, snapshot, cfg)
  {
    hide ExtractSrcIp, AuthFailed, ServicesHit, Group, Groups, MultiAlert, Increasing;
    if !AuthFailed(ev.message) {
      return None;
    }
    var ip := ExtractSrcIp(ev);
    if ip == "" {
      return None;
    }
    var cutoff := ev.timestamp - cfg.multiWindowSeconds * SECOND;
    var group := Lookup(index.byIp, ip, snapshot, ev.timestamp - DAY, ExtractSrcIp);
    var services := CollectServices(group, ip, cutoff, ev.logSource);
    ServicesOfGroup(snapshot, ip, ev.timestamp, cfg.multiWindowSeconds * SECOND);
    OneOrder(services, InOrder(OwnService(ev) + ServicesHit(group, ip, cutoff)));
    alert := MultiAlert(ev, ip, services, cfg);
  }

  /** Rule number `i`, read through the index, agrees with a scan of the whole snapshot. */
  method Evaluate(i: nat, ev: LogEvent, index: EventIndex, cfg: RuleConfig, ghost snapshot: seq<LogEvent>)
    returns (alert: Option<Alert>)
    requires i < 4 && Indexes(index, snapshot, ev.timestamp)
    ensures alert == Naive(i, ev, snapshot, cfg)
  {
    match i
    case 0 => alert := EvaluateSsh(ev, index, cfg, snapshot);
    case 1 => alert := EvaluateScan(ev, index, cfg, snapshot);
    case 2 => alert := EvaluatePriv(ev, index, cfg, snapshot);
    case _ => alert := EvaluateMulti(ev, index, cfg, snapshot);
  }
}
