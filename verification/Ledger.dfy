/**
 Conservation of evidence.  A ledger follows every alert by its arrival number next to
 the correlation engine; at any time each alert has exactly one fate, and the engine's
 lists and threats are made of exactly the alerts the ledger says.
 */
module Ledgers {
  import opened Correlation
  import opened CorrelationRuns

  datatype Fate = Duplicate | Stored | Evicted | InThreat(number: nat)

  datatype Ledger = Ledger(index: map<string, seq<nat>>, fates: seq<Fate>, groups: seq<seq<nat>>)

  function EntryOf(a: Arrival): Entry {
    Entry(a.alert.sourceHost, a.alert.ruleId, a.alert.severity, a.now)
  }

  predicate Within(ids: seq<nat>, n: nat) {
    forall i :: 0 <= i < |ids| ==> ids[i] < n
  }

  function EntriesOf(arrivals: seq<Arrival>, ids: seq<nat>): (r: seq<Entry>)
    requires Within(ids, |arrivals|)
    ensures |r| == |ids| && forall i :: 0 <= i < |ids| ==> r[i] == EntryOf(arrivals[ids[i]])
  {
    seq(|ids|, i requires 0 <= i < |ids| => EntryOf(arrivals[ids[i]]))
  }

  function Ids(l: Ledger, ip: string): seq<nat> {
    if ip in l.index then l.index[ip] else []
  }

  /** The alerts that survive eviction at time `now`. */
  function Live(arrivals: seq<Arrival>, ids: seq<nat>, now: int, window: int): (r: seq<nat>)
    requires Within(ids, |arrivals|)
    ensures Within(r, |arrivals|) && forall id :: id in r ==> id in ids
  {
    if ids == [] then []
    else
      var n := |ids| - 1;
      Live(arrivals, ids[..n], now, window)
        + if Expired(EntryOf(arrivals[ids[n]]), now, window) then [] else [ids[n]]
  }

  lemma {:induction false} LiveMatchesEvict(arrivals: seq<Arrival>, ids: seq<nat>, now: int, window: int)
    requires Within(ids, |arrivals|)
    ensures EntriesOf(arrivals, Live(arrivals, ids, now, window)) == Evict(EntriesOf(arrivals, ids), now, window)
  {
    hide Expired;
    if ids != [] {
      var n := |ids| - 1;
      LiveMatchesEvict(arrivals, ids[..n], now, window);
      assert EntriesOf(arrivals, ids)[..n] == EntriesOf(arrivals, ids[..n]);
    }
  }

  predicate Ascending(ids: seq<nat>) {
    forall i, j :: 0 <= i < j < |ids| ==> ids[i] < ids[j]
  }

  lemma {:induction false} LiveAscending(arrivals: seq<Arrival>, ids: seq<nat>, now: int, window: int)
    requires Within(ids, |arrivals|) && Ascending(ids)
    ensures Ascending(Live(arrivals, ids, now, window))
  {
    hide Expired;
    if ids != [] {
      var n := |ids| - 1;
      LiveAscending(arrivals, ids[..n], now, window);
      var before := Live(arrivals, ids[..n], now, window);
      forall i | 0 <= i < |before|
        ensures before[i] < ids[n]
      {
        assert before[i] in ids[..n];
      }
    }
  }

  function Mark(fates: seq<Fate>, ids: seq<nat>, f: Fate): (r: seq<Fate>)
    ensures |r| == |fates|
    ensures forall id :: 0 <= id < |fates| ==> r[id] == if id in ids then f else fates[id]
  {
    seq(|fates|, id requires 0 <= id < |fates| => if id in ids then f else fates[id])
  }

  /** Marks what was stored before and is not any more. */
  function MarkGone(fates: seq<Fate>, ids: seq<nat>, live: seq<nat>): (r: seq<Fate>)
    ensures |r| == |fates|
    ensures forall id :: 0 <= id < |fates| ==> r[id] == if id in ids && id !in live then Evicted else fates[id]
  {
    seq(|fates|, id requires 0 <= id < |fates| => if id in ids && id !in live then Evicted else fates[id])
  }

  ghost predicate WithinAll(l: Ledger, n: nat) {
    |l.fates| == n && forall ip :: Within(Ids(l, ip), n)
  }

  /** What the arrival number `|arrivals| - 1` does to the list of its attacker. */
  datatype Step = Step(ids: seq<nat>, live: seq<nat>, duplicate: bool, after: seq<nat>, fires: bool)

  ghost function StepOf(l: Ledger, arrivals: seq<Arrival>, window: int, threshold: int): Step
    requires arrivals != [] && WithinAll(l, |arrivals| - 1)
  {
    var n := |arrivals| - 1;
    var last := arrivals[n];
    var ids := Ids(l, SourceIp(last.alert));
    var live := Live(arrivals, ids, last.now, window);
    var duplicate := Reported(EntriesOf(arrivals, live), last.alert.sourceHost);
    var after := if duplicate then live else live + [n];
    Step(ids, live, duplicate, after, |after| >= threshold)
  }

  ghost function Enter(l: Ledger, arrivals: seq<Arrival>, window: int, threshold: int): Ledger
    requires arrivals != [] && WithinAll(l, |arrivals| - 1)
  {
    var ip := SourceIp(arrivals[|arrivals| - 1].alert);
    var s := StepOf(l, arrivals, window, threshold);
    var fates := MarkGone(l.fates, s.ids, s.live) + [if s.duplicate then Duplicate else Stored];
    if !s.fires then Ledger(l.index[ip := s.after], fates, l.groups)
    else Ledger(l.index - {ip}, Mark(fates, s.after, InThreat(|l.groups| + 1)), l.groups + [s.after])
  }

  function NewFate(l: Ledger, s: Step, n: nat, id: nat): Fate
    requires |l.fates| == n && id <= n
  {
    if s.fires && id in s.after then InThreat(|l.groups| + 1)
    else if id == n then if s.duplicate then Duplicate else Stored
    else if id in s.ids && id !in s.live then Evicted
    else l.fates[id]
  }

  /** The fates after one arrival, one alert at a time. */
  lemma EnterFates(l: Ledger, arrivals: seq<Arrival>, window: int, threshold: int)
    requires arrivals != [] && WithinAll(l, |arrivals| - 1)
    ensures var r, s := Enter(l, arrivals, window, threshold), StepOf(l, arrivals, window, threshold);
            && |r.fates| == |arrivals|
            && forall id :: 0 <= id < |arrivals| ==> r.fates[id] == NewFate(l, s, |arrivals| - 1, id)
  {
    hide StepOf;
  }

  lemma StepFacts(l: Ledger, arrivals: seq<Arrival>, window: int, threshold: int)
    requires arrivals != [] && WithinAll(l, |arrivals| - 1)
    requires Ascending(Ids(l, SourceIp(arrivals[|arrivals| - 1].alert)))
    ensures var s, n := StepOf(l, arrivals, window, threshold), |arrivals| - 1;
            && s.ids == Ids(l, SourceIp(arrivals[n].alert))
            && (forall id :: id in s.live ==> id in s.ids) && (forall id :: id in s.ids ==> id < n)
            && (forall id :: id in s.after <==> id in s.live || (!s.duplicate && id == n))
            && Ascending(s.after) && Within(s.after, |arrivals|)
  {
    hide SourceIp, AttackerIs, Reported;
    var n := |arrivals| - 1;
    var ids := Ids(l, SourceIp(arrivals[n].alert));
    LiveAscending(arrivals, ids, arrivals[n].now, window);
    assert forall id :: id in ids ==> id < n;
    assert forall i :: 0 <= i < |Live(arrivals, ids, arrivals[n].now, window)| ==>
      Live(arrivals, ids, arrivals[n].now, window)[i] in ids;
  }

  // ---- What the ledger guarantees -------------------------------------------------------

  /** A list of stored alerts is complete, ordered and about one attacker. */
  ghost predicate StoredAudit(l: Ledger, arrivals: seq<Arrival>, ip: string) {
    var ids := Ids(l, ip);
    && Within(ids, |arrivals|) && Ascending(ids)
    && |l.fates| == |arrivals|
    && forall id :: 0 <= id < |arrivals| ==>
         (id in ids <==> l.fates[id] == Stored && AttackerIs(arrivals[id].alert, ip))
  }

  /** A threat's group is exactly the alerts whose fate is that threat. */
  ghost predicate GroupAudit(l: Ledger, n: nat, g: nat)
    requires |l.fates| == n && g < |l.groups|
  {
    && Within(l.groups[g], n) && Ascending(l.groups[g])
    && forall id :: 0 <= id < n ==> (id in l.groups[g] <==> l.fates[id] == InThreat(g + 1))
  }

  ghost predicate Audited(l: Ledger, arrivals: seq<Arrival>) {
    && |l.fates| == |arrivals|
    && (forall ip :: StoredAudit(l, arrivals, ip))
    && (forall g :: 0 <= g < |l.groups| ==> GroupAudit(l, |arrivals|, g))
    && (forall id :: 0 <= id < |arrivals| && l.fates[id].InThreat? ==> 1 <= l.fates[id].number <= |l.groups|)
  }

  lemma AuditIsWithin(l: Ledger, arrivals: seq<Arrival>)
    requires Audited(l, arrivals)
    ensures WithinAll(l, |arrivals|)
  {
    forall ip
      ensures Within(Ids(l, ip), |arrivals|)
    {
      assert StoredAudit(l, arrivals, ip);
    }
  }

  lemma EnterKeepsStored(l: Ledger, arrivals: seq<Arrival>, window: int, threshold: int, ip: string)
    requires arrivals != [] && WithinAll(l, |arrivals| - 1)
    requires StoredAudit(l, arrivals[..|arrivals| - 1], ip)
    requires StoredAudit(l, arrivals[..|arrivals| - 1], SourceIp(arrivals[|arrivals| - 1].alert))
    ensures StoredAudit(Enter(l, arrivals, window, threshold), arrivals, ip)
  {
    EnterFates(l, arrivals, window, threshold);
    StepFacts(l, arrivals, window, threshold);
    var r, s := Enter(l, arrivals, window, threshold), StepOf(l, arrivals, window, threshold);
    var n := |arrivals| - 1;
    assert Ids(r, ip) == if ip != SourceIp(arrivals[n].alert) then Ids(l, ip) else if s.fires then [] else s.after;
    hide Enter, StepOf, SourceIp, AttackerIs, Ids;
  }

  lemma EnterKeepsGroups(l: Ledger, arrivals: seq<Arrival>, window: int, threshold: int)
    requires arrivals != [] && Audited(l, arrivals[..|arrivals| - 1]) && WithinAll(l, |arrivals| - 1)
    ensures var r := Enter(l, arrivals, window, threshold);
            && |r.fates| == |arrivals|
            && (forall g :: 0 <= g < |r.groups| ==> GroupAudit(r, |arrivals|, g))
            && (forall id :: 0 <= id < |arrivals| && r.fates[id].InThreat? ==> 1 <= r.fates[id].number <= |r.groups|)
  {
    var n := |arrivals| - 1;
    assert StoredAudit(l, arrivals[..n], SourceIp(arrivals[n].alert));
    EnterFates(l, arrivals, window, threshold);
    StepFacts(l, arrivals, window, threshold);
    var r, s := Enter(l, arrivals, window, threshold), StepOf(l, arrivals, window, threshold);
    assert r.groups == if s.fires then l.groups + [s.after] else l.groups;
    hide Enter, StepOf, SourceIp, AttackerIs, Ids;
    forall g | 0 <= g < |r.groups|
      ensures GroupAudit(r, |arrivals|, g)
    {
      if g < |l.groups| {
        assert GroupAudit(l, n, g);
      }
    }
  }

  ghost function LedgerRun(arrivals: seq<Arrival>, window: int, threshold: int): (l: Ledger)
    ensures Audited(l, arrivals)
  {
    if arrivals == [] then Ledger(map[], [], [])
    else
      var n := |arrivals| - 1;
      var before := LedgerRun(arrivals[..n], window, threshold);
      AuditIsWithin(before, arrivals[..n]);
      EnterKeepsAudit(before, arrivals, window, threshold);
      Enter(before, arrivals, window, threshold)
  }

  lemma EnterKeepsAudit(l: Ledger, arrivals: seq<Arrival>, window: int, threshold: int)
    requires arrivals != [] && Audited(l, arrivals[..|arrivals| - 1]) && WithinAll(l, |arrivals| - 1)
    ensures Audited(Enter(l, arrivals, window, threshold), arrivals)
  {
    hide Enter, SourceIp, AttackerIs, GroupAudit;
    EnterKeepsGroups(l, arrivals, window, threshold);
    var r := Enter(l, arrivals, window, threshold);
    var n := |arrivals| - 1;
    assert StoredAudit(l, arrivals[..n], SourceIp(arrivals[n].alert));
    forall ip
      ensures StoredAudit(r, arrivals, ip)
    {
      assert StoredAudit(l, arrivals[..n], ip);
      EnterKeepsStored(l, arrivals, window, threshold, ip);
    }
  }

  // ---- The ledger is about the engine ------------------------------------------------------

  lemma EntriesOfPrefix(arrivals: seq<Arrival>, n: nat, ids: seq<nat>)
    requires n <= |arrivals| && Within(ids, n)
    ensures EntriesOf(arrivals, ids) == EntriesOf(arrivals[..n], ids)
  {
  }

  ghost predicate Follows(l: Ledger, arrivals: seq<Arrival>, tr: Trace) {
    && Audited(l, arrivals)
    && (forall ip :: Within(Ids(l, ip), |arrivals|) && Evidence(tr.state, ip) == EntriesOf(arrivals, Ids(l, ip)))
    && |l.groups| == |tr.threats|
    && forall g :: 0 <= g < |l.groups| ==>
         Within(l.groups[g], |arrivals|) && tr.threats[g].nodes == Nodes(EntriesOf(arrivals, l.groups[g]))
  }

  /** One step of the ledger gathers the evidence that the engine gathers. */
  lemma StepMatchesGather(l: Ledger, arrivals: seq<Arrival>, window: int, threshold: int)
    requires arrivals != [] && WithinAll(l, |arrivals| - 1)
    ensures var s, last := StepOf(l, arrivals, window, threshold), arrivals[|arrivals| - 1];
            && Within(s.ids, |arrivals|) && Within(s.after, |arrivals|)
            && EntriesOf(arrivals, s.after) == Gather(EntriesOf(arrivals, s.ids), last.alert, last.now, window)
  {
    hide Reported, Evict, Live;
    var n := |arrivals| - 1;
    LiveMatchesEvict(arrivals, Ids(l, SourceIp(arrivals[n].alert)), arrivals[n].now, window);
  }

  lemma EnterFollowsIndex(l: Ledger, arrivals: seq<Arrival>, st: State, window: int, threshold: int, ip: string)
    requires arrivals != [] && WithinAll(l, |arrivals| - 1)
    requires var n := |arrivals| - 1;
             forall x | x in {ip, SourceIp(arrivals[n].alert)} ::
               Evidence(st, x) == EntriesOf(arrivals[..n], Ids(l, x))
    ensures var last := arrivals[|arrivals| - 1];
            var (after, t) := Ingest(st, last.alert, last.now, window, threshold);
            var r, s := Enter(l, arrivals, window, threshold), StepOf(l, arrivals, window, threshold);
            && Within(Ids(r, ip), |arrivals|) && Within(s.after, |arrivals|)
            && Evidence(after, ip) == EntriesOf(arrivals, Ids(r, ip))
            && r.groups == (if t.Some? then l.groups + [s.after] else l.groups)
            && (t.Some? ==> t.value.nodes == Nodes(EntriesOf(arrivals, s.after)))
  {
    hide StepOf, Gather, SourceIp, AttackerIs;
    var n := |arrivals| - 1;
    StepMatchesGather(l, arrivals, window, threshold);
    StepIds(l, arrivals, window, threshold);
    EntriesOfPrefix(arrivals, n, Ids(l, ip));
    EntriesOfPrefix(arrivals, n, Ids(l, SourceIp(arrivals[n].alert)));
  }

  lemma StepIds(l: Ledger, arrivals: seq<Arrival>, window: int, threshold: int)
    requires arrivals != [] && WithinAll(l, |arrivals| - 1)
    ensures var s := StepOf(l, arrivals, window, threshold);
            s.ids == Ids(l, SourceIp(arrivals[|arrivals| - 1].alert)) && s.fires == (|s.after| >= threshold)
  {
  }

  lemma EnterFollows(l: Ledger, arrivals: seq<Arrival>, tr: Trace, window: int, threshold: int)
    requires arrivals != [] && WithinAll(l, |arrivals| - 1)
    requires Follows(l, arrivals[..|arrivals| - 1], tr)
    ensures var last := arrivals[|arrivals| - 1];
            var (st, t) := Ingest(tr.state, last.alert, last.now, window, threshold);
            Follows(Enter(l, arrivals, window, threshold), arrivals, Trace(st, tr.threats + Fired(t)))
  {
    hide Audited, StepOf, SourceIp, AttackerIs, Enter, Ingest, Evidence, Ids;
    EnterKeepsAudit(l, arrivals, window, threshold);
    var n := |arrivals| - 1;
    var last := arrivals[n];
    var (st, t) := Ingest(tr.state, last.alert, last.now, window, threshold);
    var r := Enter(l, arrivals, window, threshold);
    forall ip
      ensures Within(Ids(r, ip), |arrivals|) && Evidence(st, ip) == EntriesOf(arrivals, Ids(r, ip))
    {
      EnterFollowsIndex(l, arrivals, tr.state, window, threshold, ip);
    }
    EnterFollowsIndex(l, arrivals, tr.state, window, threshold, SourceIp(last.alert));
    forall g | 0 <= g < |l.groups|
      ensures Within(l.groups[g], |arrivals|) && tr.threats[g].nodes == Nodes(EntriesOf(arrivals, l.groups[g]))
    {
      EntriesOfPrefix(arrivals, n, l.groups[g]);
    }
  }

  /**
   Every ingested alert has exactly one fate, and the fates are the engine's own lists:
   the stored evidence of an attacker is made of exactly its alerts with fate `Stored`,
   and the nodes of threat number `g + 1` of exactly those with fate `InThreat(g + 1)`.
   */
  lemma {:induction false} EvidenceIsConserved(arrivals: seq<Arrival>, window: int, threshold: int)
    ensures Follows(LedgerRun(arrivals, window, threshold), arrivals, Run(arrivals, window, threshold))
  {
    hide Enter, Ingest, Follows;
    if arrivals == [] {
      NothingYet(window, threshold);
    } else {
      var n := |arrivals| - 1;
      EvidenceIsConserved(arrivals[..n], window, threshold);
      AuditIsWithin(LedgerRun(arrivals[..n], window, threshold), arrivals[..n]);
      EnterFollows(LedgerRun(arrivals[..n], window, threshold), arrivals,
                   Run(arrivals[..n], window, threshold), window, threshold);
    }
  }

  lemma NothingYet(window: int, threshold: int)
    ensures Follows(LedgerRun([], window, threshold), [], Run([], window, threshold))
  {
  }

  lemma EnterIsFinal(l: Ledger, arrivals: seq<Arrival>, window: int, threshold: int, id: nat)
    requires arrivals != [] && Audited(l, arrivals[..|arrivals| - 1]) && WithinAll(l, |arrivals| - 1)
    requires id < |arrivals| - 1 && l.fates[id] != Stored
    ensures var r := Enter(l, arrivals, window, threshold);
            |r.fates| == |arrivals| && r.fates[id] == l.fates[id]
  {
    var n := |arrivals| - 1;
    assert StoredAudit(l, arrivals[..n], SourceIp(arrivals[n].alert));
    hide Audited;
    EnterFates(l, arrivals, window, threshold);
    StepFacts(l, arrivals, window, threshold);
    hide Enter, StepOf, SourceIp, AttackerIs, Ids;
  }

  /** Only `Stored` is a passing state: every other fate is final. */
  lemma {:induction false} FatesAreFinal(arrivals: seq<Arrival>, n: nat, window: int, threshold: int, id: nat)
    requires id < n <= |arrivals|
    ensures LedgerRun(arrivals[..n], window, threshold).fates[id] != Stored ==>
              LedgerRun(arrivals, window, threshold).fates[id]
              == LedgerRun(arrivals[..n], window, threshold).fates[id]
  {
    hide Enter, Audited;
    var m := |arrivals| - 1;
    if n <= m {
      FatesAreFinal(arrivals[..m], n, window, threshold, id);
      assert arrivals[..m][..n] == arrivals[..n];
      var l := LedgerRun(arrivals[..m], window, threshold);
      AuditIsWithin(l, arrivals[..m]);
      if l.fates[id] != Stored {
        EnterIsFinal(l, arrivals, window, threshold, id);
      }
    } else {
      assert arrivals[..n] == arrivals;
    }
  }

  // ---- What the other fates mean -----------------------------------------------------------------

  lemma {:induction false} LiveMembers(arrivals: seq<Arrival>, ids: seq<nat>, now: int, window: int, id: nat)
    requires Within(ids, |arrivals|) && id < |arrivals|
    ensures id in Live(arrivals, ids, now, window) <==> id in ids && !Expired(EntryOf(arrivals[id]), now, window)
  {
    hide Expired;
    if ids != [] {
      var n := |ids| - 1;
      LiveMembers(arrivals, ids[..n], now, window, id);
      assert ids == ids[..n] + [ids[n]];
    }
  }

  /** A later arrival about the same attacker found the alert out of the window. */
  ghost predicate RanOut(arrivals: seq<Arrival>, window: int, id: nat)
    requires id < |arrivals|
  {
    exists m :: id < m < |arrivals| && Outlives(arrivals, window, id, m)
  }

  predicate Outlives(arrivals: seq<Arrival>, window: int, id: nat, m: nat)
    requires id < |arrivals| && m < |arrivals|
  {
    && SourceIp(arrivals[m].alert) == SourceIp(arrivals[id].alert)
    && Expired(EntryOf(arrivals[id]), arrivals[m].now, window)
  }

  /** The node of the alert was in the live evidence when it arrived. */
  predicate WasPresent(arrivals: seq<Arrival>, window: int, threshold: int, id: nat)
    requires id < |arrivals|
  {
    var a := arrivals[id];
    Reported(Evict(Evidence(Run(arrivals[..id], window, threshold).state, SourceIp(a.alert)), a.now, window),
             a.alert.sourceHost)
  }

  /** What the fate of an alert says about the engine and the times of the alerts. */
  ghost predicate Meant(fate: Fate, arrivals: seq<Arrival>, window: int, threshold: int, id: nat)
    requires id < |arrivals|
  {
    && (fate == Duplicate <==> WasPresent(arrivals, window, threshold, id))
    && (fate == Evicted ==> RanOut(arrivals, window, id))
    && (fate == Stored ==> !RanOut(arrivals, window, id))
  }

  lemma MeaningOfOlder(fate: Fate, arrivals: seq<Arrival>, window: int, threshold: int, id: nat)
    requires arrivals != [] && id < |arrivals| - 1
    requires Meant(fate, arrivals[..|arrivals| - 1], window, threshold, id)
    ensures fate == Duplicate <==> WasPresent(arrivals, window, threshold, id)
    ensures fate == Evicted ==> RanOut(arrivals, window, id)
    ensures fate == Stored ==>
      (RanOut(arrivals, window, id) <==> Outlives(arrivals, window, id, |arrivals| - 1))
  {
    var before := arrivals[..|arrivals| - 1];
    assert before[..id] == arrivals[..id];
    hide WasPresent, SourceIp, AttackerIs, Expired;
    assert WasPresent(before, window, threshold, id) == WasPresent(arrivals, window, threshold, id) by {
      SamePresence(before, arrivals, window, threshold, id);
    }
    assert forall m :: id < m < |before| ==>
      Outlives(before, window, id, m) == Outlives(arrivals, window, id, m);
  }

  lemma SamePresence(a: seq<Arrival>, b: seq<Arrival>, window: int, threshold: int, id: nat)
    requires id < |a| && id < |b| && a[id] == b[id] && a[..id] == b[..id]
    ensures WasPresent(a, window, threshold, id) == WasPresent(b, window, threshold, id)
  {
  }

  /** The flag of a step is the engine's. */
  lemma StepPresence(l: Ledger, arrivals: seq<Arrival>, window: int, threshold: int)
    requires arrivals != [] && WithinAll(l, |arrivals| - 1)
    requires var n := |arrivals| - 1;
             Follows(l, arrivals[..n], Run(arrivals[..n], window, threshold))
    ensures StepOf(l, arrivals, window, threshold).duplicate
         == WasPresent(arrivals, window, threshold, |arrivals| - 1)
  {
    hide Reported, Evict, Live, SourceIp, AttackerIs, Run, Audited;
    var n := |arrivals| - 1;
    var ip := SourceIp(arrivals[n].alert);
    LiveMatchesEvict(arrivals, Ids(l, ip), arrivals[n].now, window);
    EntriesOfPrefix(arrivals, n, Ids(l, ip));
  }

  lemma StepLive(l: Ledger, arrivals: seq<Arrival>, window: int, threshold: int, id: nat)
    requires arrivals != [] && WithinAll(l, |arrivals| - 1) && id < |arrivals| - 1
    requires Audited(l, arrivals[..|arrivals| - 1]) && l.fates[id] == Stored
    ensures var s := StepOf(l, arrivals, window, threshold);
            && (id in s.ids <==> SourceIp(arrivals[|arrivals| - 1].alert) == SourceIp(arrivals[id].alert))
            && (id in s.live <==> id in s.ids && !Outlives(arrivals, window, id, |arrivals| - 1))
  {
    hide SourceIp, AttackerIs, Expired, Reported, Live;
    var n := |arrivals| - 1;
    var ip := SourceIp(arrivals[n].alert);
    assert StoredAudit(l, arrivals[..n], ip);
    LiveMembers(arrivals, Ids(l, ip), arrivals[n].now, window, id);
  }

  lemma IdsAreStored(l: Ledger, arrivals: seq<Arrival>, window: int, threshold: int, id: nat)
    requires arrivals != [] && WithinAll(l, |arrivals| - 1) && id < |arrivals| - 1
    requires Audited(l, arrivals[..|arrivals| - 1]) && l.fates[id] != Stored
    ensures var s := StepOf(l, arrivals, window, threshold); id !in s.ids && id !in s.live
  {
    hide SourceIp, AttackerIs, Expired, Reported, Live;
    var n := |arrivals| - 1;
    assert StoredAudit(l, arrivals[..n], SourceIp(arrivals[n].alert));
  }

  /** The new fate of an alert that was not stored is its old one, and that of a stored one follows the step. */
  lemma NewFateOfOlder(l: Ledger, arrivals: seq<Arrival>, window: int, threshold: int, id: nat)
    requires arrivals != [] && WithinAll(l, |arrivals| - 1) && id < |arrivals| - 1
    requires Audited(l, arrivals[..|arrivals| - 1])
    ensures var fate := NewFate(l, StepOf(l, arrivals, window, threshold), |arrivals| - 1, id);
            if l.fates[id] != Stored then fate == l.fates[id]
            else fate.InThreat? || fate == if Outlives(arrivals, window, id, |arrivals| - 1) then Evicted else Stored
    ensures var s := StepOf(l, arrivals, window, threshold);
            l.fates[id] == Stored && Outlives(arrivals, window, id, |arrivals| - 1) ==> id !in s.after
  {
    var n := |arrivals| - 1;
    assert StoredAudit(l, arrivals[..n], SourceIp(arrivals[n].alert));
    StepFacts(l, arrivals, window, threshold);
    hide Audited, StoredAudit;
    if l.fates[id] == Stored {
      StepLive(l, arrivals, window, threshold, id);
      if Outlives(arrivals, window, id, n) {
        OutlivesIsAbout(arrivals, window, id, n);
      }
    } else {
      IdsAreStored(l, arrivals, window, threshold, id);
    }
    hide StepOf, SourceIp, AttackerIs, Outlives, Within, WithinAll;
  }

  lemma OutlivesIsAbout(arrivals: seq<Arrival>, window: int, id: nat, n: nat)
    requires id < |arrivals| && n < |arrivals| && Outlives(arrivals, window, id, n)
    ensures SourceIp(arrivals[n].alert) == SourceIp(arrivals[id].alert)
  {
  }

  lemma OlderKeepsMeaning(l: Ledger, arrivals: seq<Arrival>, window: int, threshold: int, id: nat)
    requires arrivals != [] && WithinAll(l, |arrivals| - 1) && id < |arrivals| - 1
    requires Audited(l, arrivals[..|arrivals| - 1])
    requires Meant(l.fates[id], arrivals[..|arrivals| - 1], window, threshold, id)
    ensures var fate := NewFate(l, StepOf(l, arrivals, window, threshold), |arrivals| - 1, id);
            Meant(fate, arrivals, window, threshold, id)
  {
    NewFateOfOlder(l, arrivals, window, threshold, id);
    MeaningOfOlder(l.fates[id], arrivals, window, threshold, id);
    hide StepOf, NewFate, WasPresent, Audited, Outlives, WithinAll;
  }

  lemma NewestIsMeant(l: Ledger, arrivals: seq<Arrival>, window: int, threshold: int)
    requires arrivals != [] && WithinAll(l, |arrivals| - 1)
    requires var n := |arrivals| - 1;
             Follows(l, arrivals[..n], Run(arrivals[..n], window, threshold))
    ensures var n := |arrivals| - 1;
            Meant(NewFate(l, StepOf(l, arrivals, window, threshold), n, n), arrivals, window, threshold, n)
  {
    var n := |arrivals| - 1;
    assert StoredAudit(l, arrivals[..n], SourceIp(arrivals[n].alert));
    StepFacts(l, arrivals, window, threshold);
    StepPresence(l, arrivals, window, threshold);
    hide StepOf, SourceIp, AttackerIs, WasPresent, Audited, StoredAudit, Follows, WithinAll;
  }

  lemma EnterKeepsMeaning(l: Ledger, arrivals: seq<Arrival>, window: int, threshold: int, id: nat)
    requires arrivals != [] && WithinAll(l, |arrivals| - 1) && id < |arrivals|
    requires var n := |arrivals| - 1;
             Follows(l, arrivals[..n], Run(arrivals[..n], window, threshold))
    requires id < |arrivals| - 1 ==> Meant(l.fates[id], arrivals[..|arrivals| - 1], window, threshold, id)
    ensures var r := Enter(l, arrivals, window, threshold);
            |r.fates| == |arrivals| && Meant(r.fates[id], arrivals, window, threshold, id)
  {
    hide Enter, StepOf, NewFate, Meant, Audited;
    EnterFates(l, arrivals, window, threshold);
    if id < |arrivals| - 1 {
      OlderKeepsMeaning(l, arrivals, window, threshold, id);
    } else {
      NewestIsMeant(l, arrivals, window, threshold);
    }
  }

  /**
   The fates mean what they say.  An alert is a duplicate exactly when the engine's live evidence
   held its node as it arrived; an evicted one was found out of the window by a later arrival about
   the same attacker, and a stored one by none.
   */
  lemma {:induction false} FatesAreMeant(arrivals: seq<Arrival>, window: int, threshold: int, id: nat)
    requires id < |arrivals|
    ensures Meant(LedgerRun(arrivals, window, threshold).fates[id], arrivals, window, threshold, id)
  {
    hide Enter, Follows, Meant, Audited;
    var n := |arrivals| - 1;
    if id < n {
      FatesAreMeant(arrivals[..n], window, threshold, id);
    }
    EvidenceIsConserved(arrivals[..n], window, threshold);
    AuditIsWithin(LedgerRun(arrivals[..n], window, threshold), arrivals[..n]);
    EnterKeepsMeaning(LedgerRun(arrivals[..n], window, threshold), arrivals, window, threshold, id);
  }
}
