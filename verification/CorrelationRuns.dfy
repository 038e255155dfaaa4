/**
 Whole runs of the correlation engine: what a threat proves, what becomes of every alert,
 how attackers are kept apart, and exactly when consensus is reached.
 */
module CorrelationRuns {
  import opened Text
  import opened Events
  import opened Correlation
  import opened StringSets

  datatype Arrival = Arrival(alert: Alert, now: int)

  datatype Trace = Trace(state: State, threats: seq<Threat>)

  function Fired(t: Option<Threat>): seq<Threat> {
    if t.Some? then [t.value] else []
  }

  function Run(arrivals: seq<Arrival>, window: int, threshold: int): Trace {
    if arrivals == [] then Trace(State(map[], 1), [])
    else
      var n := |arrivals| - 1;
      var before := Run(arrivals[..n], window, threshold);
      var (st, threat) := Ingest(before.state, arrivals[n].alert, arrivals[n].now, window, threshold);
      Trace(st, before.threats + Fired(threat))
  }

  /** The evidence the last arrival is tested with. */
  function Gathered(arrivals: seq<Arrival>, window: int, threshold: int): seq<Entry>
    requires arrivals != []
  {
    var n := |arrivals| - 1;
    var last := arrivals[n];
    Gather(Evidence(Run(arrivals[..n], window, threshold).state, SourceIp(last.alert)), last.alert, last.now, window)
  }

  predicate Fires(arrivals: seq<Arrival>, window: int, threshold: int)
    requires arrivals != []
  {
    |Gathered(arrivals, window, threshold)| >= threshold
  }

  /** With a clock in nanoseconds: out of the window means a whole second more than the window allows. */
  lemma ExpiredIff(e: Entry, now: int, window: int)
    ensures Expired(e, now, window) <==>
            if window >= 0 then now - e.time >= (window + 1) * 1_000_000_000
            else now - e.time > window * 1_000_000_000
  {
  }

  function RuleIds(entries: seq<Entry>): (r: seq<string>)
    ensures |r| == |entries| && forall i :: 0 <= i < |entries| ==> r[i] == entries[i].ruleId
  {
    seq(|entries|, i requires 0 <= i < |entries| => entries[i].ruleId)
  }

  /** The rules named in a threat are those of its entries: cutting the text at its commas gives them back. */
  lemma {:induction false} RulesSeenBack(entries: seq<Entry>)
    ensures RulesSeen(entries) == JoinComma(RuleIds(entries))
    ensures entries != [] && Listable(RuleIds(entries)) ==> AtCommas(RulesSeen(entries)) == RuleIds(entries)
  {
    hide AtCommas, Listable;
    if entries != [] {
      var n := |entries| - 1;
      RulesSeenBack(entries[..n]);
      assert RuleIds(entries)[..n] == RuleIds(entries[..n]);
      if Listable(RuleIds(entries)) {
        JoinCommaBack(RuleIds(entries));
      }
    }
  }

  // ---- A threat is a consensus ----------------------------------------------------------

  predicate OnePerNode(entries: seq<Entry>) {
    forall i, j :: 0 <= i < j < |entries| ==> entries[i].node != entries[j].node
  }

  lemma {:induction false} EvictMembers(entries: seq<Entry>, now: int, window: int)
    ensures forall e :: e in Evict(entries, now, window) <==> e in entries && !Expired(e, now, window)
    ensures |Evict(entries, now, window)| <= |entries|
  {
    hide WholeSeconds, Expired;
    if entries != [] {
      var n := |entries| - 1;
      EvictMembers(entries[..n], now, window);
      assert entries == entries[..n] + [entries[n]];
    }
  }

  lemma {:induction false} EvictKeepsOnePerNode(entries: seq<Entry>, now: int, window: int)
    requires OnePerNode(entries)
    ensures OnePerNode(Evict(entries, now, window))
  {
    hide WholeSeconds, Expired;
    if entries != [] {
      var n := |entries| - 1;
      EvictKeepsOnePerNode(entries[..n], now, window);
      EvictMembers(entries[..n], now, window);
      var live := Evict(entries[..n], now, window);
      forall i | 0 <= i < |live|
        ensures live[i].node != entries[n].node
      {
        assert live[i] in entries[..n];
      }
    }
  }

  lemma GatherKeepsOnePerNode(entries: seq<Entry>, a: Alert, now: int, window: int)
    requires OnePerNode(entries)
    ensures OnePerNode(Gather(entries, a, now, window))
    ensures |Gather(entries, a, now, window)| <= |entries| + 1
  {
    EvictMembers(entries, now, window);
    EvictKeepsOnePerNode(entries, now, window);
    var live := Evict(entries, now, window);
    if !Reported(live, a.sourceHost) {
      assert forall i :: 0 <= i < |live| ==> live[i] in live;
    }
  }

  predicate Waiting(entries: seq<Entry>, threshold: int) {
    OnePerNode(entries) && |entries| < threshold
  }

  /** Every stored list names each node once and is still short of the threshold. */
  lemma {:induction false} StoredListsWait(arrivals: seq<Arrival>, window: int, threshold: int, ip: string)
    requires threshold >= 1
    ensures Waiting(Evidence(Run(arrivals, window, threshold).state, ip), threshold)
  {
    if arrivals != [] {
      var n := |arrivals| - 1;
      var last := arrivals[n];
      StoredListsWait(arrivals[..n], window, threshold, ip);
      GatherKeepsOnePerNode(Evidence(Run(arrivals[..n], window, threshold).state, ip), last.alert, last.now, window);
    }
  }

  lemma {:induction false} HighestIsMaximum(entries: seq<Entry>)
    ensures forall e :: e in entries ==> e.severity.Rank() <= Highest(entries).Rank()
    ensures entries != [] ==> exists e :: e in entries && e.severity == Highest(entries)
  {
    if entries != [] {
      var n := |entries| - 1;
      HighestIsMaximum(entries[..n]);
      assert entries == entries[..n] + [entries[n]];
      if entries[n].severity.Rank() <= Highest(entries[..n]).Rank() && entries[..n] == [] {
        assert entries[n].severity == LOW;
      }
    }
  }

  /** What the entries behind a threat look like. */
  ghost predicate Consensus(entries: seq<Entry>, t: Threat, last: Arrival, window: int, threshold: int) {
    && t.ruleId == last.alert.ruleId && AttackerIs(last.alert, t.sourceIp) && t.time == last.now
    && |entries| == threshold && threshold >= 1 && t.nodes == Nodes(entries) && OnePerNode(entries)
    && t.rulesSeen == JoinComma(RuleIds(entries))
    && (forall e :: e in entries ==> !Expired(e, last.now, window) || e == entries[|entries| - 1])
    && entries[|entries| - 1] == Entry(last.alert.sourceHost, last.alert.ruleId, last.alert.severity, last.now)
    && (forall e :: e in entries ==> t.severity.Rank() >= Min(4, e.severity.Rank() + 1))
    && (exists e :: e in entries && t.severity.Rank() == Min(4, e.severity.Rank() + 1))
  }

  function Min(a: int, b: int): int {
    if a < b then a else b
  }

  lemma SeverityIsEscalated(entries: seq<Entry>)
    requires entries != []
    ensures forall e :: e in entries ==> Escalate(Highest(entries)).Rank() >= Min(4, e.severity.Rank() + 1)
    ensures exists e :: e in entries && Escalate(Highest(entries)).Rank() == Min(4, e.severity.Rank() + 1)
  {
    HighestIsMaximum(entries);
    hide Highest;
  }

  /** A list that was short of the threshold can only reach it with the new alert's own entry. */
  lemma ReachedByTheNewAlert(entries: seq<Entry>, a: Alert, now: int, window: int, threshold: int)
    requires Waiting(entries, threshold) && |Gather(entries, a, now, window)| >= threshold
    ensures var after := Gather(entries, a, now, window);
            && |after| == threshold && OnePerNode(after)
            && after[|after| - 1] == Entry(a.sourceHost, a.ruleId, a.severity, now)
            && forall e :: e in after ==> !Expired(e, now, window) || e == after[|after| - 1]
  {
    hide WholeSeconds, Expired, OnePerNode;
    EvictMembers(entries, now, window);
    GatherKeepsOnePerNode(entries, a, now, window);
  }

  /**
   Each threat of a run names exactly `threshold` distinct nodes, the triggering alert
   last and none of the others out of the window; its severity is one above the
   highest contributing one, at most CRITICAL.
   */
  lemma {:induction false} ThreatIsConsensus(arrivals: seq<Arrival>, window: int, threshold: int)
    requires threshold >= 1
    requires arrivals != [] && Fires(arrivals, window, threshold)
    ensures var n := |arrivals| - 1;
            var threats := Run(arrivals, window, threshold).threats;
            && |threats| == |Run(arrivals[..n], window, threshold).threats| + 1
            && Consensus(Gathered(arrivals, window, threshold), threats[|threats| - 1], arrivals[n], window, threshold)
  {
    hide SourceIp, AttackerIs, Gather, WholeSeconds, Expired, OnePerNode, Highest, RulesSeen, Escalate;
    var n := |arrivals| - 1;
    var last := arrivals[n];
    var ip := SourceIp(last.alert);
    StoredListsWait(arrivals[..n], window, threshold, ip);
    ReachedByTheNewAlert(Evidence(Run(arrivals[..n], window, threshold).state, ip),
                         last.alert, last.now, window, threshold);
    SeverityIsEscalated(Gathered(arrivals, window, threshold));
    RulesSeenBack(Gathered(arrivals, window, threshold));
  }

  // ---- Numbers ----------------------------------------------------------------------------

  /** Threats are numbered consecutively from 1 in firing order, across all attackers. */
  lemma {:induction false} ThreatsAreNumberedInOrder(arrivals: seq<Arrival>, window: int, threshold: int)
    ensures var tr := Run(arrivals, window, threshold);
            && tr.state.nextThreat == |tr.threats| + 1
            && forall k :: 0 <= k < |tr.threats| ==> tr.threats[k].number == k + 1
  {
    hide Ingest;
    if arrivals != [] {
      var n := |arrivals| - 1;
      ThreatsAreNumberedInOrder(arrivals[..n], window, threshold);
      IngestNumbers(Run(arrivals[..n], window, threshold).state, arrivals[n].alert, arrivals[n].now, window, threshold);
    }
  }

  lemma IngestNumbers(st: State, a: Alert, now: int, window: int, threshold: int)
    ensures var (after, t) := Ingest(st, a, now, window, threshold);
            && after.nextThreat == st.nextThreat + |Fired(t)|
            && (t.Some? ==> t.value.number == st.nextThreat)
  {
    hide SourceIp, AttackerIs, Gather, Highest, RulesSeen, Escalate;
  }

  // ---- Attackers do not influence each other -------------------------------------------------

  function Project(arrivals: seq<Arrival>, ip: string): seq<Arrival> {
    if arrivals == [] then []
    else
      var n := |arrivals| - 1;
      Project(arrivals[..n], ip) + if AttackerIs(arrivals[n].alert, ip) then [arrivals[n]] else []
  }

  /** The threats about `ip`, without their numbers. */
  function About(threats: seq<Threat>, ip: string): seq<Threat> {
    if threats == [] then []
    else
      var n := |threats| - 1;
      About(threats[..n], ip) + if threats[n].sourceIp == ip then [threats[n].(number := 0)] else []
  }

  lemma IngestElsewhere(st: State, a: Alert, now: int, window: int, threshold: int, ip: string)
    requires SourceIp(a) != ip
    ensures var (after, t) := Ingest(st, a, now, window, threshold);
            Evidence(after, ip) == Evidence(st, ip) && (t.Some? ==> t.value.sourceIp != ip)
  {
    hide SourceIp, AttackerIs, Gather;
  }

  lemma IngestIsLocal(s1: State, s2: State, a: Alert, now: int, window: int, threshold: int)
    requires Evidence(s1, SourceIp(a)) == Evidence(s2, SourceIp(a))
    ensures var ((after1, t1), (after2, t2)) :=
              (Ingest(s1, a, now, window, threshold), Ingest(s2, a, now, window, threshold));
            && Evidence(after1, SourceIp(a)) == Evidence(after2, SourceIp(a))
            && About(Fired(t1), SourceIp(a)) == About(Fired(t2), SourceIp(a))
  {
    hide SourceIp, AttackerIs, Gather;
  }

  lemma {:induction false} AboutConcat(threats: seq<Threat>, t: Option<Threat>, ip: string)
    ensures About(threats + Fired(t), ip) == About(threats, ip) + About(Fired(t), ip)
  {
    if t.Some? {
      assert (threats + [t.value])[..|threats|] == threats;
      assert [t.value][..0] == [];
    } else {
      assert threats + [] == threats;
    }
  }

  /** Running one attacker's alerts alone gives the same evidence and the same threats. */
  lemma {:induction false} AttackersAreIndependent(arrivals: seq<Arrival>, window: int, threshold: int, ip: string)
    ensures var all, alone := Run(arrivals, window, threshold), Run(Project(arrivals, ip), window, threshold);
              && Evidence(all.state, ip) == Evidence(alone.state, ip)
              && About(all.threats, ip) == About(alone.threats, ip)
  {
    hide SourceIp, AttackerIs, Ingest, About, Fired;
    if arrivals != [] {
      var n := |arrivals| - 1;
      var last := arrivals[n];
      AttackersAreIndependent(arrivals[..n], window, threshold, ip);
      var all := Run(arrivals[..n], window, threshold);
      var (_, t) := Ingest(all.state, last.alert, last.now, window, threshold);
      AboutConcat(all.threats, t, ip);
      var mine := Project(arrivals[..n], ip);
      if SourceIp(last.alert) == ip {
        var alone := Run(mine, window, threshold);
        var (_, u) := Ingest(alone.state, last.alert, last.now, window, threshold);
        assert Project(arrivals, ip) == mine + [last];
        assert (mine + [last])[..|mine|] == mine;
        AboutConcat(alone.threats, u, ip);
        IngestIsLocal(all.state, alone.state, last.alert, last.now, window, threshold);
      } else {
        assert Project(arrivals, ip) == mine;
        IngestElsewhere(all.state, last.alert, last.now, window, threshold, ip);
        NothingAbout(t, ip);
      }
    }
  }

  lemma NothingAbout(t: Option<Threat>, ip: string)
    requires t.Some? ==> t.value.sourceIp != ip
    ensures About(Fired(t), ip) == []
  {
  }
}
