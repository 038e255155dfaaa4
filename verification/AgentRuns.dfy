/**
 Whole runs of the agent from its start, in terms of the events alone: which alerts the latest
 event raises, and what they hold.
 */
module AgentRuns {
  import opened Text
  import opened Events
  import opened Rules
  import opened RuleEngines
  import opened Detectors
  import opened RingBuffers
  import opened Verdicts
  import opened StringSets

  const FRESH := NaiveState([], map[], [])

  /** The parsed events under the name of the node. */
  function Stamped(arrivals: seq<Arrival>, nodeId: string): (r: seq<LogEvent>)
    ensures |r| == |arrivals| && forall i :: 0 <= i < |arrivals| ==> r[i] == arrivals[i].ev.(sourceHost := nodeId)
  {
    seq(|arrivals|, i requires 0 <= i < |arrivals| => arrivals[i].ev.(sourceHost := nodeId))
  }

  predicate AllTimed(arrivals: seq<Arrival>) {
    forall a :: a in arrivals ==> |a.clock| == 4
  }

  ghost function StateAfter(arrivals: seq<Arrival>, nodeId: string, cfg: RuleConfig): NaiveState
    requires AllTimed(arrivals)
  {
    NaiveRun(FRESH, arrivals, nodeId, cfg).0
  }

  ghost function AlertsOf(arrivals: seq<Arrival>, nodeId: string, cfg: RuleConfig): seq<Alert>
    requires AllTimed(arrivals)
  {
    NaiveRun(FRESH, arrivals, nodeId, cfg).1
  }

  lemma PrefixTimed(arrivals: seq<Arrival>)
    requires arrivals != [] && AllTimed(arrivals)
    ensures AllTimed(arrivals[..|arrivals| - 1]) && |arrivals[|arrivals| - 1].clock| == 4
  {
    assert arrivals[|arrivals| - 1] in arrivals;
  }

  /** One more event, in terms of the step. */
  lemma RunStep(arrivals: seq<Arrival>, nodeId: string, cfg: RuleConfig)
    requires arrivals != [] && AllTimed(arrivals)
    ensures var n := |arrivals| - 1;
            && AllTimed(arrivals[..n]) && WellTimed(arrivals[n])
            && var (after, more) := NaiveStep(StateAfter(arrivals[..n], nodeId, cfg), arrivals[n], nodeId, cfg);
               && StateAfter(arrivals, nodeId, cfg) == after
               && AlertsOf(arrivals, nodeId, cfg) == AlertsOf(arrivals[..n], nodeId, cfg) + more
  {
    PrefixTimed(arrivals);
    hide NaiveStep;
  }

  /** The history is what arrived, and the log explains the cooldowns. */
  lemma {:induction false} StateOfRun(arrivals: seq<Arrival>, nodeId: string, cfg: RuleConfig)
    requires AllTimed(arrivals)
    ensures var st := StateAfter(arrivals, nodeId, cfg);
            st.history == Stamped(arrivals, nodeId) && Good(st.expiry, st.log)
  {
    hide Good, NaiveRules;
    if arrivals == [] {
      NothingYet();
    } else {
      var n := |arrivals| - 1;
      RunStep(arrivals, nodeId, cfg);
      StateOfRun(arrivals[..n], nodeId, cfg);
      hide StateAfter, AlertsOf;
      var before := StateAfter(arrivals[..n], nodeId, cfg);
      var ev := arrivals[n].ev.(sourceHost := nodeId);
      assert Stamped(arrivals, nodeId) == Stamped(arrivals[..n], nodeId) + [ev];
      RulesKeepGood(4, before.expiry, before.log, ev, LastN(before.history + [ev], RING_CAPACITY), cfg,
                    arrivals[n].clock);
    }
  }

  lemma NothingYet()
    ensures Good(FRESH.expiry, FRESH.log)
  {
  }

  /** The newest 4096 events, the latest one included. */
  function Newest(arrivals: seq<Arrival>, nodeId: string): seq<LogEvent> {
    var events := Stamped(arrivals, nodeId);
    if |events| <= 4096 then events else events[|events| - 4096..]
  }

  /**
   The alerts of the latest event are exactly the candidates of the four rules, judged against the
   newest 4096 events with itself among them, whose rule and source are not in cooldown.
   */
  lemma {:induction false} AgentEmits(arrivals: seq<Arrival>, nodeId: string, cfg: RuleConfig)
    requires arrivals != [] && AllTimed(arrivals)
    ensures var n := |arrivals| - 1;
            var ev := arrivals[n].ev.(sourceHost := nodeId);
            && AllTimed(arrivals[..n]) && |arrivals[n].clock| == 4
            && AlertsOf(arrivals, nodeId, cfg) == AlertsOf(arrivals[..n], nodeId, cfg)
                 + Passing(4, StateAfter(arrivals[..n], nodeId, cfg).log, ev, Newest(arrivals, nodeId), cfg,
                           arrivals[n].clock)
  {
    var n := |arrivals| - 1;
    RunStep(arrivals, nodeId, cfg);
    StateOfRun(arrivals[..n], nodeId, cfg);
    NewestIsLastN(arrivals, nodeId);
    hide StateAfter, AlertsOf, Good, NaiveRules, Passing, Newest, LastN;
    var before := StateAfter(arrivals[..n], nodeId, cfg);
    var ev := arrivals[n].ev.(sourceHost := nodeId);
    StepEmits(4, before.expiry, before.log, ev, Newest(arrivals, nodeId), cfg, arrivals[n].clock);
  }

  lemma NewestIsLastN(arrivals: seq<Arrival>, nodeId: string)
    requires arrivals != []
    ensures var n := |arrivals| - 1;
            LastN(Stamped(arrivals[..n], nodeId) + [arrivals[n].ev.(sourceHost := nodeId)], RING_CAPACITY)
            == Newest(arrivals, nodeId)
  {
    var n := |arrivals| - 1;
    assert Stamped(arrivals, nodeId) == Stamped(arrivals[..n], nodeId) + [arrivals[n].ev.(sourceHost := nodeId)];
  }

  /** The alerts of the latest event. */
  ghost function Raised(arrivals: seq<Arrival>, nodeId: string, cfg: RuleConfig): seq<Alert>
    requires arrivals != [] && AllTimed(arrivals)
  {
    var n := |arrivals| - 1;
    PrefixTimed(arrivals);
    AlertsOf(arrivals, nodeId, cfg)[|AlertsOf(arrivals[..n], nodeId, cfg)|..]
  }

  lemma RaisedIsPassing(arrivals: seq<Arrival>, nodeId: string, cfg: RuleConfig)
    requires arrivals != [] && AllTimed(arrivals)
    ensures var n := |arrivals| - 1;
            && AllTimed(arrivals[..n]) && |arrivals[n].clock| == 4
            && Raised(arrivals, nodeId, cfg) ==
                 Passing(4, StateAfter(arrivals[..n], nodeId, cfg).log, arrivals[n].ev.(sourceHost := nodeId),
                         Newest(arrivals, nodeId), cfg, arrivals[n].clock)
  {
    AgentEmits(arrivals, nodeId, cfg);
    hide StateAfter, AlertsOf, Passing, Newest;
  }

  lemma {:induction false} PassingMembers(n: nat, log: seq<Entry>, ev: LogEvent, snapshot: seq<LogEvent>,
                                          cfg: RuleConfig, clock: seq<Reading>, a: Alert)
    requires n <= 4 == |clock|
    ensures a in Passing(n, log, ev, snapshot, cfg, clock) <==>
              exists i ::
                0 <= i < n && Passes(i, log, ev, snapshot, cfg, clock) && Naive(i, ev, snapshot, cfg) == Some(a)
  {
    hide Naive, Open, Latest, RuleId, SourceOf;
    if n > 0 {
      PassingMembers(n - 1, log, ev, snapshot, cfg, clock, a);
    }
  }

  /** The SSH rule's alert at its own place among the candidates. */
  lemma IdOfCandidate(i: nat, ev: LogEvent, snapshot: seq<LogEvent>, cfg: RuleConfig)
    requires i < 4 && Naive(i, ev, snapshot, cfg).Some?
    ensures Naive(i, ev, snapshot, cfg).value.ruleId == RuleId(i)
    ensures Naive(i, ev, snapshot, cfg).value.sourceHost == ev.sourceHost
  {
    RuleLengths(i);
    hide SshTrigger, ScanTrigger, PrivTrigger, MultiTrigger, SshCount, PortsSeen, SeenBefore, ServicesHit, InOrder,
         Score, ExtractSrcIp, ParseSudoUser, Horizon, OwnPort, OwnService, JoinComma, RuleId;
  }

  /** Whatever the event, its alerts carry the node's name and one of the four rule ids. */
  lemma {:induction false} AlertsNameTheNode(arrivals: seq<Arrival>, nodeId: string, cfg: RuleConfig, a: Alert)
    requires arrivals != [] && AllTimed(arrivals) && a in Raised(arrivals, nodeId, cfg)
    ensures a.sourceHost == nodeId
    ensures a.ruleId in {"SSH_BRUTE_FORCE_001", "PORT_SCAN_001", "PRIV_ESC_001", "MULTI_SERVICE_AUTH_001"}
  {
    hide Raised, Naive, StateAfter, Newest, Passing, RuleId;
    var n := |arrivals| - 1;
    RaisedIsPassing(arrivals, nodeId, cfg);
    var ev := arrivals[n].ev.(sourceHost := nodeId);
    var log := StateAfter(arrivals[..n], nodeId, cfg).log;
    PassingMembers(4, log, ev, Newest(arrivals, nodeId), cfg, arrivals[n].clock, a);
    var i :| 0 <= i < 4 && Passes(i, log, ev, Newest(arrivals, nodeId), cfg, arrivals[n].clock)
             && Naive(i, ev, Newest(arrivals, nodeId), cfg) == Some(a);
    IdOfCandidate(i, ev, Newest(arrivals, nodeId), cfg);
    RuleLengths(i);
  }

  /**
   When the agent raises an SSH alert: the latest event is a login failure from some address, the
   failures from it among the newest 4096 events, counting the event itself once more, reach the
   threshold, and no SSH alert about the address still holds.
   */
  lemma {:induction false} AgentSshIff(arrivals: seq<Arrival>, nodeId: string, cfg: RuleConfig, ip: string)
    requires arrivals != [] && AllTimed(arrivals) && AddressIs(arrivals[|arrivals| - 1].ev, ip)
    ensures var n := |arrivals| - 1;
            var ev := arrivals[n].ev;
            && AllTimed(arrivals[..n]) && |arrivals[n].clock| == 4
            && ((exists a :: a in Raised(arrivals, nodeId, cfg) && a.ruleId == "SSH_BRUTE_FORCE_001") <==>
                  && LoginFailure(ev) && ip != ""
                  && 1 + |FailuresFrom(Newest(arrivals, nodeId), ip, ev.timestamp, cfg.sshWindowSeconds)|
                     >= cfg.sshThreshold
                  && !Open(Latest(StateAfter(arrivals[..n], nodeId, cfg).log, "SSH_BRUTE_FORCE_001", ip),
                           arrivals[n].clock[0].checked))
  {
    var n := |arrivals| - 1;
    RaisedIsPassing(arrivals, nodeId, cfg);
    var ev := arrivals[n].ev.(sourceHost := nodeId);
    SameAddress(arrivals[n].ev, nodeId, ip);
    var log, snapshot := StateAfter(arrivals[..n], nodeId, cfg).log, Newest(arrivals, nodeId);
    SshVerdict(ev, snapshot, cfg, ip);
    hide Raised, StateAfter, Newest, Passing, RuleId, AddressIs, LoginFailure, FailuresFrom, NaiveSsh, NaiveScan,
         NaivePriv, NaiveMulti, Latest, Open;
    RuleLengths(0);
    forall a
      ensures a in Raised(arrivals, nodeId, cfg) && a.ruleId == "SSH_BRUTE_FORCE_001" <==>
              Passes(0, log, ev, snapshot, cfg, arrivals[n].clock) && Naive(0, ev, snapshot, cfg) == Some(a)
    {
      PassingMembers(4, log, ev, snapshot, cfg, arrivals[n].clock, a);
      OnlyTheFirst(log, ev, snapshot, cfg, arrivals[n].clock, a);
    }
    if Passes(0, log, ev, snapshot, cfg, arrivals[n].clock) {
      assert Naive(0, ev, snapshot, cfg).value in Raised(arrivals, nodeId, cfg);
    }
  }

  lemma SameAddress(ev: LogEvent, nodeId: string, ip: string)
    ensures var ev' := ev.(sourceHost := nodeId);
            (AddressIs(ev', ip) <==> AddressIs(ev, ip)) && (LoginFailure(ev') <==> LoginFailure(ev))
  {
    hide TagWord, Mentions;
  }

  lemma OnlyTheFirst(log: seq<Entry>, ev: LogEvent, snapshot: seq<LogEvent>, cfg: RuleConfig,
                     clock: seq<Reading>, a: Alert)
    requires |clock| == 4
    ensures (exists i ::
               0 <= i < 4 && Passes(i, log, ev, snapshot, cfg, clock) && Naive(i, ev, snapshot, cfg) == Some(a))
            && a.ruleId == "SSH_BRUTE_FORCE_001" <==>
            Passes(0, log, ev, snapshot, cfg, clock) && Naive(0, ev, snapshot, cfg) == Some(a)
  {
    hide Naive, Passes, RuleId;
    forall i | 0 <= i < 4 && Naive(i, ev, snapshot, cfg) == Some(a)
      ensures a.ruleId == "SSH_BRUTE_FORCE_001" <==> i == 0
    {
      IdOfCandidate(i, ev, snapshot, cfg);
      RuleLengths(i);
      RuleLengths(0);
      if i > 0 {
        RuleIdsDiffer(i, 0);
      }
    }
  }
}
