/**
 The agent's detection path: every parsed line is stamped with the node id, pushed into
 the ring buffer, and judged against the snapshot that already contains it.
 */
module Detectors {
  import opened Events
  import opened Rules
  import opened RingBuffers
  import opened RuleEngines

  const RING_CAPACITY: nat := 4096

  // ---- The naive detector over a whole run ----------------------------------------

  /** One parsed event with the clock readings of the four rules. */
  datatype Arrival = Arrival(ev: LogEvent, clock: seq<Reading>)

  predicate WellTimed(a: Arrival) {
    |a.clock| == 4
  }

  datatype NaiveState = NaiveState(history: seq<LogEvent>, expiry: map<string, int>, log: seq<Entry>)

  /** No ring and no index: a list of everything seen, of which the newest 4096 are scanned. */
  ghost function NaiveStep(st: NaiveState, a: Arrival, nodeId: string, cfg: RuleConfig): (NaiveState, seq<Alert>)
    requires WellTimed(a)
  {
    var ev := a.ev.(sourceHost := nodeId);
    var history := st.history + [ev];
    var o := NaiveRules(4, st.expiry, st.log, ev, LastN(history, RING_CAPACITY), cfg, a.clock);
    (NaiveState(history, o.expiry, o.log), o.alerts)
  }

  ghost function NaiveRun(st: NaiveState, arrivals: seq<Arrival>, nodeId: string, cfg: RuleConfig)
    : (NaiveState, seq<Alert>)
    requires forall a :: a in arrivals ==> WellTimed(a)
  {
    if arrivals == [] then (st, [])
    else
      var n := |arrivals| - 1;
      var (before, alerts) := NaiveRun(st, arrivals[..n], nodeId, cfg);
      var (after, more) := NaiveStep(before, arrivals[n], nodeId, cfg);
      (after, alerts + more)
  }

  class Agent {
    const nodeId: string
    const ring: RingBuffer<LogEvent>
    const engine: RuleEngine

    ghost predicate Valid()
      reads this, ring, ring.storage, engine
    {
      ring.Valid() && ring.Cap == RING_CAPACITY
    }

    ghost function View(): NaiveState
      reads this, ring, engine
    {
      NaiveState(ring.pushed, engine.cooldowns, engine.log)
    }

    constructor (nodeId: string, cfg: RuleConfig)
      ensures Valid() && fresh(ring) && fresh(ring.storage) && fresh(engine)
      ensures this.nodeId == nodeId && engine.cfg == cfg && View() == NaiveState([], map[], [])
    {
      this.nodeId := nodeId;
      ring := new RingBuffer<LogEvent>(RING_CAPACITY);
      engine := new RuleEngine(cfg);
    }

    /** The tailer callback, from the parsed event on. */
    method OnEvent(a: Arrival) returns (alerts: seq<Alert>)
      requires Valid() && WellTimed(a)
      modifies ring, ring.storage, engine
      ensures Valid() && ring.storage == old(ring.storage) && engine.cfg == old(engine.cfg)
      ensures (View(), alerts) == NaiveStep(old(View()), a, nodeId, old(engine.cfg))
    {
      var ev := a.ev.(sourceHost := nodeId);
      ring.Push(ev);
      var snapshot := ring.Snapshot();
      alerts := engine.Process(ev, snapshot, a.clock);
    }

    /** Over any run the agent emits exactly the alerts of the naive detector. */
    method OnEvents(arrivals: seq<Arrival>) returns (alerts: seq<Alert>)
      requires Valid() && forall a :: a in arrivals ==> WellTimed(a)
      modifies ring, ring.storage, engine
      ensures Valid() && engine.cfg == old(engine.cfg)
      ensures (View(), alerts) == NaiveRun(old(View()), arrivals, nodeId, old(engine.cfg))
    {
      alerts := [];
      for i := 0 to |arrivals|
        invariant Valid() && ring.storage == old(ring.storage) && engine.cfg == old(engine.cfg)
        invariant (View(), alerts) == NaiveRun(old(View()), arrivals[..i], nodeId, old(engine.cfg))
      {
        assert arrivals[..i + 1][..i] == arrivals[..i];
        var more := OnEvent(arrivals[i]);
        alerts := alerts + more;
      }
      assert arrivals[..|arrivals|] == arrivals;
    }
  }

  // ---- Consequences of pushing before looking ---------------------------------------

  /**
   The event is judged against a snapshot that already holds it, so the SSH rule counts
   it twice, once by itself and once among the events it finds, unless the window is negative.
   */
  lemma {:induction false} SshCountsTheEventTwice(history: seq<LogEvent>, ev: LogEvent, cfg: RuleConfig)
    requires SshTrigger(ev)
    ensures var ip, from := ExtractSrcIp(ev), Horizon(ev.timestamp, cfg.sshWindowSeconds * SECOND);
              1 + SshCount(LastN(history + [ev], RING_CAPACITY), ip, from)
              == 1 + (if 0 <= cfg.sshWindowSeconds then 1 else 0)
                   + SshCount(LastN(history, RING_CAPACITY - 1), ip, from)
  {
    hide ExtractSrcIp, LoginFailed;
    var snapshot := LastN(history + [ev], RING_CAPACITY);
    assert snapshot == LastN(history, RING_CAPACITY - 1) + [ev];
    assert snapshot[..|snapshot| - 1] == LastN(history, RING_CAPACITY - 1);
  }

  /** PrivEsc asks for a strictly earlier session, so an event never vouches for itself. */
  lemma {:induction false} SessionDoesNotSeeItself(history: seq<LogEvent>, ev: LogEvent, cfg: RuleConfig)
    ensures NaivePriv(ev, LastN(history + [ev], RING_CAPACITY), cfg)
         == NaivePriv(ev, LastN(history, RING_CAPACITY - 1), cfg)
  {
    hide IContains, ParseSudoUser;
    var before := LastN(history, RING_CAPACITY - 1);
    assert LastN(history + [ev], RING_CAPACITY) == before + [ev];
    var user := ParseSudoUser(ev.message);
    var from := Horizon(ev.timestamp, cfg.privHistoryHours * 3600 * SECOND);
    assert SeenBefore(before + [ev], user, from, ev.timestamp) == SeenBefore(before, user, from, ev.timestamp) by {
      assert !SessionHit(ev, user, from, ev.timestamp);
      assert forall e :: e in before + [ev] <==> e in before || e == ev;
    }
  }
}
