/**
 The rule engine: the four rules in turn, each alert filtered by a cooldown per rule and
 source.  A log records what every candidate alert met, so that the cooldown guarantee
 can be stated over a whole run, configuration changes included.
 */
module RuleEngines {
  import opened Text
  import opened Events
  import opened Rules
  import opened EventIndexes

  /** The wall clock is read once to check a cooldown and once more to start a new one. */
  datatype Reading = Reading(checked: int, stamped: int)

  datatype Entry =
    | Emitted(ruleId: string, source: string, checked: int, stamped: int, hold: int)
    | Suppressed(ruleId: string, source: string, checked: int)

  datatype Outcome = Outcome(expiry: map<string, int>, log: seq<Entry>, alerts: seq<Alert>)

  function RuleId(i: nat): string
    requires i < 4
  {
    [SSH_ID, SCAN_ID, PRIV_ID, MULTI_ID][i]
  }

  function Hold(i: nat, cfg: RuleConfig): int
    requires i < 4
  {
    [cfg.sshCooldownSeconds, cfg.scanCooldownSeconds, cfg.privCooldownSeconds, cfg.multiCooldownSeconds][i] * SECOND
  }

  function SourceOf(alert: Alert): (source: string)
    ensures "src_ip" in alert.metadata ==> source == alert.metadata["src_ip"]
    ensures "src_ip" !in alert.metadata ==> source == alert.sourceHost
  {
    if "src_ip" in alert.metadata then alert.metadata["src_ip"] else alert.sourceHost
  }

  function Key(ruleId: string, source: string): string {
    ruleId + ":" + source
  }

  predicate InCooldown(expiry: map<string, int>, key: string, now: int) {
    key in expiry && now < expiry[key]
  }

  /** The fate of one candidate alert. */
  function Admit(o: Outcome, ruleId: string, hold: int, alert: Alert, clock: Reading): Outcome {
    var source := SourceOf(alert);
    var key := Key(ruleId, source);
    if InCooldown(o.expiry, key, clock.checked) then
      o.(log := o.log + [Suppressed(ruleId, source, clock.checked)])
    else
      Outcome(o.expiry[key := clock.stamped + hold],
              o.log + [Emitted(ruleId, source, clock.checked, clock.stamped, hold)],
              o.alerts + [alert])
  }

  /** The first `n` rules of the naive detector, one after the other. */
  ghost function NaiveRules(n: nat, expiry: map<string, int>, log: seq<Entry>, ev: LogEvent,
                            snapshot: seq<LogEvent>, cfg: RuleConfig, clock: seq<Reading>): Outcome
    requires n <= 4 == |clock|
  {
    if n == 0 then Outcome(expiry, log, [])
    else
      var o := NaiveRules(n - 1, expiry, log, ev, snapshot, cfg, clock);
      var candidate := Naive(n - 1, ev, snapshot, cfg);
      if candidate.None? then o
      else Admit(o, RuleId(n - 1), Hold(n - 1, cfg), candidate.value, clock[n - 1])
  }

  class RuleEngine {
    var cfg: RuleConfig
    var cooldowns: map<string, int>
    ghost var log: seq<Entry>

    constructor (cfg: RuleConfig)
      ensures this.cfg == cfg && cooldowns == map[] && log == []
    {
      this.cfg := cfg;
      cooldowns := map[];
      log := [];
    }

    method SetConfig(cfg: RuleConfig)
      modifies this`cfg
      ensures this.cfg == cfg
    {
      this.cfg := cfg;
    }

    /** The index, the four rules and the cooldowns do what the naive detector does. */
    method Process(ev: LogEvent, snapshot: seq<LogEvent>, clock: seq<Reading>) returns (results: seq<Alert>)
      requires |clock| == 4
      modifies this`cooldowns, this`log
      ensures Outcome(cooldowns, log, results)
           == NaiveRules(4, old(cooldowns), old(log), ev, snapshot, cfg, clock)
    {
      hide Indexes, Naive;
      var index := BuildIndex(snapshot, ev.timestamp);
      results := [];
      for i := 0 to 4
        invariant Outcome(cooldowns, log, results)
               == NaiveRules(i, old(cooldowns), old(log), ev, snapshot, cfg, clock)
      {
        var candidate := Evaluate(i, ev, index, cfg, snapshot);
        if candidate.None? {
          continue;
        }
        var alert := candidate.value;
        var source := SourceOf(alert);
        var key := Key(RuleId(i), source);
        if InCooldown(cooldowns, key, clock[i].checked) {
          log := log + [Suppressed(RuleId(i), source, clock[i].checked)];
          continue;
        }
        log := log + [Emitted(RuleId(i), source, clock[i].checked, clock[i].stamped, Hold(i, cfg))];
        cooldowns := cooldowns[key := clock[i].stamped + Hold(i, cfg)];
        results := results + [alert];
      }
    }
  }

  // ---- Runs of one engine -------------------------------------------------------

  datatype Op =
    | Process(ev: LogEvent, snapshot: seq<LogEvent>, clock: seq<Reading>)
    | SetConfig(cfg: RuleConfig)

  datatype State = State(cfg: RuleConfig, expiry: map<string, int>, log: seq<Entry>)

  ghost function Run(cfg: RuleConfig, ops: seq<Op>): State {
    if ops == [] then State(cfg, map[], [])
    else
      var st := Run(cfg, ops[..|ops| - 1]);
      match ops[|ops| - 1]
      case SetConfig(c) => st.(cfg := c)
      case Process(ev, snapshot, clock) =>
        if |clock| != 4 then st
        else
          var o := NaiveRules(4, st.expiry, st.log, ev, snapshot, st.cfg, clock);
          State(st.cfg, o.expiry, o.log)
  }

  // ---- Keys ---------------------------------------------------------------------------

  predicate NoColon(s: string) {
    ':' !in s
  }

  lemma KeyColon(ruleId: string, source: string)
    requires NoColon(ruleId)
    ensures Find(Key(ruleId, source), ":") == Some(|ruleId|)
  {
    var key := Key(ruleId, source);
    assert key[|ruleId|] == ':' && forall j :: 0 <= j < |ruleId| ==> key[j] == ruleId[j];
    FindCharAt(key, ':', 0, |ruleId|);
  }

  /** Rule ids hold no colon, so a key determines both the rule and the source. */
  lemma {:induction false} KeysAreInjective(r1: string, s1: string, r2: string, s2: string)
    requires NoColon(r1) && NoColon(r2)
    ensures Key(r1, s1) == Key(r2, s2) <==> r1 == r2 && s1 == s2
  {
    KeyColon(r1, s1);
    KeyColon(r2, s2);
    assert r1 == Key(r1, s1)[..|r1|] && s1 == Key(r1, s1)[|r1| + 1..];
    assert r2 == Key(r2, s2)[..|r2|] && s2 == Key(r2, s2)[|r2| + 1..];
  }

  // ---- The log explains the cooldown table ----------------------------------------

  predicate Concerns(e: Entry, ruleId: string, source: string) {
    e.Emitted? && e.ruleId == ruleId && e.source == source
  }

  /** The latest alert of one rule about one source. */
  function Latest(log: seq<Entry>, ruleId: string, source: string): Option<Entry> {
    if log == [] then None
    else
      var last := log[|log| - 1];
      if Concerns(last, ruleId, source) then Some(last) else Latest(log[..|log| - 1], ruleId, source)
  }

  /** The cooldown that alert `e` started is still open at time `t`. */
  predicate Open(e: Option<Entry>, t: int) {
    e.Some? && e.value.Emitted? && t < e.value.stamped + e.value.hold
  }

  /** An entry is suppressed exactly when the latest like alert still holds. */
  predicate Justified(before: seq<Entry>, e: Entry) {
    NoColon(e.ruleId) && (e.Suppressed? <==> Open(Latest(before, e.ruleId, e.source), e.checked))
  }

  predicate AllJustified(log: seq<Entry>) {
    log == [] || (AllJustified(log[..|log| - 1]) && Justified(log[..|log| - 1], log[|log| - 1]))
  }

  /** The table holds one expiry for this rule and source: that of the latest alert. */
  predicate ExplainedAt(expiry: map<string, int>, log: seq<Entry>, ruleId: string, source: string) {
    var key, e := Key(ruleId, source), Latest(log, ruleId, source);
    if e.None? then key !in expiry
    else e.value.Emitted? && key in expiry && expiry[key] == e.value.stamped + e.value.hold
  }

  ghost predicate Good(expiry: map<string, int>, log: seq<Entry>) {
    && AllJustified(log)
    && forall r, s :: NoColon(r) ==> ExplainedAt(expiry, log, r, s)
  }

  lemma AdmitExplains(o: Outcome, ruleId: string, hold: int, alert: Alert, clock: Reading, r: string, s: string)
    requires NoColon(ruleId) && NoColon(r) && ExplainedAt(o.expiry, o.log, r, s)
    ensures var o' := Admit(o, ruleId, hold, alert, clock); ExplainedAt(o'.expiry, o'.log, r, s)
  {
    hide Key, NoColon, SourceOf;
    KeysAreInjective(r, s, ruleId, SourceOf(alert));
    var o' := Admit(o, ruleId, hold, alert, clock);
    assert o'.log[..|o'.log| - 1] == o.log;
  }

  lemma {:induction false} AdmitKeepsGood(o: Outcome, ruleId: string, hold: int, alert: Alert, clock: Reading)
    requires Good(o.expiry, o.log) && NoColon(ruleId)
    ensures var o' := Admit(o, ruleId, hold, alert, clock); Good(o'.expiry, o'.log)
  {
    var o' := Admit(o, ruleId, hold, alert, clock);
    forall r, s | NoColon(r)
      ensures ExplainedAt(o'.expiry, o'.log, r, s)
    {
      AdmitExplains(o, ruleId, hold, alert, clock, r, s);
    }
    hide Key, NoColon, SourceOf, ExplainedAt;
    assert o'.log[..|o'.log| - 1] == o.log;
    assert ExplainedAt(o.expiry, o.log, ruleId, SourceOf(alert));
    AdmitIsJust(o, ruleId, hold, alert, clock);
  }

  lemma AdmitIsJust(o: Outcome, ruleId: string, hold: int, alert: Alert, clock: Reading)
    requires NoColon(ruleId) && ExplainedAt(o.expiry, o.log, ruleId, SourceOf(alert))
    ensures var o' := Admit(o, ruleId, hold, alert, clock); Justified(o.log, o'.log[|o.log|])
  {
    hide Key, NoColon, SourceOf, Latest;
  }

  lemma {:induction false} RulesKeepGood(n: nat, expiry: map<string, int>, log: seq<Entry>, ev: LogEvent,
                                         snapshot: seq<LogEvent>, cfg: RuleConfig, clock: seq<Reading>)
    requires n <= 4 == |clock|
    requires Good(expiry, log)
    ensures var o := NaiveRules(n, expiry, log, ev, snapshot, cfg, clock); Good(o.expiry, o.log)
  {
    hide Naive, Good;
    if n > 0 {
      RulesKeepGood(n - 1, expiry, log, ev, snapshot, cfg, clock);
      var candidate := Naive(n - 1, ev, snapshot, cfg);
      if candidate.Some? {
        AdmitKeepsGood(NaiveRules(n - 1, expiry, log, ev, snapshot, cfg, clock),
                       RuleId(n - 1), Hold(n - 1, cfg), candidate.value, clock[n - 1]);
      }
    }
  }

  /** Whatever the engine is fed and however it is reconfigured, the log stays justified. */
  lemma {:induction false} RunIsGood(cfg: RuleConfig, ops: seq<Op>)
    ensures Good(Run(cfg, ops).expiry, Run(cfg, ops).log)
  {
    if ops != [] {
      RunIsGood(cfg, ops[..|ops| - 1]);
      var st := Run(cfg, ops[..|ops| - 1]);
      match ops[|ops| - 1]
      case SetConfig(_) =>
      case Process(ev, snapshot, clock) =>
        if |clock| == 4 {
          RulesKeepGood(4, st.expiry, st.log, ev, snapshot, st.cfg, clock);
        }
    }
  }

  // ---- The cooldown guarantee -------------------------------------------------------

  /** The alerts of one rule about one source, in the order they were emitted. */
  function Emissions(log: seq<Entry>, ruleId: string, source: string): (r: seq<Entry>)
    ensures forall k :: 0 <= k < |r| ==> Concerns(r[k], ruleId, source) && r[k] in log
  {
    if log == [] then []
    else
      var last := log[|log| - 1];
      Emissions(log[..|log| - 1], ruleId, source) + if Concerns(last, ruleId, source) then [last] else []
  }

  lemma {:induction false} LatestEmission(log: seq<Entry>, ruleId: string, source: string)
    ensures var es := Emissions(log, ruleId, source);
            Latest(log, ruleId, source) == if es == [] then None else Some(es[|es| - 1])
  {
    if log != [] {
      LatestEmission(log[..|log| - 1], ruleId, source);
    }
  }

  lemma {:induction false} SpacedInLog(log: seq<Entry>, ruleId: string, source: string, k: nat)
    requires AllJustified(log)
    requires k + 1 < |Emissions(log, ruleId, source)|
    ensures var es := Emissions(log, ruleId, source); es[k + 1].checked >= es[k].stamped + es[k].hold
  {
    hide NoColon;
    var n := |log| - 1;
    if k + 1 < |Emissions(log[..n], ruleId, source)| {
      SpacedInLog(log[..n], ruleId, source, k);
    } else {
      LatestEmission(log[..n], ruleId, source);
    }
  }

  /**
   Two consecutive alerts of one rule about one source are at least as far apart as the
   cooldown that was in force when the earlier one was emitted.
   */
  lemma {:induction false} ConsecutiveAlertsAreSpaced(
      cfg: RuleConfig, ops: seq<Op>, ruleId: string, source: string, k: nat)
    requires k + 1 < |Emissions(Run(cfg, ops).log, ruleId, source)|
    ensures var es := Emissions(Run(cfg, ops).log, ruleId, source);
            es[k + 1].checked >= es[k].stamped + es[k].hold
  {
    RunIsGood(cfg, ops);
    SpacedInLog(Run(cfg, ops).log, ruleId, source, k);
  }

  /** Alert `e` was emitted under cooldown `d`, and the clock ran forward meanwhile. */
  predicate Steady(e: Entry, d: int) {
    e.Emitted? && e.hold == d && e.checked <= e.stamped
  }

  lemma OneMore(n: int, d: int)
    ensures (n + 1) * d == n * d + d
  {
  }

  lemma {:induction false} SpreadInLog(log: seq<Entry>, ruleId: string, source: string, d: int, i: nat, j: nat)
    requires AllJustified(log)
    requires i <= j < |Emissions(log, ruleId, source)|
    requires forall m :: i <= m <= j ==> Steady(Emissions(log, ruleId, source)[m], d)
    ensures var es := Emissions(log, ruleId, source); es[j].stamped - es[i].stamped >= (j - i) * d
    decreases j - i
  {
    hide AllJustified;
    if i < j {
      var es := Emissions(log, ruleId, source);
      SpreadInLog(log, ruleId, source, d, i, j - 1);
      SpacedInLog(log, ruleId, source, j - 1);
      assert Steady(es[j - 1], d) && Steady(es[j], d);
      OneMore(j - 1 - i, d);
    }
  }

  /**
   The alerts number `i` to `i + k - 1`, emitted under the same cooldown `d` by a clock that did not
   run backwards between the two readings of each, and stamped inside an interval of length `T`,
   need `(k - 1) * d <= T`, whatever the configuration and the clock did before and after.
   */
  lemma {:induction false} AlertRateIsBounded(
      cfg: RuleConfig, ops: seq<Op>, ruleId: string, source: string, d: int, i: nat, k: nat, start: int, T: int)
    requires k >= 1 && i + k <= |Emissions(Run(cfg, ops).log, ruleId, source)|
    requires forall m :: i <= m < i + k ==> Steady(Emissions(Run(cfg, ops).log, ruleId, source)[m], d)
    requires start <= Emissions(Run(cfg, ops).log, ruleId, source)[i].stamped
    requires Emissions(Run(cfg, ops).log, ruleId, source)[i + k - 1].stamped <= start + T
    ensures (k - 1) * d <= T
  {
    hide Run, Emissions;
    RunIsGood(cfg, ops);
    SpreadInLog(Run(cfg, ops).log, ruleId, source, d, i, i + k - 1);
  }

  lemma {:induction false} JustifiedAt(log: seq<Entry>, j: nat)
    requires AllJustified(log) && j < |log|
    ensures Justified(log[..j], log[j])
  {
    var n := |log| - 1;
    if j < n {
      JustifiedAt(log[..n], j);
      assert log[..n][..j] == log[..j];
    }
  }

  /**
   A candidate is suppressed exactly when an alert of the same rule and source was
   emitted before it and the cooldown of the latest such alert is still open.
   */
  lemma {:induction false} SuppressionIsJustified(cfg: RuleConfig, ops: seq<Op>, j: nat)
    requires j < |Run(cfg, ops).log|
    ensures var log := Run(cfg, ops).log;
            var es := Emissions(log[..j], log[j].ruleId, log[j].source);
            log[j].Suppressed? <==> es != [] && log[j].checked < es[|es| - 1].stamped + es[|es| - 1].hold
  {
    RunIsGood(cfg, ops);
    hide Run, Latest, Emissions, Key, NoColon, ExplainedAt;
    var log := Run(cfg, ops).log;
    JustifiedAt(log, j);
    LatestEmission(log[..j], log[j].ruleId, log[j].source);
  }

  // ---- Which alerts a step emits ----------------------------------------------------------

  /** The candidate of rule `i` meets no open cooldown of its rule and source. */
  ghost predicate Passes(i: nat, log: seq<Entry>, ev: LogEvent, snapshot: seq<LogEvent>, cfg: RuleConfig,
                         clock: seq<Reading>)
    requires i < 4 == |clock|
  {
    var candidate := Naive(i, ev, snapshot, cfg);
    candidate.Some? && !Open(Latest(log, RuleId(i), SourceOf(candidate.value)), clock[i].checked)
  }

  /** The candidates of the first `n` rules that pass, in the order of the rules. */
  ghost function Passing(n: nat, log: seq<Entry>, ev: LogEvent, snapshot: seq<LogEvent>, cfg: RuleConfig,
                         clock: seq<Reading>): seq<Alert>
    requires n <= 4 == |clock|
  {
    if n == 0 then []
    else
      Passing(n - 1, log, ev, snapshot, cfg, clock)
        + if Passes(n - 1, log, ev, snapshot, cfg, clock) then [Naive(n - 1, ev, snapshot, cfg).value] else []
  }

  lemma RuleIdsDiffer(i: nat, j: nat)
    requires i < 4 && j < 4 && i != j
    ensures RuleId(i) != RuleId(j)
  {
    assert |RuleId(0)| == 19 && |RuleId(1)| == 13 && |RuleId(2)| == 12 && |RuleId(3)| == 22;
  }

  lemma RuleIdsHaveNoColon(i: nat)
    requires i < 4
    ensures NoColon(RuleId(i))
  {
  }

  lemma AdmitLeavesOthers(o: Outcome, i: nat, hold: int, alert: Alert, clock: Reading, j: nat, source: string)
    requires i < j < 4
    ensures Latest(Admit(o, RuleId(i), hold, alert, clock).log, RuleId(j), source) == Latest(o.log, RuleId(j), source)
  {
    RuleIdsDiffer(i, j);
    hide RuleId, Key, SourceOf;
    var o' := Admit(o, RuleId(i), hold, alert, clock);
    assert o'.log[..|o'.log| - 1] == o.log;
  }

  /** What admitting one candidate adds to the alerts, in terms of the log. */
  lemma AdmitEmits(o: Outcome, i: nat, hold: int, alert: Alert, clock: Reading)
    requires i < 4 && Good(o.expiry, o.log)
    ensures Admit(o, RuleId(i), hold, alert, clock).alerts ==
            o.alerts + if Open(Latest(o.log, RuleId(i), SourceOf(alert)), clock.checked) then [] else [alert]
  {
    RuleIdsHaveNoColon(i);
    hide RuleId, Key, SourceOf, Latest, NoColon, AllJustified;
    assert ExplainedAt(o.expiry, o.log, RuleId(i), SourceOf(alert));
  }

  /**
   The alerts of a step are exactly the candidates of the four rules, in their order, for which no
   alert of the same rule and source emitted before the step still holds.
   */
  lemma {:induction false} StepEmits(n: nat, expiry: map<string, int>, log: seq<Entry>, ev: LogEvent,
                                     snapshot: seq<LogEvent>, cfg: RuleConfig, clock: seq<Reading>)
    requires n <= 4 == |clock| && Good(expiry, log)
    ensures var o := NaiveRules(n, expiry, log, ev, snapshot, cfg, clock);
            o.alerts == Passing(n, log, ev, snapshot, cfg, clock)
    ensures forall j, source :: n <= j < 4 ==>
      Latest(NaiveRules(n, expiry, log, ev, snapshot, cfg, clock).log, RuleId(j), source)
      == Latest(log, RuleId(j), source)
  {
    hide Naive, Good, Admit, RuleId, Latest, Open, SourceOf, Hold;
    if n > 0 {
      StepEmits(n - 1, expiry, log, ev, snapshot, cfg, clock);
      RulesKeepGood(n - 1, expiry, log, ev, snapshot, cfg, clock);
      var before := NaiveRules(n - 1, expiry, log, ev, snapshot, cfg, clock);
      var candidate := Naive(n - 1, ev, snapshot, cfg);
      if candidate.Some? {
        AdmitEmits(before, n - 1, Hold(n - 1, cfg), candidate.value, clock[n - 1]);
        forall j, source | n <= j < 4
          ensures Latest(Admit(before, RuleId(n - 1), Hold(n - 1, cfg), candidate.value, clock[n - 1]).log,
                         RuleId(j), source) == Latest(before.log, RuleId(j), source)
        {
          AdmitLeavesOthers(before, n - 1, Hold(n - 1, cfg), candidate.value, clock[n - 1], j, source);
        }
      }
    }
  }

  // ---- Which cooldown is in force --------------------------------------------------------

  /** The entry holds the cooldown that `cfg` gives its rule, told by the text of its rule id. */
  predicate HoldsOf(e: Entry, cfg: RuleConfig) {
    e.Emitted? ==>
      && (e.ruleId == "SSH_BRUTE_FORCE_001" ==> e.hold == cfg.sshCooldownSeconds * 1_000_000_000)
      && (e.ruleId == "PORT_SCAN_001" ==> e.hold == cfg.scanCooldownSeconds * 1_000_000_000)
      && (e.ruleId == "PRIV_ESC_001" ==> e.hold == cfg.privCooldownSeconds * 1_000_000_000)
      && (e.ruleId == "MULTI_SERVICE_AUTH_001" ==> e.hold == cfg.multiCooldownSeconds * 1_000_000_000)
  }

  lemma EntryHolds(i: nat, cfg: RuleConfig, e: Entry)
    requires i < 4 && (e.Emitted? ==> e.ruleId == RuleId(i) && e.hold == Hold(i, cfg))
    ensures HoldsOf(e, cfg)
  {
    RuleLengths(i);
    assert Hold(i, cfg) == [cfg.sshCooldownSeconds, cfg.scanCooldownSeconds, cfg.privCooldownSeconds,
                            cfg.multiCooldownSeconds][i] * 1_000_000_000;
  }

  lemma RuleLengths(i: nat)
    requires i < 4
    ensures RuleId(i) == if i == 0 then "SSH_BRUTE_FORCE_001" else if i == 1 then "PORT_SCAN_001"
                         else if i == 2 then "PRIV_ESC_001" else "MULTI_SERVICE_AUTH_001"
  {
  }

  /** The entry carries the readings of the clock that belong to rule `i`. */
  predicate ReadFor(e: Entry, i: nat, clock: seq<Reading>)
    requires i < 4 == |clock|
  {
    e.checked == clock[i].checked && (e.Emitted? ==> e.stamped == clock[i].stamped)
  }

  /**
   Every entry that a step adds holds the cooldown of its own rule under the step's configuration,
   and the readings of the clock for that rule.
   */
  lemma {:induction false} StepHolds(n: nat, expiry: map<string, int>, log: seq<Entry>, ev: LogEvent,
                                     snapshot: seq<LogEvent>, cfg: RuleConfig, clock: seq<Reading>)
    requires n <= 4 == |clock|
    ensures var more := NaiveRules(n, expiry, log, ev, snapshot, cfg, clock).log;
            && log <= more
            && forall j :: |log| <= j < |more| ==>
                 && HoldsOf(more[j], cfg)
                 && exists i :: 0 <= i < n && more[j].ruleId == RuleId(i) && ReadFor(more[j], i, clock)
  {
    hide Naive, HoldsOf, RuleId, Hold, SourceOf, Key, InCooldown;
    if n > 0 {
      StepHolds(n - 1, expiry, log, ev, snapshot, cfg, clock);
      var before := NaiveRules(n - 1, expiry, log, ev, snapshot, cfg, clock);
      var after := NaiveRules(n, expiry, log, ev, snapshot, cfg, clock);
      if |after.log| > |before.log| {
        EntryHolds(n - 1, cfg, after.log[|before.log|]);
        assert ReadFor(after.log[|before.log|], n - 1, clock);
      }
    }
  }

  /** The configuration in force when entry `j` was added to the log of a run. */
  ghost function InForce(cfg: RuleConfig, ops: seq<Op>, j: nat): RuleConfig
    requires j < |Run(cfg, ops).log|
  {
    var n := |ops| - 1;
    if ops == [] then cfg
    else if j < |Run(cfg, ops[..n]).log| then InForce(cfg, ops[..n], j)
    else Run(cfg, ops[..n]).cfg
  }

  predicate NoSetIn(ops: seq<Op>, from: nat) {
    forall k :: from <= k < |ops| ==> !ops[k].SetConfig?
  }

  /** The configuration of a run is the last one set, or the one it began with. */
  lemma {:induction false} ConfigIsLastSet(cfg: RuleConfig, ops: seq<Op>, i: nat)
    requires i <= |ops| && NoSetIn(ops, i) && (i > 0 ==> ops[i - 1].SetConfig?)
    ensures Run(cfg, ops).cfg == if i > 0 then ops[i - 1].cfg else cfg
  {
    hide NaiveRules;
    if i < |ops| {
      var n := |ops| - 1;
      assert !ops[n].SetConfig?;
      ConfigIsLastSet(cfg, ops[..n], i);
    }
  }

  /** Over any run each emitted alert holds the cooldown of its rule in the configuration then in force. */
  lemma {:induction false} RunHolds(cfg: RuleConfig, ops: seq<Op>, j: nat)
    requires j < |Run(cfg, ops).log|
    ensures HoldsOf(Run(cfg, ops).log[j], InForce(cfg, ops, j))
  {
    hide HoldsOf, NaiveRules;
    if ops != [] {
      var n := |ops| - 1;
      var st := Run(cfg, ops[..n]);
      if ops[n].Process? && |ops[n].clock| == 4 {
        StepHolds(4, st.expiry, st.log, ops[n].ev, ops[n].snapshot, st.cfg, ops[n].clock);
      }
      if j < |st.log| {
        RunHolds(cfg, ops[..n], j);
      }
    }
  }

  /** So alerts are spaced by configured seconds: those in force at the earlier of the two. */
  lemma {:induction false} SpacedByConfiguration(
      cfg: RuleConfig, ops: seq<Op>, ruleId: string, source: string, k: nat)
    requires k + 1 < |Emissions(Run(cfg, ops).log, ruleId, source)|
    ensures var log := Run(cfg, ops).log;
            var es := Emissions(log, ruleId, source);
            && es[k + 1].checked >= es[k].stamped + es[k].hold && es[k].ruleId == ruleId
            && exists j :: 0 <= j < |log| && log[j] == es[k] && HoldsOf(es[k], InForce(cfg, ops, j))
  {
    ConsecutiveAlertsAreSpaced(cfg, ops, ruleId, source, k);
    hide Run, InForce, HoldsOf, Emissions;
    var log := Run(cfg, ops).log;
    var e := Emissions(log, ruleId, source)[k];
    assert e in log;
    var j :| 0 <= j < |log| && log[j] == e;
    RunHolds(cfg, ops, j);
  }
}
