/**
 The coordinator's correlation engine: one list of evidence per attacker IP, at most one
 entry per reporting node, evicted by age, and a threat with a fresh start as soon as
 enough nodes agree.
 */
module Correlation {
  import opened Text
  import opened Events

  datatype Entry = Entry(node: string, ruleId: string, severity: Severity, time: int)

  datatype Threat = Threat(
    number: nat,
    sourceIp: string,
    ruleId: string,
    severity: Severity,
    nodes: seq<string>,
    rulesSeen: string,
    time: int)

  // ---- One alert against one list of evidence -----------------------------------------

  /** `duration_cast<seconds>`, which truncates toward zero. */
  function WholeSeconds(d: int): int {
    if d >= 0 then d / SECOND else -((-d) / SECOND)
  }

  predicate Expired(e: Entry, now: int, window: int) {
    WholeSeconds(now - e.time) > window
  }

  function Evict(entries: seq<Entry>, now: int, window: int): seq<Entry> {
    if entries == [] then []
    else
      var last := entries[|entries| - 1];
      Evict(entries[..|entries| - 1], now, window) + if Expired(last, now, window) then [] else [last]
  }

  predicate Reported(entries: seq<Entry>, node: string) {
    exists e :: e in entries && e.node == node
  }

  /** Whom an alert is about: its `src_ip`, else its `source_ip`, else the reporting host itself. */
  predicate AttackerIs(a: Alert, ip: string) {
    && ("src_ip" in a.metadata ==> a.metadata["src_ip"] == ip)
    && ("src_ip" !in a.metadata && "source_ip" in a.metadata ==> a.metadata["source_ip"] == ip)
    && ("src_ip" !in a.metadata && "source_ip" !in a.metadata ==> a.sourceHost == ip)
  }

  function SourceIp(a: Alert): (ip: string)
    ensures forall x :: AttackerIs(a, x) <==> x == ip
  {
    if "src_ip" in a.metadata then a.metadata["src_ip"]
    else if "source_ip" in a.metadata then a.metadata["source_ip"]
    else a.sourceHost
  }

  /** The evidence after `a` has been looked at, before the threshold is tested. */
  function Gather(entries: seq<Entry>, a: Alert, now: int, window: int): seq<Entry> {
    var live := Evict(entries, now, window);
    if Reported(live, a.sourceHost) then live
    else live + [Entry(a.sourceHost, a.ruleId, a.severity, now)]
  }

  function Nodes(entries: seq<Entry>): (nodes: seq<string>)
    ensures |nodes| == |entries| && forall i :: 0 <= i < |entries| ==> nodes[i] == entries[i].node
  {
    seq(|entries|, i requires 0 <= i < |entries| => entries[i].node)
  }

  function RulesSeen(entries: seq<Entry>): string {
    if entries == [] then ""
    else
      var before := RulesSeen(entries[..|entries| - 1]);
      (if before == "" then "" else before + ",") + entries[|entries| - 1].ruleId
  }

  function Highest(entries: seq<Entry>): Severity {
    if entries == [] then LOW
    else
      var before, last := Highest(entries[..|entries| - 1]), entries[|entries| - 1].severity;
      if last.Rank() > before.Rank() then last else before
  }

  function Escalate(s: Severity): Severity {
    match s
    case LOW => MEDIUM
    case MEDIUM => HIGH
    case HIGH => CRITICAL
    case CRITICAL => CRITICAL
  }

  function ThreatOf(entries: seq<Entry>, a: Alert, now: int, number: nat): Threat {
    Threat(number, SourceIp(a), a.ruleId, Escalate(Highest(entries)), Nodes(entries), RulesSeen(entries), now)
  }

  // ---- The engine -----------------------------------------------------------------------

  datatype State = State(index: map<string, seq<Entry>>, nextThreat: nat)

  function Evidence(st: State, ip: string): seq<Entry> {
    if ip in st.index then st.index[ip] else []
  }

  function Ingest(st: State, a: Alert, now: int, window: int, threshold: int): (State, Option<Threat>) {
    var ip := SourceIp(a);
    var entries := Gather(Evidence(st, ip), a, now, window);
    if |entries| < threshold then (st.(index := st.index[ip := entries]), None)
    else (State(st.index - {ip}, st.nextThreat + 1), Some(ThreatOf(entries, a, now, st.nextThreat)))
  }

  class CorrelationEngine {
    const window: int
    const threshold: int
    var nextThreat: nat
    var index: map<string, seq<Entry>>

    constructor (window: int, threshold: int)
      ensures this.window == window && this.threshold == threshold
      ensures index == map[] && nextThreat == 1
    {
      this.window := window;
      this.threshold := threshold;
      nextThreat := 1;
      index := map[];
    }

    method IngestAlert(a: Alert, now: int) returns (threat: Option<Threat>)
      modifies this
      ensures (State(index, nextThreat), threat)
           == Ingest(old(State(index, nextThreat)), a, now, window, threshold)
    {
      hide SourceIp, AttackerIs, Evict, Reported, Highest, RulesSeen;
      var ip := SourceIp(a);
      var live := DropExpired(if ip in index then index[ip] else [], now);
      var present := HasReported(live, a.sourceHost);
      if !present {
        live := live + [Entry(a.sourceHost, a.ruleId, a.severity, now)];
      }
      index := index[ip := live];
      if |live| < threshold {
        return None;
      }
      var nodes, rulesSeen, highest := Summarise(live);
      threat := Some(Threat(nextThreat, ip, a.ruleId, Escalate(highest), nodes, rulesSeen, now));
      nextThreat := nextThreat + 1;
      index := index - {ip};
      assert index == old(index) - {ip};
    }

    method DropExpired(entries: seq<Entry>, now: int) returns (live: seq<Entry>)
      ensures live == Evict(entries, now, window)
    {
      live := [];
      for i := 0 to |entries|
        invariant live == Evict(entries[..i], now, window)
      {
        assert entries[..i + 1][..i] == entries[..i];
        if !Expired(entries[i], now, window) {
          live := live + [entries[i]];
        }
      }
      assert entries[..|entries|] == entries;
    }

    method HasReported(entries: seq<Entry>, node: string) returns (present: bool)
      ensures present == Reported(entries, node)
    {
      present := false;
      for i := 0 to |entries|
        invariant present == Reported(entries[..i], node)
      {
        assert entries[..i + 1] == entries[..i] + [entries[i]];
        if entries[i].node == node {
          present := true;
        }
      }
      assert entries[..|entries|] == entries;
    }

    method Summarise(entries: seq<Entry>) returns (nodes: seq<string>, rulesSeen: string, highest: Severity)
      ensures nodes == Nodes(entries) && rulesSeen == RulesSeen(entries) && highest == Highest(entries)
    {
      nodes, rulesSeen, highest := [], "", LOW;
      for i := 0 to |entries|
        invariant nodes == Nodes(entries[..i])
        invariant rulesSeen == RulesSeen(entries[..i])
        invariant highest == Highest(entries[..i])
      {
        assert entries[..i + 1][..i] == entries[..i];
        nodes := nodes + [entries[i].node];
        rulesSeen := (if rulesSeen == "" then "" else rulesSeen + ",") + entries[i].ruleId;
        if entries[i].severity.Rank() > highest.Rank() {
          highest := entries[i].severity;
        }
      }
      assert entries[..|entries|] == entries;
    }
  }
}
