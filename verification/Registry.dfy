/**
 The coordinator's node registry and its watchdog.  Pings, recorded alerts, the
 watchdog's check and its scan are separate critical sections, so a run is any sequence
 of them; what the registry holds is a function of that history.
 */
module Registry {
  import opened Text

  datatype NodeInfo = NodeInfo(hostIp: string, alive: bool, lastSeen: int, firstSeen: int, alertsSent: nat)

  type Nodes = map<string, NodeInfo>

  // ---- The critical sections as functions ---------------------------------------------------

  function PingNode(nodes: Nodes, node: string, ip: string, now: int): Nodes {
    if node !in nodes then nodes[node := NodeInfo(ip, true, now, now, 0)]
    else
      var info := nodes[node];
      nodes[node := info.(lastSeen := now, alive := true, hostIp := if ip != "" then ip else info.hostIp)]
  }

  function Record(nodes: Nodes, node: string): Nodes {
    if node in nodes then nodes[node := nodes[node].(alertsSent := nodes[node].alertsSent + 1)] else nodes
  }

  function Checked(info: NodeInfo, now: int, threshold: int): NodeInfo {
    if info.alive && now - info.lastSeen > threshold then info.(alive := false) else info
  }

  function CheckAll(nodes: Nodes, now: int, threshold: int): Nodes {
    map n | n in nodes :: Checked(nodes[n], now, threshold)
  }

  /** The nodes a scan reports: dead, and not reported since they were last seen alive. */
  function NewlyDead(nodes: Nodes, reported: map<string, bool>): set<string> {
    set n | n in nodes && !nodes[n].alive && !(n in reported && reported[n])
  }

  function AfterScan(nodes: Nodes, reported: map<string, bool>): map<string, bool> {
    map n | n in nodes.Keys + reported.Keys :: if n in nodes then !nodes[n].alive else reported[n]
  }

  // ---- The objects ----------------------------------------------------------------------------

  class NodeRegistry {
    const threshold: int
    var nodes: Nodes

    constructor (threshold: int)
      ensures this.threshold == threshold && nodes == map[]
    {
      this.threshold := threshold;
      nodes := map[];
    }

    method Ping(node: string, ip: string, now: int)
      modifies this
      ensures nodes == PingNode(old(nodes), node, ip, now)
    {
      if node !in nodes {
        nodes := nodes[node := NodeInfo(ip, true, now, now, 0)];
        return;
      }
      var info := nodes[node];
      info := info.(lastSeen := now, alive := true);
      if ip != "" {
        info := info.(hostIp := ip);
      }
      nodes := nodes[node := info];
    }

    method RecordAlert(node: string)
      modifies this
      ensures nodes == Record(old(nodes), node)
    {
      if node in nodes {
        nodes := nodes[node := nodes[node].(alertsSent := nodes[node].alertsSent + 1)];
      }
    }

    /** Marks the silent nodes one by one, in any order. */
    method CheckDeadNodes(now: int)
      modifies this
      ensures nodes == CheckAll(old(nodes), now, threshold)
    {
      ghost var before := nodes;
      var todo := nodes.Keys;
      while todo != {}
        invariant nodes.Keys == before.Keys && todo <= nodes.Keys
        invariant forall n :: n in before ==>
          nodes[n] == if n in todo then before[n] else Checked(before[n], now, threshold)
        decreases todo
      {
        var n :| n in todo;
        todo := todo - {n};
        var info := nodes[n];
        if info.alive && now - info.lastSeen > threshold {
          nodes := nodes[n := info.(alive := false)];
        }
      }
    }

    method AliveCount() returns (count: nat)
      ensures count == |set n | n in nodes && nodes[n].alive|
    {
      count := 0;
      var todo := nodes.Keys;
      ghost var seen := {};
      while todo != {}
        invariant todo <= nodes.Keys
        invariant seen == set n | n in nodes && nodes[n].alive && n !in todo
        invariant count == |seen|
        decreases todo
      {
        var n :| n in todo;
        todo := todo - {n};
        if nodes[n].alive {
          count := count + 1;
          seen := seen + {n};
        }
      }
      assert seen == set n | n in nodes && nodes[n].alive;
    }
  }

  class Watchdog {
    var reported: map<string, bool>

    constructor ()
      ensures reported == map[]
    {
      reported := map[];
    }

    /** The reporting half of a tick, over a copy of the registry. */
    method Scan(nodes: Nodes) returns (reports: set<string>)
      modifies this
      ensures reports == NewlyDead(nodes, old(reported))
      ensures reported == AfterScan(nodes, old(reported))
    {
      reports := {};
      ghost var before := reported;
      var todo := nodes.Keys;
      while todo != {}
        invariant todo <= nodes.Keys
        invariant reports == set n | n in NewlyDead(nodes, before) && n !in todo
        invariant reported.Keys == before.Keys + (nodes.Keys - todo)
        invariant forall n :: n in reported ==>
          reported[n] == if n in nodes && n !in todo then !nodes[n].alive else n in before && before[n]
        decreases todo
      {
        var n :| n in todo;
        todo := todo - {n};
        if nodes[n].alive {
          reported := reported[n := false];
        } else if !(n in reported && reported[n]) {
          reports := reports + {n};
          reported := reported[n := true];
        }
      }
    }
  }

  // ---- Runs -----------------------------------------------------------------------------------

  datatype Op =
    | OpPing(node: string, ip: string, now: int)
    | OpRecord(node: string)
    | OpCheck(now: int)
    | OpScan

  datatype World = World(nodes: Nodes, reported: map<string, bool>)

  function Step(w: World, op: Op, threshold: int): World {
    match op
    case OpPing(node, ip, now) => w.(nodes := PingNode(w.nodes, node, ip, now))
    case OpRecord(node) => w.(nodes := Record(w.nodes, node))
    case OpCheck(now) => w.(nodes := CheckAll(w.nodes, now, threshold))
    case OpScan => w.(reported := AfterScan(w.nodes, w.reported))
  }

  function Run(ops: seq<Op>, threshold: int): World {
    if ops == [] then World(map[], map[])
    else Step(Run(ops[..|ops| - 1], threshold), ops[|ops| - 1], threshold)
  }

  /** The nodes reported dead by operation number `j`. */
  function Reports(ops: seq<Op>, j: nat, threshold: int): set<string>
    requires j < |ops|
  {
    if ops[j] != OpScan then {}
    else
      var w := Run(ops[..j], threshold);
      NewlyDead(w.nodes, w.reported)
  }

  // ---- What the history says ------------------------------------------------------------------

  predicate IsPing(op: Op, node: string) {
    op.OpPing? && op.node == node
  }

  function LastPing(ops: seq<Op>, node: string): Option<int> {
    if ops == [] then None
    else if IsPing(ops[|ops| - 1], node) then Some(ops[|ops| - 1].now)
    else LastPing(ops[..|ops| - 1], node)
  }

  function FirstPing(ops: seq<Op>, node: string): Option<int> {
    if ops == [] then None
    else
      var n := |ops| - 1;
      var first := FirstPing(ops[..n], node);
      if first.None? && IsPing(ops[n], node) then Some(ops[n].now) else first
  }

  /** The latest address a ping of the node named. */
  function LastAddress(ops: seq<Op>, node: string): string {
    if ops == [] then ""
    else
      var n := |ops| - 1;
      if IsPing(ops[n], node) && ops[n].ip != "" then ops[n].ip else LastAddress(ops[..n], node)
  }

  /** The time of the first check since the last ping that found the node silent for too long. */
  function Marked(ops: seq<Op>, node: string, threshold: int): Option<int> {
    if ops == [] then None
    else
      var n := |ops| - 1;
      var before, seen := Marked(ops[..n], node, threshold), LastPing(ops[..n], node);
      if IsPing(ops[n], node) then None
      else if ops[n].OpCheck? && before.None? && seen.Some? && ops[n].now - seen.value > threshold
      then Some(ops[n].now)
      else before
  }

  /** How many alerts of the node were recorded once it was known. */
  function Recorded(ops: seq<Op>, node: string): nat {
    if ops == [] then 0
    else
      var n := |ops| - 1;
      Recorded(ops[..n], node) + if ops[n] == OpRecord(node) && LastPing(ops[..n], node).Some? then 1 else 0
  }

  /** The registry's entry for one node is what the history says. */
  predicate Describes(nodes: Nodes, ops: seq<Op>, node: string, threshold: int) {
    var seen := LastPing(ops, node);
    if seen.None? then
      && node !in nodes && FirstPing(ops, node).None? && LastAddress(ops, node) == ""
      && Marked(ops, node, threshold).None? && Recorded(ops, node) == 0
    else
      && node in nodes && nodes[node].lastSeen == seen.value
      && FirstPing(ops, node) == Some(nodes[node].firstSeen)
      && nodes[node].hostIp == LastAddress(ops, node)
      && nodes[node].alive == Marked(ops, node, threshold).None?
      && nodes[node].alertsSent == Recorded(ops, node)
  }

  lemma {:induction false} RegistryIsHistory(ops: seq<Op>, node: string, threshold: int)
    ensures Describes(Run(ops, threshold).nodes, ops, node, threshold)
  {
    if ops != [] {
      RegistryIsHistory(ops[..|ops| - 1], node, threshold);
    }
  }

  // ---- Death reports ----------------------------------------------------------------------------

  /** Operation `i` is a check that found the node silent for longer than the threshold. */
  predicate FoundSilent(ops: seq<Op>, i: nat, node: string, threshold: int)
    requires i < |ops|
  {
    && ops[i].OpCheck?
    && LastPing(ops[..i], node).Some?
    && ops[i].now - LastPing(ops[..i], node).value > threshold
  }

  predicate NoPingIn(ops: seq<Op>, from: nat, node: string) {
    forall k :: from <= k < |ops| ==> !IsPing(ops[k], node)
  }

  /** Some check found the node silent, and it has not been heard of since. */
  predicate Lost(ops: seq<Op>, node: string, threshold: int) {
    exists i: nat :: i < |ops| && FoundSilent(ops, i, node, threshold) && NoPingIn(ops, i, node)
  }

  lemma {:induction false} MarkedIsLost(ops: seq<Op>, node: string, threshold: int)
    ensures Marked(ops, node, threshold).Some? == Lost(ops, node, threshold)
  {
    if ops != [] {
      var n := |ops| - 1;
      var before := ops[..n];
      MarkedIsLost(before, node, threshold);
      forall i: nat | i < n
        ensures FoundSilent(before, i, node, threshold) == FoundSilent(ops, i, node, threshold)
      {
        assert before[..i] == ops[..i];
      }
      if Lost(before, node, threshold) && !IsPing(ops[n], node) {
        var i: nat :| i < n && FoundSilent(before, i, node, threshold) && NoPingIn(before, i, node);
        assert NoPingIn(ops, i, node);
      }
      if Lost(ops, node, threshold) {
        var i: nat :| i < |ops| && FoundSilent(ops, i, node, threshold) && NoPingIn(ops, i, node);
        assert !IsPing(ops[n], node);
        assert i < n ==> NoPingIn(before, i, node);
      }
      if FoundSilent(ops, n, node, threshold) {
        assert NoPingIn(ops, n, node);
      }
    }
  }

  /** The last ping of a lost node is the one its condemning check looked at. */
  lemma {:induction false} SilenceKeepsLastPing(ops: seq<Op>, i: nat, node: string)
    requires i <= |ops| && NoPingIn(ops, i, node)
    ensures LastPing(ops, node) == LastPing(ops[..i], node)
  {
    if i < |ops| {
      var before := ops[..|ops| - 1];
      assert !IsPing(ops[|ops| - 1], node);
      assert before[..i] == ops[..i];
      SilenceKeepsLastPing(before, i, node);
    } else {
      assert ops[..i] == ops;
    }
  }

  /** Whether the latest scan saw the node dead. */
  predicate SeenDead(ops: seq<Op>, node: string, threshold: int) {
    ops != [] &&
      var before := ops[..|ops| - 1];
      if ops[|ops| - 1] == OpScan then Marked(before, node, threshold).Some?
      else SeenDead(before, node, threshold)
  }

  lemma {:induction false} UnknownWasNeverSeenDead(ops: seq<Op>, node: string, threshold: int)
    requires LastPing(ops, node).None?
    ensures !SeenDead(ops, node, threshold)
  {
    if ops != [] {
      UnknownWasNeverSeenDead(ops[..|ops| - 1], node, threshold);
      RegistryIsHistory(ops[..|ops| - 1], node, threshold);
    }
  }

  lemma {:induction false} FlagIsSeenDead(ops: seq<Op>, node: string, threshold: int)
    ensures var reported := Run(ops, threshold).reported;
            (node in reported && reported[node]) == SeenDead(ops, node, threshold)
  {
    if ops != [] {
      var before := ops[..|ops| - 1];
      FlagIsSeenDead(before, node, threshold);
      RegistryIsHistory(before, node, threshold);
      if LastPing(before, node).None? {
        UnknownWasNeverSeenDead(before, node, threshold);
      }
    }
  }

  /**
   Exactly when a scan reports a node: it is lost, and the scan before did not already see it
   dead.
   */
  lemma {:induction false} ReportedIff(ops: seq<Op>, j: nat, node: string, threshold: int)
    requires j < |ops|
    ensures node in Reports(ops, j, threshold) <==>
        ops[j] == OpScan && Lost(ops[..j], node, threshold) && !SeenDead(ops[..j], node, threshold)
  {
    RegistryIsHistory(ops[..j], node, threshold);
    FlagIsSeenDead(ops[..j], node, threshold);
    MarkedIsLost(ops[..j], node, threshold);
  }

  /**
   The `last_seen` a report shows is the time of the node's last ping, and lies more than the
   threshold before an earlier check, since when no ping of the node arrived.
   */
  lemma {:induction false} ReportsAreEarned(ops: seq<Op>, j: nat, node: string, threshold: int)
    requires j < |ops| && node in Reports(ops, j, threshold)
    ensures node in Run(ops[..j], threshold).nodes
    ensures exists i: nat ::
        && i < j && ops[i].OpCheck?
        && ops[i].now - Run(ops[..j], threshold).nodes[node].lastSeen > threshold
        && NoPingIn(ops[..j], i, node)
  {
    ReportedIff(ops, j, node, threshold);
    RegistryIsHistory(ops[..j], node, threshold);
    var i: nat :| i < j && FoundSilent(ops[..j], i, node, threshold) && NoPingIn(ops[..j], i, node);
    SilenceKeepsLastPing(ops[..j], i, node);
    assert ops[..j][i] == ops[i];
  }

  lemma {:induction false} StaysSeenDead(ops: seq<Op>, i: nat, node: string, threshold: int)
    requires i < |ops| && NoPingIn(ops, i, node)
    requires ops[i] == OpScan && Marked(ops[..i], node, threshold).Some?
    ensures SeenDead(ops, node, threshold) && Marked(ops, node, threshold).Some?
  {
    var before := ops[..|ops| - 1];
    assert !IsPing(ops[|ops| - 1], node);
    if i < |ops| - 1 {
      assert before[..i] == ops[..i];
      StaysSeenDead(before, i, node, threshold);
    }
  }

  /** Between two reports of a node there is a ping of it. */
  lemma {:induction false} APingSeparatesReports(ops: seq<Op>, i: nat, j: nat, node: string, threshold: int)
    requires i < j < |ops|
    requires node in Reports(ops, i, threshold) && node in Reports(ops, j, threshold)
    ensures exists k :: i < k < j && IsPing(ops[k], node)
  {
    if NoPingIn(ops[..j], i, node) {
      ReportedIff(ops, i, node, threshold);
      ReportedIff(ops, j, node, threshold);
      MarkedIsLost(ops[..i], node, threshold);
      assert ops[..j][..i] == ops[..i];
      StaysSeenDead(ops[..j], i, node, threshold);
    } else {
      var k :| i <= k < j && IsPing(ops[k], node);
      assert ops[i] == OpScan;
    }
  }

  predicate NoScanIn(ops: seq<Op>, from: nat) {
    forall k :: from <= k < |ops| ==> ops[k] != OpScan
  }

  /** What a report at `j` depends on: only on what the nearest earlier scan saw. */
  lemma {:induction false} SeenDeadAtLastScan(ops: seq<Op>, i: nat, node: string, threshold: int)
    requires i < |ops| && ops[i] == OpScan && NoScanIn(ops, i + 1)
    ensures SeenDead(ops, node, threshold) == Lost(ops[..i], node, threshold)
  {
    if i == |ops| - 1 {
      MarkedIsLost(ops[..i], node, threshold);
    } else {
      assert ops[|ops| - 1] != OpScan;
      assert ops[..|ops| - 1][..i] == ops[..i];
      SeenDeadAtLastScan(ops[..|ops| - 1], i, node, threshold);
    }
  }

  lemma {:induction false} NoScanNothingSeen(ops: seq<Op>, node: string, threshold: int)
    requires NoScanIn(ops, 0)
    ensures !SeenDead(ops, node, threshold)
  {
    if ops != [] {
      NoScanNothingSeen(ops[..|ops| - 1], node, threshold);
    }
  }

  /**
   The converse of `APingSeparatesReports` fails: a node that was reported, came back and fell
   silent again before the next scan is lost, but not reported a second time.  With a threshold
   of 30 s and a tick every 10 s this takes a stalled thread or a step of the wall clock;
   `LossIsReportedIff` is the exact condition on the schedule, and `EachLossIsReportedOnce` says
   that a watchdog that keeps its pace misses nothing.
   */
  lemma {:induction false} SecondDeathCanBeMissed()
    ensures var ops := [OpPing("n", "", 0), OpCheck(31), OpScan, OpPing("n", "", 32), OpCheck(63), OpScan];
            && "n" in Reports(ops, 2, 30)
            && Lost(ops[..5], "n", 30)
            && "n" !in Reports(ops, 5, 30)
  {
    var ops := [OpPing("n", "", 0), OpCheck(31), OpScan, OpPing("n", "", 32), OpCheck(63), OpScan];
    hide Reports, Run;
    assert FoundSilent(ops[..2], 1, "n", 30) && NoPingIn(ops[..2], 1, "n") by {
      assert ops[..2][..1] == [ops[0]];
    }
    assert FoundSilent(ops[..5], 4, "n", 30) && NoPingIn(ops[..5], 4, "n") by {
      assert ops[..5][..4] == [ops[0], ops[1], ops[2], ops[3]];
    }
    NoScanNothingSeen(ops[..2], "n", 30);
    assert ops[..5][..2] == ops[..2];
    SeenDeadAtLastScan(ops[..5], 2, "n", 30);
    ReportedIff(ops, 2, "n", 30);
    ReportedIff(ops, 5, "n", 30);
  }

  // ---- A watchdog that keeps its pace ---------------------------------------------------------------

  /** Times do not run backwards from one ping or check to a later one. */
  predicate Forward(ops: seq<Op>) {
    forall i, j :: 0 <= i < j < |ops| && (ops[i].OpPing? || ops[i].OpCheck?) && (ops[j].OpPing? || ops[j].OpCheck?)
      ==> ops[i].now <= ops[j].now
  }

  /** Successive checks are at most the threshold apart, with a scan between them. */
  predicate Paced(ops: seq<Op>, threshold: int) {
    forall i, j :: 0 <= i < j < |ops| && ops[i].OpCheck? && ops[j].OpCheck? && NoCheckIn(ops[..j], i + 1)
      ==> ops[j].now - ops[i].now <= threshold && !NoScanIn(ops[..j], i + 1)
  }

  predicate NoCheckIn(ops: seq<Op>, from: nat) {
    forall k :: from <= k < |ops| ==> !ops[k].OpCheck?
  }

  lemma {:induction false} LatestCheck(ops: seq<Op>) returns (c: Option<nat>)
    ensures c.None? ==> NoCheckIn(ops, 0)
    ensures c.Some? ==> c.value < |ops| && ops[c.value].OpCheck? && NoCheckIn(ops, c.value + 1)
  {
    if ops == [] {
      return None;
    }
    var n := |ops| - 1;
    if ops[n].OpCheck? {
      return Some(n);
    }
    c := LatestCheck(ops[..n]);
    assert forall k :: 0 <= k < n ==> ops[..n][k] == ops[k];
  }

  lemma {:induction false} LatestScan(ops: seq<Op>) returns (s: Option<nat>)
    ensures s.None? ==> NoScanIn(ops, 0)
    ensures s.Some? ==> s.value < |ops| && ops[s.value] == OpScan && NoScanIn(ops, s.value + 1)
  {
    if ops == [] {
      return None;
    }
    var n := |ops| - 1;
    if ops[n] == OpScan {
      return Some(n);
    }
    s := LatestScan(ops[..n]);
    assert forall k :: 0 <= k < n ==> ops[..n][k] == ops[k];
  }

  /** A node that was pinged after a check is not found silent by the next one. */
  lemma PingedInTime(ops: seq<Op>, c: nat, p: nat, i: nat, node: string, threshold: int)
    requires Forward(ops) && Paced(ops, threshold)
    requires c < p < i < |ops| && ops[c].OpCheck? && NoCheckIn(ops[..i], c + 1)
    requires IsPing(ops[p], node) && NoPingIn(ops[..i], p + 1, node)
    ensures !FoundSilent(ops, i, node, threshold)
  {
    if ops[i].OpCheck? {
      SilenceKeepsLastPing(ops[..i], p + 1, node);
      assert ops[..i][..p + 1] == ops[..p + 1];
      assert LastPing(ops[..p + 1], node) == Some(ops[p].now);
    }
  }

  lemma ScanBetween(ops: seq<Op>, c: nat, i: nat, threshold: int)
    requires Paced(ops, threshold)
    requires c < i < |ops| && ops[c].OpCheck? && ops[i].OpCheck? && NoCheckIn(ops[..i], c + 1)
    ensures exists s :: c < s < i && ops[s] == OpScan
  {
    assert !NoScanIn(ops[..i], c + 1);
  }

  /** If a ping since the last scan did not keep the node from being lost, it was not lost at that scan. */
  lemma NotLostBefore(ops: seq<Op>, s: nat, p: nat, i: nat, node: string, threshold: int)
    requires Forward(ops) && Paced(ops, threshold)
    requires s < p < i < |ops| && ops[s] == OpScan && NoScanIn(ops[..i], s + 1)
    requires IsPing(ops[p], node) && NoPingIn(ops[..i], p + 1, node)
    requires FoundSilent(ops, i, node, threshold)
    ensures !Lost(ops[..s], node, threshold)
  {
    var c := LatestCheck(ops[..i]);
    if c.Some? {
      ScanBetween(ops, c.value, i, threshold);
      var t :| c.value < t < i && ops[t] == OpScan;
      assert t <= s by {
        assert ops[..i][t] == OpScan;
      }
      PingedInTime(ops, c.value, p, i, node, threshold);
    } else {
      forall k: nat | k < s
        ensures !FoundSilent(ops[..s], k, node, threshold)
      {
        assert ops[..i][k] == ops[k];
      }
    }
  }

  lemma FoundInPrefix(ops: seq<Op>, n: nat, node: string, threshold: int)
    requires n <= |ops|
    ensures forall k: nat :: k < n ==>
              FoundSilent(ops[..n], k, node, threshold) == FoundSilent(ops, k, node, threshold)
  {
    forall k: nat | k < n
      ensures FoundSilent(ops[..n], k, node, threshold) == FoundSilent(ops, k, node, threshold)
    {
      assert ops[..n][..k] == ops[..k];
    }
  }

  /** Check `i` is the first after the ping at `p` to find the node silent. */
  predicate FirstSilent(ops: seq<Op>, p: nat, i: nat, node: string, threshold: int)
    requires i < |ops|
  {
    p < i && FoundSilent(ops, i, node, threshold) && forall c :: p < c < i ==> !FoundSilent(ops, c, node, threshold)
  }

  /** A node lost since its ping at `p` was first found silent at some check after it. */
  lemma {:induction false} FirstFound(ops: seq<Op>, p: nat, n: nat, node: string, threshold: int) returns (i: nat)
    requires p < n <= |ops| && IsPing(ops[p], node) && Lost(ops[..n], node, threshold)
    ensures i < n && FirstSilent(ops, p, i, node, threshold)
  {
    hide Lost, FoundSilent;
    LostAfterPing(ops, p, n, node, threshold);
    i :| p < i < n && FoundSilent(ops, i, node, threshold);
    while exists c :: p < c < i && FoundSilent(ops, c, node, threshold)
      invariant p < i < n && FoundSilent(ops, i, node, threshold)
      decreases i
    {
      var c :| p < c < i && FoundSilent(ops, c, node, threshold);
      i := c;
    }
  }

  lemma LostAfterPing(ops: seq<Op>, p: nat, n: nat, node: string, threshold: int)
    requires p < n <= |ops| && IsPing(ops[p], node) && Lost(ops[..n], node, threshold)
    ensures exists i: nat :: p < i < n && FoundSilent(ops, i, node, threshold)
  {
    FoundInPrefix(ops, n, node, threshold);
    var i: nat :| i < n && FoundSilent(ops[..n], i, node, threshold) && NoPingIn(ops[..n], i, node);
    assert ops[..n][p] == ops[p] && ops[..n][i].OpCheck?;
  }

  lemma {:induction false} FirstScan(ops: seq<Op>, i: nat, j: nat) returns (k: nat)
    requires i < j < |ops| && ops[j] == OpScan
    ensures i < k <= j && ops[k] == OpScan && NoScanIn(ops[..k], i + 1)
  {
    k := i + 1;
    while ops[k] != OpScan
      invariant i < k <= j && NoScanIn(ops[..k], i + 1)
      decreases j - k
    {
      k := k + 1;
    }
  }

  /** Some scan between the ping at `p` and index `i` saw the node alive again. */
  predicate ScanIn(ops: seq<Op>, p: nat, i: nat)
    requires i <= |ops|
  {
    exists s :: p < s < i && ops[s] == OpScan
  }

  /**
   The first scan after the check that found the node silent reports it exactly when some scan saw
   it alive since the ping, or the last scan before the ping had not seen it dead.
   */
  lemma FirstScanReportsIff(ops: seq<Op>, p: nat, i: nat, k: nat, node: string, threshold: int)
    requires p < i < k < |ops| && IsPing(ops[p], node) && NoPingIn(ops[..k], p + 1, node)
    requires FirstSilent(ops, p, i, node, threshold)
    requires ops[k] == OpScan && NoScanIn(ops[..k], i + 1)
    ensures Lost(ops[..k], node, threshold)
    ensures node in Reports(ops, k, threshold) <==> ScanIn(ops, p, i) || !SeenDead(ops[..p], node, threshold)
  {
    LostAt(ops, i, k, node, threshold);
    ReportedIff(ops, k, node, threshold);
    hide Lost, Reports, SeenDead, FoundSilent;
    var s := LatestScan(ops[..k]);
    if s.None? {
      NoScanNothingSeen(ops[..k], node, threshold);
      NoScanNothingSeen(ops[..p], node, threshold);
    } else {
      SeenDeadAtLastScan(ops[..k], s.value, node, threshold);
      assert ops[..k][..s.value] == ops[..s.value] && s.value < i && s.value != p;
      if s.value < p {
        assert forall m :: s.value < m < i ==> ops[..k][m] == ops[m];
        assert ops[..p][..s.value] == ops[..s.value];
        SeenDeadAtLastScan(ops[..p], s.value, node, threshold);
      } else if Lost(ops[..s.value], node, threshold) {
        LostAfterPing(ops, p, s.value, node, threshold);
      }
    }
  }

  lemma LostAt(ops: seq<Op>, i: nat, k: nat, node: string, threshold: int)
    requires i < k <= |ops| && FoundSilent(ops, i, node, threshold) && NoPingIn(ops[..k], i + 1, node)
    ensures Lost(ops[..k], node, threshold)
  {
    FoundInPrefix(ops, k, node, threshold);
    assert NoPingIn(ops[..k], i, node);
  }

  /** A scan that saw a loss and did not report it silences the later ones too, until the next ping. */
  lemma OnlyTheFirstScanReports(ops: seq<Op>, p: nat, i: nat, k: nat, m: nat, node: string, threshold: int)
    requires p < i < k < |ops| && IsPing(ops[p], node) && FirstSilent(ops, p, i, node, threshold)
    requires ops[k] == OpScan && NoScanIn(ops[..k], i + 1) && Lost(ops[..k], node, threshold)
    requires p < m < |ops| && NoPingIn(ops[..m], p + 1, node)
    requires node in Reports(ops, m, threshold)
    ensures m == k
  {
    ReportedIff(ops, m, node, threshold);
    hide FoundSilent, Reports;
    LostAfterPing(ops, p, m, node, threshold);
    assert forall x :: 0 <= x < k ==> ops[..k][x] == ops[x];
    if k < m {
      MarkedIsLost(ops[..k], node, threshold);
      assert ops[..m][..k] == ops[..k];
      assert NoPingIn(ops[..m], k, node);
      StaysSeenDead(ops[..m], k, node, threshold);
    }
  }

  /**
   The exact condition on any schedule: a loss after the ping at `p`, first found at check `i` and
   seen by the scan at `j`, has been reported by then exactly when some scan between the ping and
   the check saw the node alive, or the last scan before the ping had not seen it dead.  It is
   never reported twice.
   */
  lemma {:induction false} LossIsReportedIff(ops: seq<Op>, p: nat, i: nat, j: nat, node: string, threshold: int)
    requires p < i < j < |ops| && ops[j] == OpScan
    requires IsPing(ops[p], node) && NoPingIn(ops[..j], p + 1, node)
    requires FirstSilent(ops, p, i, node, threshold)
    ensures (exists k :: p < k <= j && node in Reports(ops, k, threshold))
       <==> ScanIn(ops, p, i) || !SeenDead(ops[..p], node, threshold)
    ensures forall k, m ::
      p < k <= j && p < m <= j && node in Reports(ops, k, threshold) && node in Reports(ops, m, threshold) ==> k == m
  {
    hide Lost, Reports, FirstSilent, SeenDead;
    var k := FirstScan(ops, i, j);
    assert forall x :: 0 <= x < k ==> ops[..k][x] == ops[..j][x];
    FirstScanReportsIff(ops, p, i, k, node, threshold);
    forall m | p < m <= j && node in Reports(ops, m, threshold)
      ensures m == k
    {
      assert forall x :: 0 <= x < m ==> ops[..m][x] == ops[..j][x];
      OnlyTheFirstScanReports(ops, p, i, k, m, node, threshold);
    }
  }

  /**
   Under a watchdog that keeps its pace the condition always holds: each loss that follows a ping
   has been reported exactly once when a scan sees it.
   */
  lemma {:induction false} EachLossIsReportedOnce(ops: seq<Op>, p: nat, j: nat, node: string, threshold: int)
    requires Forward(ops) && Paced(ops, threshold)
    requires p < j < |ops| && IsPing(ops[p], node) && NoPingIn(ops[..j], p + 1, node)
    requires ops[j] == OpScan && Lost(ops[..j], node, threshold)
    ensures exists k ::
      && p < k <= j && node in Reports(ops, k, threshold)
      && forall m :: p < m <= j && node in Reports(ops, m, threshold) ==> m == k
  {
    hide Forward, Paced, Lost, Reports, FoundSilent, SeenDead;
    var i := FirstFound(ops, p, j, node, threshold);
    LossIsReportedIff(ops, p, i, j, node, threshold);
    assert ScanIn(ops, p, i) || !SeenDead(ops[..p], node, threshold) by {
      var s := LatestScan(ops[..p]);
      if s.None? {
        NoScanNothingSeen(ops[..p], node, threshold);
      } else if !ScanIn(ops, p, i) {
        assert forall x :: s.value < x < i ==> (if x < p then ops[..p][x] == ops[x] else ops[x] != OpScan);
        assert forall x :: p < x < i ==> ops[..j][x] == ops[x];
        assert ops[..p][..s.value] == ops[..s.value];
        SeenDeadAtLastScan(ops[..p], s.value, node, threshold);
        NotLostBefore(ops, s.value, p, i, node, threshold);
      }
    }
  }

  // ---- Conservation of the alert counters ---------------------------------------------------------

  /** The sum of the nodes' alert counters. */
  ghost function Total(nodes: Nodes): nat
    decreases |nodes|
  {
    if nodes == map[] then 0
    else
      var n :| n in nodes;
      nodes[n].alertsSent + Total(nodes - {n})
  }

  lemma {:induction false} TotalWithout(nodes: Nodes, node: string)
    requires node in nodes
    ensures Total(nodes) == nodes[node].alertsSent + Total(nodes - {node})
    decreases |nodes|
  {
    var n :| n in nodes && Total(nodes) == nodes[n].alertsSent + Total(nodes - {n});
    if n != node {
      TotalWithout(nodes - {n}, node);
      TotalWithout(nodes - {node}, n);
      assert nodes - {n} - {node} == nodes - {node} - {n};
    }
  }

  lemma {:induction false} TotalWith(nodes: Nodes, node: string, info: NodeInfo)
    ensures Total(nodes[node := info]) ==
            Total(nodes) + info.alertsSent - if node in nodes then nodes[node].alertsSent else 0
  {
    TotalWithout(nodes[node := info], node);
    assert nodes[node := info] - {node} == nodes - {node};
    if node in nodes {
      TotalWithout(nodes, node);
    } else {
      assert nodes - {node} == nodes;
    }
  }

  lemma {:induction false} TotalOfCheck(nodes: Nodes, now: int, threshold: int)
    ensures Total(CheckAll(nodes, now, threshold)) == Total(nodes)
    decreases |nodes|
  {
    if nodes != map[] {
      var n :| n in nodes;
      TotalWithout(nodes, n);
      TotalWithout(CheckAll(nodes, now, threshold), n);
      assert CheckAll(nodes, now, threshold) - {n} == CheckAll(nodes - {n}, now, threshold);
      TotalOfCheck(nodes - {n}, now, threshold);
    } else {
      assert CheckAll(nodes, now, threshold) == map[];
    }
  }

  /** How many of the recorded alerts came from a node the registry already knew. */
  function ValidAlerts(ops: seq<Op>): nat {
    if ops == [] then 0
    else
      var op, before := ops[|ops| - 1], ops[..|ops| - 1];
      ValidAlerts(before) + if op.OpRecord? && LastPing(before, op.node).Some? then 1 else 0
  }

  lemma {:induction false} AlertsAreConserved(ops: seq<Op>, threshold: int)
    ensures Total(Run(ops, threshold).nodes) == ValidAlerts(ops)
  {
    if ops != [] {
      var op, before := ops[|ops| - 1], ops[..|ops| - 1];
      var nodes := Run(before, threshold).nodes;
      AlertsAreConserved(before, threshold);
      match op
      case OpPing(node, ip, now) =>
        TotalWith(nodes, node, PingNode(nodes, node, ip, now)[node]);
      case OpRecord(node) =>
        RegistryIsHistory(before, node, threshold);
        if node in nodes {
          TotalWith(nodes, node, Record(nodes, node)[node]);
        }
      case OpCheck(now) =>
        TotalOfCheck(nodes, now, threshold);
      case OpScan =>
    }
  }

  function CountRecords(ops: seq<Op>): nat {
    if ops == [] then 0
    else CountRecords(ops[..|ops| - 1]) + if ops[|ops| - 1].OpRecord? then 1 else 0
  }

  /** The alert receiver pings a node before it records an alert of it. */
  predicate PingsFirst(ops: seq<Op>) {
    forall j :: 0 <= j < |ops| && ops[j].OpRecord? ==> exists i :: 0 <= i < j && IsPing(ops[i], ops[j].node)
  }

  lemma {:induction false} PingedIsKnown(ops: seq<Op>, i: nat, node: string)
    requires i < |ops| && IsPing(ops[i], node)
    ensures LastPing(ops, node).Some?
  {
    if i < |ops| - 1 {
      PingedIsKnown(ops[..|ops| - 1], i, node);
    }
  }

  /** In the receiver's order no recorded alert is lost from the counters. */
  lemma {:induction false} EveryAlertIsCounted(ops: seq<Op>, threshold: int)
    requires PingsFirst(ops)
    ensures Total(Run(ops, threshold).nodes) == CountRecords(ops)
  {
    AlertsAreConserved(ops, threshold);
    RecordsAreValid(ops);
  }

  lemma {:induction false} RecordsAreValid(ops: seq<Op>)
    requires PingsFirst(ops)
    ensures ValidAlerts(ops) == CountRecords(ops)
  {
    if ops != [] {
      var op, before := ops[|ops| - 1], ops[..|ops| - 1];
      assert PingsFirst(before) by {
        forall j | 0 <= j < |before| && before[j].OpRecord?
          ensures exists i :: 0 <= i < j && IsPing(before[i], before[j].node)
        {
          var i :| 0 <= i < j && IsPing(ops[i], ops[j].node);
          assert IsPing(before[i], before[j].node);
        }
      }
      RecordsAreValid(before);
      if op.OpRecord? {
        var i :| 0 <= i < |before| && IsPing(ops[i], op.node);
        PingedIsKnown(before, i, op.node);
      }
    }
  }
}
