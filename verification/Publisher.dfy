/**
 The alert publisher: any number of threads publish, one sender drains a bounded queue
 through a socket, one controlling thread starts and stops the sender.  Each critical
 section, wake-up, socket call and counter update is one atomic action, and a run is
 any interleaving of enabled actions.
 */
module Publishers {
  import opened Text

  const QUEUE_CAPACITY: nat := 1024

  /** Where the sender thread is. */
  datatype Sender =
    | Absent              // no thread
    | Ready               // about to take the lock and test the wait predicate
    | Waiting             // asleep on the condition variable
    | Sending(json: string)
    | Counting            // sent, but the counter is not yet incremented
    | Exited              // returned, not yet joined

  /** Where the thread that calls start and stop is. */
  datatype Control = Idle | Notifying | Joining

  /** What became of a message taken from the queue. */
  datatype Taken = Taken(json: string, delivered: bool)

  datatype State = State(
    queue: seq<string>,
    stopFlag: bool,
    running: bool,
    dropped: nat,
    sent: nat,
    sender: Sender,
    control: Control,
    // History, read by no action: publish calls, messages accepted, messages resolved,
    // lifetimes begun, and what had been resolved or accepted when the current one
    // began or ended.
    calls: nat,
    accepted: seq<string>,
    taken: seq<Taken>,
    lives: nat,
    takenBefore: nat,
    acceptedAtExit: nat)

  const INITIAL := State([], false, false, 0, 0, Absent, Idle, 0, [], [], 0, 0, 0)

  datatype Action =
    | Publish(json: string)
    | Start | StopSet | StopNotify | StopJoin
    | Check | SpuriousWake | SendOk | SendFail | Count

  function Woken(sender: Sender): Sender {
    if sender == Waiting then Ready else sender
  }

  predicate Enabled(s: State, a: Action) {
    match a
    case Publish(_) => true
    case Start => s.control == Idle && !s.running
    case StopSet => s.control == Idle && s.running
    case StopNotify => s.control == Notifying
    case StopJoin => s.control == Joining && s.sender == Exited
    case Check => s.sender == Ready
    case SpuriousWake => s.sender == Waiting
    case SendOk => s.sender.Sending?
    case SendFail => s.sender.Sending?
    case Count => s.sender == Counting
  }

  function Step(s: State, a: Action): State
    requires Enabled(s, a)
  {
    match a
    case Publish(json) =>
      if |s.queue| >= QUEUE_CAPACITY then s.(calls := s.calls + 1, dropped := s.dropped + 1)
      else s.(calls := s.calls + 1, queue := s.queue + [json], accepted := s.accepted + [json],
              sender := Woken(s.sender))
    case Start =>
      s.(stopFlag := false, running := true, sender := Ready, lives := s.lives + 1, takenBefore := |s.taken|)
    case StopSet => s.(stopFlag := true, control := Notifying)
    case StopNotify => s.(sender := Woken(s.sender), control := Joining)
    case StopJoin => s.(sender := Absent, running := false, control := Idle)
    case Check =>
      if s.queue == [] then
        if s.stopFlag then s.(sender := Exited, acceptedAtExit := |s.accepted|) else s.(sender := Waiting)
      else s.(sender := Sending(s.queue[0]), queue := s.queue[1..])
    case SpuriousWake => s.(sender := Ready)
    case SendOk => s.(sender := Counting, taken := s.taken + [Taken(s.sender.json, true)])
    case SendFail =>
      s.(sender := Exited, taken := s.taken + [Taken(s.sender.json, false)], acceptedAtExit := |s.accepted|)
    case Count => s.(sender := Ready, sent := s.sent + 1)
  }

  // ---- The object and its critical sections -----------------------------------------------

  class AlertPublisher {
    var queue: seq<string>
    var stopFlag: bool
    var running: bool
    var dropped: nat
    var sent: nat
    var sender: Sender
    var control: Control
    ghost var calls: nat
    ghost var accepted: seq<string>
    ghost var taken: seq<Taken>
    ghost var lives: nat
    ghost var takenBefore: nat
    ghost var acceptedAtExit: nat

    ghost function View(): State
      reads this
    {
      State(queue, stopFlag, running, dropped, sent, sender, control,
            calls, accepted, taken, lives, takenBefore, acceptedAtExit)
    }

    constructor ()
      ensures View() == INITIAL
    {
      queue, stopFlag, running, dropped, sent, sender, control := [], false, false, 0, 0, Absent, Idle;
      calls, accepted, taken, lives, takenBefore, acceptedAtExit := 0, [], [], 0, 0, 0;
    }

    /** `publish`, which notifies while it holds the lock. */
    method PublishJson(json: string)
      modifies this
      ensures View() == Step(old(View()), Publish(json))
    {
      calls := calls + 1;
      if |queue| >= QUEUE_CAPACITY {
        dropped := dropped + 1;
        return;
      }
      queue := queue + [json];
      accepted := accepted + [json];
      if sender == Waiting {
        sender := Ready;
      }
    }

    /** `start` after the socket has been opened. */
    method Launch()
      modifies this
      ensures View() == if old(Enabled(View(), Start)) then Step(old(View()), Start) else old(View())
    {
      if running || control != Idle {
        return;
      }
      stopFlag, running, sender := false, true, Ready;
      lives, takenBefore := lives + 1, |taken|;
    }

    /** The first critical section of `stop`. */
    method RequestStop()
      modifies this
      ensures View() == if old(Enabled(View(), StopSet)) then Step(old(View()), StopSet) else old(View())
    {
      if !running || control != Idle {
        return;
      }
      stopFlag, control := true, Notifying;
    }

    /** The locked part of one round of `send_loop`: wait, leave, or take the front. */
    method TakeNext() returns (json: Option<string>)
      requires sender == Ready
      modifies this
      ensures View() == Step(old(View()), Check)
      ensures json == if old(queue) == [] then None else Some(old(queue)[0])
    {
      if queue == [] {
        if stopFlag {
          sender, acceptedAtExit := Exited, |accepted|;
        } else {
          sender := Waiting;
        }
        return None;
      }
      json := Some(queue[0]);
      sender, queue := Sending(queue[0]), queue[1..];
    }

    /** The unlocked part: the socket call and the counter. */
    method Send(ok: bool)
      requires sender.Sending?
      modifies this
      ensures View() == if ok then Step(Step(old(View()), SendOk), Count) else Step(old(View()), SendFail)
    {
      taken := taken + [Taken(sender.json, ok)];
      if !ok {
        sender, acceptedAtExit := Exited, |accepted|;
        return;
      }
      sent := sent + 1;
      sender := Ready;
    }
  }

  // ---- The inductive invariant --------------------------------------------------------------

  function Jsons(taken: seq<Taken>): seq<string> {
    if taken == [] then [] else Jsons(taken[..|taken| - 1]) + [taken[|taken| - 1].json]
  }

  function DeliveredOnly(taken: seq<Taken>): seq<string> {
    if taken == [] then []
    else
      var last := taken[|taken| - 1];
      DeliveredOnly(taken[..|taken| - 1]) + if last.delivered then [last.json] else []
  }

  function InFlight(s: State): seq<string> {
    if s.sender.Sending? then [s.sender.json] else []
  }

  /** The messages resolved in the current or latest lifetime. */
  function ThisLife(s: State): seq<Taken>
    requires s.takenBefore <= |s.taken|
  {
    s.taken[s.takenBefore..]
  }

  predicate Failed(life: seq<Taken>) {
    life != [] && !life[|life| - 1].delivered
  }

  /** Nothing is lost, duplicated or reordered between `publish` and the socket. */
  predicate Fifo(s: State) {
    s.accepted == Jsons(s.taken) + InFlight(s) + s.queue
  }

  predicate Counters(s: State) {
    && s.calls == |s.accepted| + s.dropped
    && |s.queue| <= QUEUE_CAPACITY
    && s.sent + (if s.sender == Counting then 1 else 0) == |DeliveredOnly(s.taken)|
  }

  /** A sleeping sender has nothing to do, or its wake-up is still to come. */
  predicate NoLostWakeup(s: State) {
    s.sender == Waiting ==> s.queue == [] && (s.stopFlag ==> s.control == Notifying)
  }

  predicate Phases(s: State) {
    && (s.running <==> s.sender != Absent)
    && (s.control != Idle ==> s.running && s.stopFlag)
    && (s.running && s.control == Idle ==> !s.stopFlag)
    && (s.running ==> s.lives >= 1)
    && s.takenBefore <= |s.taken|
  }

  /** Only the last send of a lifetime can fail, and then the sender is gone. */
  predicate OneFailure(s: State)
    requires s.takenBefore <= |s.taken|
  {
    var life := ThisLife(s);
    && (forall i :: 0 <= i < |life| - 1 ==> life[i].delivered)
    && (Failed(life) ==> s.sender in {Exited, Absent})
  }

  /** A sender that left without a failed send had taken all that was accepted by then. */
  predicate CleanExit(s: State)
    requires s.takenBefore <= |s.taken|
  {
    s.sender in {Exited, Absent} && s.lives >= 1 && !Failed(ThisLife(s)) ==>
      |s.taken| == s.acceptedAtExit <= |s.accepted| && s.stopFlag
  }

  /** Each lifetime loses at most one message. */
  predicate BoundedLoss(s: State)
    requires s.takenBefore <= |s.taken|
  {
    |s.taken| - |DeliveredOnly(s.taken)| <= s.lives - if s.running && !Failed(ThisLife(s)) then 1 else 0
  }

  predicate Inv(s: State) {
    Fifo(s) && Counters(s) && NoLostWakeup(s) && Phases(s) && OneFailure(s) && CleanExit(s) && BoundedLoss(s)
  }

  lemma {:induction false} TakenAppend(taken: seq<Taken>, t: Taken)
    ensures Jsons(taken + [t]) == Jsons(taken) + [t.json]
    ensures DeliveredOnly(taken + [t]) == DeliveredOnly(taken) + if t.delivered then [t.json] else []
  {
    assert (taken + [t])[..|taken|] == taken;
  }

  lemma {:induction false} JsonsLength(taken: seq<Taken>)
    ensures |Jsons(taken)| == |taken|
  {
    if taken != [] {
      JsonsLength(taken[..|taken| - 1]);
    }
  }

  lemma StepKeepsFifo(s: State, a: Action)
    requires Fifo(s) && Phases(s) && Enabled(s, a)
    ensures Fifo(Step(s, a))
  {
    hide Jsons, Phases, Step, Enabled, InFlight;
    var s' := Step(s, a);
    var sent := Jsons(s.taken);
    assert sent + InFlight(s) + s.queue == sent + (InFlight(s) + s.queue);
    if a.SendOk? || a.SendFail? {
      SendFlow(s, a);
      TakenAppend(s.taken, Taken(s.sender.json, a.SendOk?));
      assert (sent + [s.sender.json]) + [] + s.queue == sent + [s.sender.json] + s.queue;
    } else {
      QueueFlow(s, a);
      var more := if a.Publish? && s'.accepted != s.accepted then [a.json] else [];
      assert sent + ((InFlight(s) + s.queue) + more) == (sent + (InFlight(s) + s.queue)) + more;
      assert sent + InFlight(s') + s'.queue == sent + (InFlight(s') + s'.queue);
    }
  }

  lemma SendFlow(s: State, a: Action)
    requires Enabled(s, a) && (a.SendOk? || a.SendFail?)
    ensures var s' := Step(s, a);
            && s.sender.Sending? && InFlight(s) == [s.sender.json] && InFlight(s') == []
            && s'.taken == s.taken + [Taken(s.sender.json, a.SendOk?)]
            && s'.queue == s.queue && s'.accepted == s.accepted
  {
  }

  /** What any other action adds to the accepted messages, it adds behind the queue. */
  lemma QueueFlow(s: State, a: Action)
    requires Phases(s) && Enabled(s, a) && !a.SendOk? && !a.SendFail?
    ensures var s' := Step(s, a);
            var more := if a.Publish? && s'.accepted != s.accepted then [a.json] else [];
            && s'.taken == s.taken && s'.accepted == s.accepted + more
            && InFlight(s') + s'.queue == (InFlight(s) + s.queue) + more
  {
    if a == Check && s.queue != [] {
      assert s.queue == [s.queue[0]] + s.queue[1..];
    }
  }

  lemma StepKeepsCounters(s: State, a: Action)
    requires Counters(s) && Phases(s) && Enabled(s, a)
    ensures Counters(Step(s, a))
  {
    hide DeliveredOnly, ThisLife;
    if a.SendOk? || a.SendFail? {
      TakenAppend(s.taken, Taken(s.sender.json, a.SendOk?));
    }
  }

  lemma StepKeepsPhases(s: State, a: Action)
    requires Inv(s) && Enabled(s, a)
    ensures NoLostWakeup(Step(s, a)) && Phases(Step(s, a))
  {
    hide Fifo, Counters, OneFailure, CleanExit;
  }

  lemma ResolvedLife(s: State, a: Action)
    requires Phases(s) && Enabled(s, a) && (a.SendOk? || a.SendFail?)
    ensures var s' := Step(s, a);
            s'.takenBefore <= |s'.taken| && ThisLife(s') == ThisLife(s) + [Taken(s.sender.json, a.SendOk?)]
  {
  }

  lemma StepKeepsOneFailure(s: State, a: Action)
    requires Phases(s) && OneFailure(s) && Enabled(s, a) && Phases(Step(s, a))
    ensures OneFailure(Step(s, a))
  {
    if a.SendOk? || a.SendFail? {
      ResolvedLife(s, a);
      hide ThisLife;
    } else if a != Start {
      assert ThisLife(Step(s, a)) == ThisLife(s);
      hide ThisLife;
    }
  }

  lemma StepKeepsCleanExit(s: State, a: Action)
    requires Fifo(s) && Phases(s) && CleanExit(s) && OneFailure(s) && Enabled(s, a) && Phases(Step(s, a))
    ensures CleanExit(Step(s, a))
  {
    JsonsLength(s.taken);
    hide Jsons, DeliveredOnly;
    if a.SendFail? {
      ResolvedLife(s, a);
    }
  }

  lemma StepKeepsLoss(s: State, a: Action)
    requires Phases(s) && OneFailure(s) && BoundedLoss(s) && Enabled(s, a) && Phases(Step(s, a))
    ensures BoundedLoss(Step(s, a))
  {
    hide Jsons, DeliveredOnly;
    if a.SendOk? || a.SendFail? {
      TakenAppend(s.taken, Taken(s.sender.json, a.SendOk?));
      ResolvedLife(s, a);
      hide ThisLife;
    }
  }

  /** Every action keeps the whole invariant. */
  lemma {:induction false} StepKeepsInv(s: State, a: Action)
    requires Inv(s) && Enabled(s, a)
    ensures Inv(Step(s, a))
  {
    StepKeepsFifo(s, a);
    StepKeepsCounters(s, a);
    StepKeepsPhases(s, a);
    hide Step, Fifo, Counters, NoLostWakeup, Phases, OneFailure, CleanExit, BoundedLoss;
    StepKeepsOneFailure(s, a);
    StepKeepsCleanExit(s, a);
    StepKeepsLoss(s, a);
  }

  // ---- Runs ----------------------------------------------------------------------------------

  predicate Feasible(s: State, acts: seq<Action>)
    decreases |acts|
  {
    acts == [] || (Enabled(s, acts[0]) && Feasible(Step(s, acts[0]), acts[1..]))
  }

  function After(s: State, acts: seq<Action>): State
    requires Feasible(s, acts)
    decreases |acts|
  {
    if acts == [] then s else After(Step(s, acts[0]), acts[1..])
  }

  lemma {:induction false} RunKeepsInv(s: State, acts: seq<Action>)
    requires Inv(s) && Feasible(s, acts)
    ensures Inv(After(s, acts))
    decreases |acts|
  {
    hide Step, Inv, Enabled;
    if acts != [] {
      StepKeepsInv(s, acts[0]);
      RunKeepsInv(Step(s, acts[0]), acts[1..]);
    }
  }

  /**
   Under any interleaving the accepted messages are the resolved ones, the one in
   flight and the queued ones, in order; every call was accepted or dropped; the queue
   never exceeds its capacity; of the messages resolved in the current lifetime only the last can
   be lost, and in all no more are lost than lifetimes were begun.
   */
  lemma {:induction false} MessagesAreConserved(acts: seq<Action>)
    requires Feasible(INITIAL, acts)
    ensures var s := After(INITIAL, acts);
            && s.accepted == Jsons(s.taken) + InFlight(s) + s.queue && |InFlight(s)| <= 1
            && s.calls == |s.accepted| + s.dropped
            && |s.queue| <= QUEUE_CAPACITY
            && s.takenBefore <= |s.taken|
            && (forall i :: 0 <= i < |ThisLife(s)| - 1 ==> ThisLife(s)[i].delivered)
            && |s.taken| - |DeliveredOnly(s.taken)| <= s.lives
            && s.sent <= |DeliveredOnly(s.taken)| <= s.sent + 1
  {
    RunKeepsInv(INITIAL, acts);
  }

  function Starts(acts: seq<Action>): nat {
    if acts == [] then 0 else (if acts[0] == Start then 1 else 0) + Starts(acts[1..])
  }

  /** The lifetimes counted are the starts of the run. */
  lemma {:induction false} LivesAreStarts(s: State, acts: seq<Action>)
    requires Feasible(s, acts)
    ensures After(s, acts).lives == s.lives + Starts(acts)
    decreases |acts|
  {
    if acts != [] {
      LivesAreStarts(Step(s, acts[0]), acts[1..]);
    }
  }

  /**
   A publish call is dropped exactly when 1024 accepted messages have been neither resolved nor
   taken by the sender, and otherwise it is accepted.
   */
  lemma {:induction false} DroppedIff(acts: seq<Action>, json: string)
    requires Feasible(INITIAL, acts)
    ensures var s := After(INITIAL, acts);
            var s' := Step(s, Publish(json));
            var full := |s.accepted| == |s.taken| + |InFlight(s)| + 1024;
            && s'.dropped == s.dropped + (if full then 1 else 0)
            && s'.accepted == s.accepted + (if full then [] else [json])
            && (s'.calls, s'.taken, s'.sent) == (s.calls + 1, s.taken, s.sent)
  {
    RunKeepsInv(INITIAL, acts);
    var s := After(INITIAL, acts);
    JsonsLength(s.taken);
    hide After, Feasible, NoLostWakeup, Phases, OneFailure, CleanExit, BoundedLoss, Jsons, DeliveredOnly;
  }

  lemma {:induction false} AllDelivered(taken: seq<Taken>)
    requires forall t :: t in taken ==> t.delivered
    ensures DeliveredOnly(taken) == Jsons(taken)
  {
    if taken != [] {
      var n := |taken| - 1;
      assert taken[n] in taken;
      AllDelivered(taken[..n]);
    }
  }

  lemma {:induction false} JsonsFrom(taken: seq<Taken>, n: nat)
    requires n <= |taken|
    ensures |Jsons(taken)| == |taken| && Jsons(taken[n..]) == Jsons(taken)[n..]
  {
    JsonsLength(taken);
    if n < |taken| {
      var m := |taken| - 1;
      JsonsFrom(taken[..m], n);
      assert taken[n..][..m - n] == taken[..m][n..];
    }
  }

  /**
   If no send failed in the lifetime that ended, all that was accepted before the sender left and
   had not been resolved in earlier lifetimes has been sent, in order; and if none failed in any
   lifetime, everything accepted before then has.
   */
  lemma {:induction false} CleanShutdownSendsEverything(acts: seq<Action>)
    requires Feasible(INITIAL, acts)
    requires var s := After(INITIAL, acts);
             && s.takenBefore <= |s.taken|
             && s.sender in {Exited, Absent} && s.lives >= 1 && !Failed(ThisLife(s))
    ensures var s := After(INITIAL, acts);
            && s.takenBefore <= s.acceptedAtExit <= |s.accepted|
            && (forall t :: t in ThisLife(s) ==> t.delivered)
            && DeliveredOnly(ThisLife(s)) == s.accepted[s.takenBefore..s.acceptedAtExit]
            && ((forall t :: t in s.taken ==> t.delivered) ==>
                 DeliveredOnly(s.taken) == s.accepted[..s.acceptedAtExit] && s.sent == s.acceptedAtExit)
  {
    var s := After(INITIAL, acts);
    RunKeepsInv(INITIAL, acts);
    hide Feasible, After;
    CleanLife(s);
  }

  lemma CleanLife(s: State)
    requires Inv(s) && s.sender in {Exited, Absent} && s.lives >= 1 && !Failed(ThisLife(s))
    ensures s.takenBefore <= s.acceptedAtExit <= |s.accepted|
    ensures forall t :: t in ThisLife(s) ==> t.delivered
    ensures DeliveredOnly(ThisLife(s)) == s.accepted[s.takenBefore..s.acceptedAtExit]
    ensures (forall t :: t in s.taken ==> t.delivered) ==>
              DeliveredOnly(s.taken) == s.accepted[..s.acceptedAtExit] && s.sent == s.acceptedAtExit
  {
    hide NoLostWakeup, BoundedLoss, Jsons, DeliveredOnly;
    JsonsFrom(s.taken, s.takenBefore);
    AllDelivered(ThisLife(s));
    assert s.accepted[..s.acceptedAtExit] == Jsons(s.taken);
    assert s.accepted[s.takenBefore..s.acceptedAtExit] == Jsons(s.taken)[s.takenBefore..];
    if forall t :: t in s.taken ==> t.delivered {
      AllDelivered(s.taken);
    }
  }

  /**
   In no reachable state is the sender asleep while there is something to send or stop
   has been requested, unless the wake-up of `stop` is about to be issued.
   */
  lemma {:induction false} NoWakeupIsLost(acts: seq<Action>)
    requires Feasible(INITIAL, acts)
    requires var s := After(INITIAL, acts); s.sender == Waiting && (s.queue != [] || s.stopFlag)
    ensures var s := After(INITIAL, acts);
            s.queue == [] && Enabled(s, StopNotify) && Step(s, StopNotify).sender == Ready
  {
    RunKeepsInv(INITIAL, acts);
  }

  // ---- Shutdown -------------------------------------------------------------------------------

  predicate Stopping(s: State) {
    s.stopFlag && s.control != Idle
  }

  function Publishes(acts: seq<Action>): nat {
    if acts == [] then 0 else (if acts[0].Publish? then 1 else 0) + Publishes(acts[1..])
  }

  function SenderRank(sender: Sender): nat {
    match sender
    case Absent => 0
    case Exited => 0
    case Ready => 1
    case Waiting => 2
    case Counting => 2
    case Sending(_) => 3
  }

  /** How much work is left before the sender can be joined. */
  function Work(s: State): nat {
    3 * |s.queue| + SenderRank(s.sender) + if s.control == Notifying then 1 else 0
  }

  lemma StepWorks(s: State, a: Action)
    requires Stopping(s) && Enabled(s, a) && a != StopJoin
    ensures Stopping(Step(s, a))
    ensures Work(Step(s, a)) <= if a.Publish? then Work(s) + 3 else Work(s) - 1
  {
  }

  /**
   Once stop has been requested, a run in which the sender has not been joined yet has a
   bounded length: the work left plus four actions for each further publish call.
   */
  lemma {:induction false} ShutdownIsBounded(s: State, acts: seq<Action>)
    requires Stopping(s) && Feasible(s, acts) && StopJoin !in acts
    ensures Stopping(After(s, acts))
    ensures |acts| + Work(After(s, acts)) <= Work(s) + 4 * Publishes(acts)
    decreases |acts|
  {
    hide Step, Stopping, Work, Enabled;
    if acts != [] {
      assert acts[0] != StopJoin;
      StepWorks(s, acts[0]);
      ShutdownIsBounded(Step(s, acts[0]), acts[1..]);
    }
  }

  /** Until then some action of the sender or of the stopping thread is always enabled. */
  lemma {:induction false} ShutdownNeverBlocks(s: State)
    requires Inv(s) && Stopping(s)
    ensures exists a :: a in {StopNotify, StopJoin, Check, SendOk, Count} && Enabled(s, a)
  {
    hide Fifo, Counters, OneFailure, CleanExit, BoundedLoss;
    if s.sender == Ready {
      assert Enabled(s, Check);
    } else if s.sender.Sending? {
      assert Enabled(s, SendOk);
    } else if s.sender == Counting {
      assert Enabled(s, Count);
    } else if s.control == Notifying {
      assert Enabled(s, StopNotify);
    } else {
      assert Enabled(s, StopJoin);
    }
  }

  /** So a run that is longer than that has joined the sender. */
  lemma {:induction false} ShutdownEnds(s: State, acts: seq<Action>)
    requires Stopping(s) && Feasible(s, acts)
    requires |acts| > Work(s) + 4 * Publishes(acts)
    ensures StopJoin in acts
  {
    if StopJoin !in acts {
      ShutdownIsBounded(s, acts);
    }
  }

  const Progress: set<Action> := {StopNotify, Check, SendOk, Count}

  /** A run in which neither the sender nor the stopping thread can go on waits for nothing but the join. */
  lemma {:induction false} OnlyTheJoinIsLeft(s: State, acts: seq<Action>)
    requires Inv(s) && Stopping(s) && Feasible(s, acts) && StopJoin !in acts
    requires forall a :: a in Progress ==> !Enabled(After(s, acts), a)
    ensures Enabled(After(s, acts), StopJoin)
  {
    ShutdownIsBounded(s, acts);
    RunKeepsInv(s, acts);
    hide Inv, Stopping, Feasible, After, Enabled;
    ShutdownNeverBlocks(After(s, acts));
  }

  /** An action towards the join, and what it leaves of the queue. */
  lemma ProgressDrains(s: State, a: Action)
    requires Stopping(s) && Inv(s) && a in Progress && Enabled(s, a)
    ensures var s' := Step(s, a);
            && s'.accepted == s.accepted
            && (s.sender != Exited || s.queue == [] ==> s'.sender != Exited || s'.queue == [])
  {
    hide Fifo, Counters, OneFailure, CleanExit, BoundedLoss;
  }

  /**
   From any reachable state in which stop has been requested, the sender can be joined after at
   most the work left, by its own actions and the pending notification alone; and if all the sends
   on that way succeed, the queue has been emptied, unless the sender had left before.
   */
  lemma {:induction false} JoinIsNear(s: State) returns (more: seq<Action>)
    requires Inv(s) && Stopping(s)
    ensures Feasible(s, more) && |more| <= Work(s)
    ensures forall a :: a in more ==> a in Progress
    ensures Enabled(After(s, more), StopJoin) && After(s, more).accepted == s.accepted
    ensures s.sender != Exited || s.queue == [] ==> After(s, more).queue == []
    decreases Work(s)
  {
    hide Work, Step, Inv, Stopping, Progress;
    if Enabled(s, StopJoin) {
      return [];
    }
    ShutdownNeverBlocks(s);
    var a :| a in {StopNotify, StopJoin, Check, SendOk, Count} && Enabled(s, a);
    assert a in Progress by {
      IsProgress(a);
    }
    StepWorks(s, a);
    StepKeepsInv(s, a);
    ProgressDrains(s, a);
    var rest := JoinIsNear(Step(s, a));
    more := [a] + rest;
    assert more[1..] == rest;
  }

  lemma IsProgress(a: Action)
    requires a in {StopNotify, Check, SendOk, Count}
    ensures a in Progress && !a.Publish? && a != StopJoin
  {
  }
}
