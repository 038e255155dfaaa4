/**
 Exactly when consensus is reached.  A repeated alert does not refresh the time of its
 node's entry, so what counts is not when a node was last heard but its anchor: its
 first alert, replaced by a later one only after it has left the window.
 */
module ConsensusTiming {
  import opened Text
  import opened Events
  import opened Correlation
  import opened CorrelationRuns

  predicate Forward(arrivals: seq<Arrival>) {
    forall i, j :: 0 <= i <= j < |arrivals| ==> arrivals[i].now <= arrivals[j].now
  }

  // ---- The alerts that still matter ---------------------------------------------------------

  /** The alerts about `ip` since its last threat. */
  function SinceThreat(arrivals: seq<Arrival>, window: int, threshold: int, ip: string): seq<Arrival> {
    if arrivals == [] then []
    else
      var n := |arrivals| - 1;
      var before := SinceThreat(arrivals[..n], window, threshold, ip);
      if !AttackerIs(arrivals[n].alert, ip) then before
      else if Fires(arrivals, window, threshold) then []
      else before + [arrivals[n]]
  }

  /** The evidence those alerts leave behind. */
  function Stretch(alerts: seq<Arrival>, window: int): seq<Entry> {
    if alerts == [] then []
    else
      var n := |alerts| - 1;
      Gather(Stretch(alerts[..n], window), alerts[n].alert, alerts[n].now, window)
  }

  lemma {:induction false} EvidenceIsStretch(arrivals: seq<Arrival>, window: int, threshold: int, ip: string)
    ensures Evidence(Run(arrivals, window, threshold).state, ip)
         == Stretch(SinceThreat(arrivals, window, threshold, ip), window)
  {
    hide SourceIp, AttackerIs, Gather;
    if arrivals != [] {
      var n := |arrivals| - 1;
      EvidenceIsStretch(arrivals[..n], window, threshold, ip);
      var before := SinceThreat(arrivals[..n], window, threshold, ip);
      assert (before + [arrivals[n]])[..|before|] == before;
    }
  }

  lemma {:induction false} SinceThreatForward(arrivals: seq<Arrival>, window: int, threshold: int, ip: string)
    requires Forward(arrivals)
    ensures var mine := SinceThreat(arrivals, window, threshold, ip);
            Forward(mine) && forall a :: a in mine ==> a in arrivals
  {
    hide SourceIp, AttackerIs, Fires;
    if arrivals != [] {
      var n := |arrivals| - 1;
      SinceThreatForward(arrivals[..n], window, threshold, ip);
      var before := SinceThreat(arrivals[..n], window, threshold, ip);
      assert arrivals == arrivals[..n] + [arrivals[n]];
      forall i | 0 <= i < |before|
        ensures before[i].now <= arrivals[n].now
      {
        assert before[i] in arrivals[..n];
      }
    }
  }

  // ---- Anchors ----------------------------------------------------------------------------

  predicate LiveAt(anchor: Option<int>, now: int, window: int) {
    anchor.Some? && WholeSeconds(now - anchor.value) <= window
  }

  function Anchor(alerts: seq<Arrival>, node: string, window: int): Option<int> {
    if alerts == [] then None
    else
      var n := |alerts| - 1;
      var before, last := Anchor(alerts[..n], node, window), alerts[n];
      if last.alert.sourceHost == node && !LiveAt(before, last.now, window) then Some(last.now) else before
  }

  function Hosts(alerts: seq<Arrival>): set<string> {
    set a | a in alerts :: a.alert.sourceHost
  }

  /** The nodes whose anchor is inside the window at the time of the last alert. */
  function Agreeing(alerts: seq<Arrival>, window: int): set<string> {
    set h | h in Hosts(alerts) && (LiveAt(Anchor(alerts, h, window), alerts[|alerts| - 1].now, window)
                                   || h == alerts[|alerts| - 1].alert.sourceHost)
  }

  lemma {:induction false} AnchorBounds(alerts: seq<Arrival>, node: string, window: int)
    ensures Anchor(alerts, node, window).Some? <==> node in Hosts(alerts)
    ensures Anchor(alerts, node, window).Some? ==>
              exists a :: a in alerts && a.alert.sourceHost == node && a.now == Anchor(alerts, node, window).value
  {
    if alerts != [] {
      var n := |alerts| - 1;
      AnchorBounds(alerts[..n], node, window);
      assert alerts == alerts[..n] + [alerts[n]];
    }
  }

  // ---- The evidence mirrors the anchors ---------------------------------------------------

  ghost predicate TimesAreAnchors(entries: seq<Entry>, alerts: seq<Arrival>, window: int) {
    forall e :: e in entries ==> Anchor(alerts, e.node, window) == Some(e.time)
  }

  ghost predicate HoldsTheLive(entries: seq<Entry>, alerts: seq<Arrival>, window: int, now: int) {
    forall h :: LiveAt(Anchor(alerts, h, window), now, window) ==> Reported(entries, h)
  }

  lemma AnchorStep(alerts: seq<Arrival>, last: Arrival, node: string, window: int)
    ensures Anchor(alerts + [last], node, window)
         == if last.alert.sourceHost == node && !LiveAt(Anchor(alerts, node, window), last.now, window)
            then Some(last.now) else Anchor(alerts, node, window)
  {
    assert (alerts + [last])[..|alerts|] == alerts;
  }

  lemma LiveIsReported(entries: seq<Entry>, alerts: seq<Arrival>, now: int, window: int, node: string)
    requires TimesAreAnchors(entries, alerts, window) && HoldsTheLive(entries, alerts, window, now)
    ensures Reported(Evict(entries, now, window), node) <==> LiveAt(Anchor(alerts, node, window), now, window)
  {
    EvictMembers(entries, now, window);
    hide WholeSeconds, Evict, Anchor;
    if LiveAt(Anchor(alerts, node, window), now, window) {
      var e :| e in entries && e.node == node;
      assert e in Evict(entries, now, window);
    }
  }

  /** One more alert: who has reported afterwards, and with which times. */
  lemma MirrorStep(entries: seq<Entry>, alerts: seq<Arrival>, last: Arrival, window: int)
    requires TimesAreAnchors(entries, alerts, window) && HoldsTheLive(entries, alerts, window, last.now)
    ensures var after := Gather(entries, last.alert, last.now, window);
            && TimesAreAnchors(after, alerts + [last], window)
            && HoldsTheLive(after, alerts + [last], window, last.now)
            && forall h :: Reported(after, h) <==>
                 LiveAt(Anchor(alerts + [last], h, window), last.now, window) || h == last.alert.sourceHost
  {
    var live := Evict(entries, last.now, window);
    var after := Gather(entries, last.alert, last.now, window);
    forall h
      ensures Reported(live, h) <==> LiveAt(Anchor(alerts, h, window), last.now, window)
      ensures Anchor(alerts + [last], h, window)
           == if last.alert.sourceHost == h && !LiveAt(Anchor(alerts, h, window), last.now, window)
              then Some(last.now) else Anchor(alerts, h, window)
    {
      LiveIsReported(entries, alerts, last.now, window, h);
      AnchorStep(alerts, last, h, window);
    }
    EvictMembers(entries, last.now, window);
    hide WholeSeconds, Evict, Anchor;
    assert forall h :: Reported(after, h) <==> Reported(live, h) || h == last.alert.sourceHost by {
      assert forall e :: e in live ==> e in after;
      if !Reported(live, last.alert.sourceHost) {
        assert after[|live|] in after;
      }
    }
  }

  lemma {:induction false} StretchMirrors(alerts: seq<Arrival>, window: int, now: int)
    requires Forward(alerts) && (alerts != [] ==> alerts[|alerts| - 1].now <= now)
    ensures TimesAreAnchors(Stretch(alerts, window), alerts, window)
    ensures HoldsTheLive(Stretch(alerts, window), alerts, window, now)
    ensures OnePerNode(Stretch(alerts, window))
  {
    hide Evict, Anchor, Gather;
    if alerts == [] {
      NoAnchor(window);
    } else {
      var n := |alerts| - 1;
      StretchMirrors(alerts[..n], window, alerts[n].now);
      MirrorStep(Stretch(alerts[..n], window), alerts[..n], alerts[n], window);
      GatherKeepsOnePerNode(Stretch(alerts[..n], window), alerts[n].alert, alerts[n].now, window);
      assert alerts == alerts[..n] + [alerts[n]];
      LiveEarlier(alerts, window, alerts[n].now, now);
    }
  }

  lemma NoAnchor(window: int)
    ensures forall h :: Anchor([], h, window) == None
  {
  }

  lemma LiveEarlier(alerts: seq<Arrival>, window: int, t1: int, t2: int)
    requires t1 <= t2
    ensures forall h :: LiveAt(Anchor(alerts, h, window), t2, window) ==> LiveAt(Anchor(alerts, h, window), t1, window)
  {
    hide Anchor;
  }

  // ---- Consensus ----------------------------------------------------------------------------

  function NodeSet(entries: seq<Entry>): set<string> {
    set e | e in entries :: e.node
  }

  lemma NodeSetStep(entries: seq<Entry>)
    requires entries != []
    ensures NodeSet(entries) == NodeSet(entries[..|entries| - 1]) + {entries[|entries| - 1].node}
  {
    assert entries == entries[..|entries| - 1] + [entries[|entries| - 1]];
  }

  lemma NewNode(entries: seq<Entry>)
    requires entries != [] && OnePerNode(entries)
    ensures entries[|entries| - 1].node !in NodeSet(entries[..|entries| - 1])
  {
  }

  lemma {:induction false} NodeCount(entries: seq<Entry>)
    requires OnePerNode(entries)
    ensures |NodeSet(entries)| == |entries|
  {
    if entries != [] {
      NodeCount(entries[..|entries| - 1]);
      NodeSetStep(entries);
      NewNode(entries);
      hide NodeSet;
    }
  }

  lemma GatheredCount(alerts: seq<Arrival>, last: Arrival, window: int)
    requires Forward(alerts + [last])
    ensures |Gather(Stretch(alerts, window), last.alert, last.now, window)| == |Agreeing(alerts + [last], window)|
  {
    hide WholeSeconds, Evict, Anchor, Gather;
    assert Forward(alerts) && (alerts != [] ==> alerts[|alerts| - 1].now <= last.now) by {
      assert forall i :: 0 <= i < |alerts| ==> (alerts + [last])[i] == alerts[i];
      assert (alerts + [last])[|alerts|] == last;
    }
    StretchMirrors(alerts, window, last.now);
    MirrorStep(Stretch(alerts, window), alerts, last, window);
    var after := Gather(Stretch(alerts, window), last.alert, last.now, window);
    GatherKeepsOnePerNode(Stretch(alerts, window), last.alert, last.now, window);
    NodeCount(after);
    forall h
      ensures Reported(after, h) <==> h in Agreeing(alerts + [last], window)
    {
      AnchorBounds(alerts + [last], h, window);
      assert last in alerts + [last];
    }
    assert NodeSet(after) == Agreeing(alerts + [last], window);
  }

  /** The alerts that decide about the last arrival: those since the last threat, and itself. */
  function Deciding(arrivals: seq<Arrival>, window: int, threshold: int): seq<Arrival>
    requires arrivals != []
  {
    var n := |arrivals| - 1;
    SinceThreat(arrivals[..n], window, threshold, SourceIp(arrivals[n].alert)) + [arrivals[n]]
  }

  lemma DecidingForward(arrivals: seq<Arrival>, window: int, threshold: int)
    requires arrivals != [] && Forward(arrivals)
    ensures Forward(Deciding(arrivals, window, threshold))
  {
    var n := |arrivals| - 1;
    var ip := SourceIp(arrivals[n].alert);
    SinceThreatForward(arrivals[..n], window, threshold, ip);
    hide SinceThreat, SourceIp, AttackerIs;
    var mine := SinceThreat(arrivals[..n], window, threshold, ip);
    forall i | 0 <= i < |mine|
      ensures mine[i].now <= arrivals[n].now
    {
      assert mine[i] in arrivals[..n];
    }
  }

  /**
   In every run with a clock that does not run backwards, an alert raises a threat
   exactly when enough nodes have their anchor inside the window.
   */
  lemma {:induction false} FiresIffEnoughAnchors(arrivals: seq<Arrival>, window: int, threshold: int)
    requires arrivals != [] && Forward(arrivals)
    ensures Fires(arrivals, window, threshold)
       <==> |Agreeing(Deciding(arrivals, window, threshold), window)| >= threshold
  {
    hide SinceThreat, SourceIp, AttackerIs, Gather, Agreeing;
    var n := |arrivals| - 1;
    var ip := SourceIp(arrivals[n].alert);
    EvidenceIsStretch(arrivals[..n], window, threshold, ip);
    DecidingForward(arrivals, window, threshold);
    GatheredCount(SinceThreat(arrivals[..n], window, threshold, ip), arrivals[n], window);
  }

  // ---- Without any assumption about the clock -----------------------------------------------------

  /** Every entry comes from one of the alerts. */
  ghost predicate FromAlerts(entries: seq<Entry>, alerts: seq<Arrival>) {
    forall e :: e in entries ==> exists a :: a in alerts && a.alert.sourceHost == e.node && a.now == e.time
  }

  lemma {:induction false} StretchIsFromAlerts(alerts: seq<Arrival>, window: int)
    ensures FromAlerts(Stretch(alerts, window), alerts) && OnePerNode(Stretch(alerts, window))
  {
    if alerts != [] {
      var n := |alerts| - 1;
      StretchIsFromAlerts(alerts[..n], window);
      EvictMembers(Stretch(alerts[..n], window), alerts[n].now, window);
      GatherKeepsOnePerNode(Stretch(alerts[..n], window), alerts[n].alert, alerts[n].now, window);
      hide Evict, Expired, OnePerNode;
      assert alerts == alerts[..n] + [alerts[n]];
    }
  }

  lemma GatheredIsStretch(arrivals: seq<Arrival>, window: int, threshold: int)
    requires arrivals != []
    ensures Gathered(arrivals, window, threshold) == Stretch(Deciding(arrivals, window, threshold), window)
  {
    hide Gather, SinceThreat, SourceIp, AttackerIs;
    var n := |arrivals| - 1;
    var ip := SourceIp(arrivals[n].alert);
    EvidenceIsStretch(arrivals[..n], window, threshold, ip);
    var mine := SinceThreat(arrivals[..n], window, threshold, ip);
    assert (mine + [arrivals[n]])[..|mine|] == mine;
  }

  /** Each alert is inside the window of every later one. */
  predicate OneWindow(alerts: seq<Arrival>, window: int) {
    forall i, j :: 0 <= i < j < |alerts| ==> WholeSeconds(alerts[j].now - alerts[i].now) <= window
  }

  /** With a clock that runs forward, it is enough that the last alert is inside the window of the first. */
  lemma ForwardOneWindow(alerts: seq<Arrival>, window: int)
    requires alerts != [] && Forward(alerts)
    requires WholeSeconds(alerts[|alerts| - 1].now - alerts[0].now) <= window
    ensures OneWindow(alerts, window)
  {
  }

  lemma NothingExpires(entries: seq<Entry>, alerts: seq<Arrival>, last: Arrival, window: int)
    requires FromAlerts(entries, alerts) && OneWindow(alerts + [last], window)
    ensures NodeSet(Gather(entries, last.alert, last.now, window)) == NodeSet(entries) + {last.alert.sourceHost}
  {
    EvictMembers(entries, last.now, window);
    forall e | e in entries
      ensures e in Evict(entries, last.now, window)
    {
      var a :| a in alerts && a.alert.sourceHost == e.node && a.now == e.time;
      var i :| 0 <= i < |alerts| && alerts[i] == a;
      assert (alerts + [last])[i] == a && (alerts + [last])[|alerts|] == last;
    }
    hide Evict, Expired, WholeSeconds;
    var after := Gather(entries, last.alert, last.now, window);
    assert forall e :: e in entries ==> e in after;
    assert Reported(after, last.alert.sourceHost) by {
      if !Reported(Evict(entries, last.now, window), last.alert.sourceHost) {
        assert after[|after| - 1].node == last.alert.sourceHost;
      }
    }
  }

  lemma {:induction false} StretchHasAllHosts(alerts: seq<Arrival>, window: int)
    requires OneWindow(alerts, window)
    ensures NodeSet(Stretch(alerts, window)) == Hosts(alerts)
  {
    hide Gather, OneWindow, FromAlerts, WholeSeconds;
    if alerts != [] {
      var n := |alerts| - 1;
      assert alerts == alerts[..n] + [alerts[n]];
      WindowOfPrefix(alerts, window);
      StretchHasAllHosts(alerts[..n], window);
      StretchIsFromAlerts(alerts[..n], window);
      NothingExpires(Stretch(alerts[..n], window), alerts[..n], alerts[n], window);
      assert Hosts(alerts) == Hosts(alerts[..n]) + {alerts[n].alert.sourceHost};
    }
  }

  lemma WindowOfPrefix(alerts: seq<Arrival>, window: int)
    requires alerts != [] && OneWindow(alerts, window)
    ensures OneWindow(alerts[..|alerts| - 1], window)
  {
  }

  /**
   When all the alerts about an attacker since its last threat lie within one window, a threat is
   raised exactly when the distinct reporting hosts first reach the threshold.
   */
  lemma {:induction false} FiresWhenHostsReachThreshold(arrivals: seq<Arrival>, window: int, threshold: int)
    requires arrivals != [] && OneWindow(Deciding(arrivals, window, threshold), window)
    ensures Fires(arrivals, window, threshold) <==> |Hosts(Deciding(arrivals, window, threshold))| >= threshold
    ensures threshold >= 1 ==> |Hosts(Deciding(arrivals, window, threshold))| <= threshold
  {
    hide SourceIp, AttackerIs, Gather, OneWindow, Hosts, Deciding, Stretch, FromAlerts;
    var n := |arrivals| - 1;
    var mine := Deciding(arrivals, window, threshold);
    GatheredIsStretch(arrivals, window, threshold);
    StretchHasAllHosts(mine, window);
    StretchIsFromAlerts(mine, window);
    NodeCount(Stretch(mine, window));
    if threshold >= 1 {
      StoredListsWait(arrivals[..n], window, threshold, SourceIp(arrivals[n].alert));
      GatherKeepsOnePerNode(Evidence(Run(arrivals[..n], window, threshold).state, SourceIp(arrivals[n].alert)),
                            arrivals[n].alert, arrivals[n].now, window);
    }
  }

  /** All alerts are about the attacker `ip`, by the fields they carry. */
  predicate AllAbout(arrivals: seq<Arrival>, ip: string) {
    forall a :: a in arrivals ==> AttackerIs(a.alert, ip)
  }

  lemma PrefixHosts(arrivals: seq<Arrival>)
    requires arrivals != []
    ensures var n := |arrivals| - 1;
            Hosts(arrivals[..n]) <= Hosts(arrivals) && |Hosts(arrivals[..n])| <= |Hosts(arrivals)|
  {
    var n := |arrivals| - 1;
    assert forall a :: a in arrivals[..n] ==> a in arrivals;
    SmallerSet(Hosts(arrivals[..n]), Hosts(arrivals));
  }

  lemma SinceStep(arrivals: seq<Arrival>, window: int, threshold: int, ip: string)
    requires arrivals != [] && AttackerIs(arrivals[|arrivals| - 1].alert, ip) && !Fires(arrivals, window, threshold)
    requires SinceThreat(arrivals[..|arrivals| - 1], window, threshold, ip) == arrivals[..|arrivals| - 1]
    ensures SinceThreat(arrivals, window, threshold, ip) == arrivals
  {
    hide Fires, AttackerIs;
  }

  lemma AllDecide(arrivals: seq<Arrival>, window: int, threshold: int, ip: string)
    requires arrivals != [] && AttackerIs(arrivals[|arrivals| - 1].alert, ip)
    requires SinceThreat(arrivals[..|arrivals| - 1], window, threshold, ip) == arrivals[..|arrivals| - 1]
    ensures Deciding(arrivals, window, threshold) == arrivals
  {
    hide SinceThreat, AttackerIs;
  }

  lemma {:induction false} NoThreatYet(arrivals: seq<Arrival>, window: int, threshold: int, ip: string)
    requires AllAbout(arrivals, ip) && OneWindow(arrivals, window) && |Hosts(arrivals)| < threshold
    ensures SinceThreat(arrivals, window, threshold, ip) == arrivals
    decreases |arrivals|, 0
  {
    if arrivals != [] {
      PrefixHosts(arrivals);
      FreshAttackFiresIff(arrivals, window, threshold, ip);
      PrefixAbout(arrivals, window, ip);
      hide *;
      NoThreatYet(arrivals[..|arrivals| - 1], window, threshold, ip);
      SinceStep(arrivals, window, threshold, ip);
    }
  }

  lemma PrefixAbout(arrivals: seq<Arrival>, window: int, ip: string)
    requires arrivals != [] && AllAbout(arrivals, ip) && OneWindow(arrivals, window)
    ensures var n := |arrivals| - 1;
            AttackerIs(arrivals[n].alert, ip) && AllAbout(arrivals[..n], ip) && OneWindow(arrivals[..n], window)
  {
    hide AttackerIs, WholeSeconds;
    assert forall a :: a in arrivals[..|arrivals| - 1] ==> a in arrivals;
  }

  /**
   A fresh attack: alerts about one attacker, each inside the window of the later ones, raise their
   first threat exactly when the distinct reporting hosts reach the threshold.
   */
  lemma {:induction false} FreshAttackFiresIff(arrivals: seq<Arrival>, window: int, threshold: int, ip: string)
    requires arrivals != [] && AllAbout(arrivals, ip) && OneWindow(arrivals, window)
    requires |Hosts(arrivals[..|arrivals| - 1])| < threshold
    ensures Fires(arrivals, window, threshold) <==> |Hosts(arrivals)| >= threshold
    decreases |arrivals| - 1, 1
  {
    PrefixAbout(arrivals, window, ip);
    hide *;
    NoThreatYet(arrivals[..|arrivals| - 1], window, threshold, ip);
    AllDecide(arrivals, window, threshold, ip);
    FiresWhenHostsReachThreshold(arrivals, window, threshold);
  }

  /** With the default threshold, two hosts that report the same `src_ip` within the window suffice. */
  lemma {:induction false} TwoReportsFire(a: Alert, b: Alert, t0: int, t1: int, window: int)
    requires "src_ip" in a.metadata && "src_ip" in b.metadata && a.metadata["src_ip"] == b.metadata["src_ip"]
    requires a.sourceHost != b.sourceHost && WholeSeconds(t1 - t0) <= window
    ensures Fires([Arrival(a, t0), Arrival(b, t1)], window, 2)
  {
    var x, y := Arrival(a, t0), Arrival(b, t1);
    var both := [x, y];
    assert both[..1] == [x];
    assert Hosts([x]) == {a.sourceHost} && Hosts(both) == {a.sourceHost, b.sourceHost} by {
      assert x in both && y in both && x in [x];
    }
    FreshAttackFiresIff(both, window, 2, a.metadata["src_ip"]);
  }

  /** The nodes heard inside the window, repetitions included, and the node heard just now. */
  function Recent(alerts: seq<Arrival>, window: int): set<string>
    requires alerts != []
  {
    var last := alerts[|alerts| - 1];
    set a | a in alerts && (WholeSeconds(last.now - a.now) <= window || a == last) :: a.alert.sourceHost
  }

  lemma SmallerSet(s: set<string>, t: set<string>)
    requires s <= t
    ensures |s| <= |t|
  {
    assert t == s + (t - s);
  }

  /** A threat is never raised unless enough nodes were heard inside the window. */
  lemma {:induction false} ThreatsNeedRecentNodes(arrivals: seq<Arrival>, window: int, threshold: int)
    requires arrivals != [] && Fires(arrivals, window, threshold)
    ensures |Recent(Deciding(arrivals, window, threshold), window)| >= threshold
  {
    hide Deciding, Recent, Stretch, Gathered;
    var mine := Deciding(arrivals, window, threshold);
    GatheredIsStretch(arrivals, window, threshold);
    DecidingNotEmpty(arrivals, window, threshold);
    StretchIsRecent(mine, window);
    StretchIsFromAlerts(mine, window);
    NodeCount(Stretch(mine, window));
    SmallerSet(NodeSet(Stretch(mine, window)), Recent(mine, window));
  }

  lemma RecentNode(alerts: seq<Arrival>, a: Arrival, window: int)
    requires alerts != [] && a in alerts
    requires var last := alerts[|alerts| - 1]; WholeSeconds(last.now - a.now) <= window || a == last
    ensures a.alert.sourceHost in Recent(alerts, window)
  {
  }

  lemma GatheredEntry(entries: seq<Entry>, a: Alert, now: int, window: int, e: Entry)
    requires e in Gather(entries, a, now, window)
    ensures (e in entries && WholeSeconds(now - e.time) <= window) || e.node == a.sourceHost
  {
    EvictMembers(entries, now, window);
    hide Evict, WholeSeconds;
  }

  lemma StretchIsRecent(alerts: seq<Arrival>, window: int)
    requires alerts != []
    ensures NodeSet(Stretch(alerts, window)) <= Recent(alerts, window)
  {
    hide Gather, WholeSeconds, Stretch, OnePerNode, Recent;
    var n := |alerts| - 1;
    var before := Stretch(alerts[..n], window);
    StretchIsFromAlerts(alerts[..n], window);
    forall e | e in Gather(before, alerts[n].alert, alerts[n].now, window)
      ensures e.node in Recent(alerts, window)
    {
      GatheredEntry(before, alerts[n].alert, alerts[n].now, window, e);
      if e.node == alerts[n].alert.sourceHost {
        RecentNode(alerts, alerts[n], window);
      } else {
        var a :| a in alerts[..n] && a.alert.sourceHost == e.node && a.now == e.time;
        RecentNode(alerts, a, window);
      }
    }
    StretchStep(alerts, window);
  }

  lemma StretchStep(alerts: seq<Arrival>, window: int)
    requires alerts != []
    ensures var n := |alerts| - 1;
            Stretch(alerts, window) == Gather(Stretch(alerts[..n], window), alerts[n].alert, alerts[n].now, window)
  {
  }

  lemma DecidingNotEmpty(arrivals: seq<Arrival>, window: int, threshold: int)
    requires arrivals != []
    ensures Deciding(arrivals, window, threshold) != []
  {
  }

  /**
   The converse fails: two nodes inside the window do not always make a threat: node `a` reports twice, the
   repetition does not refresh its entry, and when node `b` reports, the entry has left
   the window although the repetition is still inside it.
   */
  lemma {:induction false} RepetitionDoesNotRefresh(a: Alert, b: Alert, t0: int, t1: int, t2: int, window: int)
    requires SourceIp(a) == SourceIp(b) && a.sourceHost != b.sourceHost
    requires t0 <= t1 <= t2
    requires WholeSeconds(t1 - t0) <= window && WholeSeconds(t2 - t1) <= window < WholeSeconds(t2 - t0)
    ensures !Fires([Arrival(a, t0), Arrival(a, t1), Arrival(b, t2)], window, 2)
  {
    hide SourceIp, AttackerIs, Gather, WholeSeconds;
    var x, y, z := Arrival(a, t0), Arrival(a, t1), Arrival(b, t2);
    var e := Entry(a.sourceHost, a.ruleId, a.severity, t0);
    assert [x][..0] == [] && [x, y][..1] == [x] && [x, y, z][..2] == [x, y];
    OneEntry(e, a, t0, window);
    OneEntry(e, a, t1, window);
    OneEntry(e, b, t2, window);
    assert Evidence(Run([x], window, 2).state, SourceIp(a)) == [e];
    assert Evidence(Run([x, y], window, 2).state, SourceIp(a)) == [e];
  }

  lemma OneEntry(e: Entry, a: Alert, now: int, window: int)
    ensures Gather([], a, now, window) == [Entry(a.sourceHost, a.ruleId, a.severity, now)]
    ensures e.node == a.sourceHost && !Expired(e, now, window) ==> Gather([e], a, now, window) == [e]
    ensures Expired(e, now, window) ==> |Gather([e], a, now, window)| == 1
  {
    hide WholeSeconds;
    assert [e][..0] == [] && e in [e];
  }

  /** The numbers of the default configuration: 120 seconds, two nodes. */
  lemma {:induction false} RepetitionExample(a: Alert, b: Alert)
    requires SourceIp(a) == SourceIp(b) && a.sourceHost != b.sourceHost
    ensures !Fires([Arrival(a, 0), Arrival(a, 100 * SECOND), Arrival(b, 130 * SECOND)], 120, 2)
  {
    RepetitionDoesNotRefresh(a, b, 0, 100 * SECOND, 130 * SECOND, 120);
  }
}
