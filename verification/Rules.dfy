/**
 The four detection rules, stated without any index: each one scans the whole snapshot
 and keeps the events that are recent enough for the rule and less than a day old.
 This is the naive detector that the indexed one has to agree with.
 */
module Rules {
  import opened Text
  import opened Events
  import opened StringSets
  import opened Permutations

  datatype RuleConfig = RuleConfig(
    sshWindowSeconds: int := 60,
    sshThreshold: int := 10,
    sshCooldownSeconds: int := 120,
    scanWindowSeconds: int := 30,
    scanThreshold: int := 15,
    scanCooldownSeconds: int := 60,
    privHistoryHours: int := 24,
    privCooldownSeconds: int := 300,
    multiWindowSeconds: int := 300,
    multiMinServices: int := 2,
    multiCooldownSeconds: int := 180)

  /** A missing entry and one that does not start with a number leave the default. */
  function ToInt(m: map<string, string>, key: string, default: int): int {
    if key !in m then default
    else
      var v := FromChars(m[key]);
      if v.Some? then v.value else default
  }

  function FromYaml(m: map<string, string>): RuleConfig {
    RuleConfig(
      ToInt(m, "window_seconds", 60),
      ToInt(m, "threshold", 10),
      ToInt(m, "cooldown_seconds", 120),
      ToInt(m, "scan_window_seconds", 30),
      ToInt(m, "scan_threshold", 15),
      ToInt(m, "scan_cooldown_seconds", 60),
      ToInt(m, "priv_history_hours", 24),
      ToInt(m, "priv_cooldown_seconds", 300),
      ToInt(m, "multi_window_seconds", 300),
      ToInt(m, "multi_min_services", 2),
      ToInt(m, "multi_cooldown_seconds", 180))
  }

  // ---- Reading a message ----------------------------------------------------

  predicate IContains(haystack: string, needle: string) {
    Find(LowerAll(haystack), LowerAll(needle)).Some?
  }

  predicate NotBlank(c: char) { c != ' ' }

  predicate NotFieldEnd(c: char) { c !in " \t\r\n" }

  predicate NotUserEnd(c: char) { c !in " \t(" }

  /** The text after `found`, up to the first character that fails `p`. */
  function WordAfter(msg: string, found: Option<nat>, length: nat, p: char -> bool): string
    requires found.Some? ==> found.value + length <= |msg|
  {
    if found.None? then ""
    else
      var rest := msg[found.value + length..];
      rest[..Span(rest, p)]
  }

  function ParseFromIp(msg: string): string {
    WordAfter(msg, Find(msg, "from "), 5, NotBlank)
  }

  function ParseKvField(msg: string, key: string): string {
    WordAfter(msg, Find(msg, key), |key|, NotFieldEnd)
  }

  function ParseDpt(msg: string): int {
    var v := ParseKvField(msg, "DPT=");
    var n := FromChars(v);
    if n.Some? then n.value else -1
  }

  function ParseSudoUser(msg: string): string {
    WordAfter(msg, RFind(msg, " by "), 4, NotUserEnd)
  }

  function ExtractSrcIp(ev: LogEvent): string {
    if "src_ip" in ev.fields then ev.fields["src_ip"]
    else if "client" in ev.fields then ev.fields["client"]
    else if "src" in ev.fields then ev.fields["src"]
    else
      var src := ParseKvField(ev.message, "SRC=");
      if src != "" then src else ParseFromIp(ev.message)
  }

  function LogSource(ev: LogEvent): string {
    ev.logSource
  }

  predicate FromSshd(ev: LogEvent) {
    ev.logSource == "sshd" || ev.logSource == "sshd-session"
  }

  predicate LoginFailed(msg: string) {
    IContains(msg, "Failed password") || IContains(msg, "Invalid user")
  }

  predicate AuthFailed(msg: string) {
    || IContains(msg, "authentication failure")
    || IContains(msg, "Failed password")
    || IContains(msg, "auth error")
    || IContains(msg, "Invalid user")
  }

  // ---- What each rule counts in a snapshot -----------------------------------

  /** No event older than a day is looked at, whatever the window of the rule. */
  function Horizon(now: int, window: int): (from: int)
    ensures from >= now - window && from >= now - DAY
    ensures from == now - window || from == now - DAY
  {
    if window < DAY then now - window else now - DAY
  }

  predicate SshHit(ev: LogEvent, ip: string, from: int) {
    ev.timestamp >= from && ExtractSrcIp(ev) == ip && FromSshd(ev) && LoginFailed(ev.message)
  }

  function SshCount(snapshot: seq<LogEvent>, ip: string, from: int): nat {
    if snapshot == [] then 0
    else
      var last := snapshot[|snapshot| - 1];
      SshCount(snapshot[..|snapshot| - 1], ip, from) + if SshHit(last, ip, from) then 1 else 0
  }

  predicate PortHit(ev: LogEvent, ip: string, from: int) {
    && ev.timestamp >= from && ExtractSrcIp(ev) == ip && ev.logSource == "kernel"
    && IContains(ev.message, "DPT=") && ParseDpt(ev.message) > 0
  }

  function PortsSeen(snapshot: seq<LogEvent>, ip: string, from: int): set<int> {
    set ev | ev in snapshot && PortHit(ev, ip, from) :: ParseDpt(ev.message)
  }

  predicate SessionHit(ev: LogEvent, user: string, from: int, now: int) {
    && from <= ev.timestamp < now && ev.logSource == "sudo"
    && IContains(ev.message, "session opened") && IContains(ev.message, user)
  }

  predicate SeenBefore(snapshot: seq<LogEvent>, user: string, from: int, now: int) {
    exists ev :: ev in snapshot && SessionHit(ev, user, from, now)
  }

  predicate ServiceHit(ev: LogEvent, ip: string, from: int) {
    ev.timestamp >= from && ExtractSrcIp(ev) == ip && AuthFailed(ev.message) && ev.logSource != ""
  }

  function ServicesHit(snapshot: seq<LogEvent>, ip: string, from: int): set<string> {
    set ev | ev in snapshot && ServiceHit(ev, ip, from) :: ev.logSource
  }

  // ---- The alerts -------------------------------------------------------------

  const SSH_ID := "SSH_BRUTE_FORCE_001"
  const SCAN_ID := "PORT_SCAN_001"
  const PRIV_ID := "PRIV_ESC_001"
  const MULTI_ID := "MULTI_SERVICE_AUTH_001"

  /** `count / total`, at most 1; a zero total makes the quotient infinite. */
  function Score(count: nat, total: int): real {
    if total == 0 then 1.0
    else
      var q := count as real / total as real;
      if q < 1.0 then q else 1.0
  }

  function AlertFor(ev: LogEvent, ruleId: string, severity: Severity, score: real,
                    metadata: map<string, string>): Alert
  {
    Alert(ev.timestamp, ev.sourceHost, ruleId, severity, score, metadata)
  }

  function SshAlert(ev: LogEvent, ip: string, count: nat, cfg: RuleConfig): Option<Alert> {
    if count < cfg.sshThreshold then None
    else Some(AlertFor(ev, SSH_ID, HIGH, Score(count, cfg.sshThreshold * 2),
                       map["src_ip" := ip, "attempt_count" := Decimal(count)]))
  }

  function ScanAlert(ev: LogEvent, ip: string, distinct: nat, cfg: RuleConfig): Option<Alert> {
    if distinct < cfg.scanThreshold then None
    else Some(AlertFor(ev, SCAN_ID, HIGH, Score(distinct, 50),
                       map["src_ip" := ip, "port_count" := Decimal(distinct)]))
  }

  function PrivAlert(ev: LogEvent, user: string): Alert {
    AlertFor(ev, PRIV_ID, CRITICAL, 0.9, map["username" := user])
  }

  function MultiAlert(ev: LogEvent, ip: string, services: seq<string>, cfg: RuleConfig): Option<Alert> {
    if |services| < cfg.multiMinServices then None
    else Some(AlertFor(ev, MULTI_ID, CRITICAL, Score(|services|, 4),
                       map["src_ip" := ip, "services" := JoinComma(services),
                           "service_count" := Decimal(|services|)]))
  }

  // ---- The naive detector -----------------------------------------------------

  predicate SshTrigger(ev: LogEvent) {
    FromSshd(ev) && LoginFailed(ev.message) && ExtractSrcIp(ev) != ""
  }

  ghost function NaiveSsh(ev: LogEvent, snapshot: seq<LogEvent>, cfg: RuleConfig): Option<Alert> {
    if !SshTrigger(ev) then None
    else
      var ip := ExtractSrcIp(ev);
      SshAlert(ev, ip, 1 + SshCount(snapshot, ip, Horizon(ev.timestamp, cfg.sshWindowSeconds * SECOND)), cfg)
  }

  predicate ScanTrigger(ev: LogEvent) {
    && ev.logSource == "kernel" && (IContains(ev.message, "REJECT") || IContains(ev.message, "DPT="))
    && ExtractSrcIp(ev) != ""
  }

  function OwnPort(ev: LogEvent): set<int> {
    if ParseDpt(ev.message) > 0 then {ParseDpt(ev.message)} else {}
  }

  ghost function NaiveScan(ev: LogEvent, snapshot: seq<LogEvent>, cfg: RuleConfig): Option<Alert> {
    if !ScanTrigger(ev) then None
    else
      var ip := ExtractSrcIp(ev);
      var from := Horizon(ev.timestamp, cfg.scanWindowSeconds * SECOND);
      ScanAlert(ev, ip, |OwnPort(ev) + PortsSeen(snapshot, ip, from)|, cfg)
  }

  predicate PrivTrigger(ev: LogEvent) {
    ev.logSource == "sudo" && IContains(ev.message, "session opened") && ParseSudoUser(ev.message) != ""
  }

  ghost function NaivePriv(ev: LogEvent, snapshot: seq<LogEvent>, cfg: RuleConfig): Option<Alert> {
    if !PrivTrigger(ev) then None
    else
      var user := ParseSudoUser(ev.message);
      var from := Horizon(ev.timestamp, cfg.privHistoryHours * 3600 * SECOND);
      if SeenBefore(snapshot, user, from, ev.timestamp) then None else Some(PrivAlert(ev, user))
  }

  predicate MultiTrigger(ev: LogEvent) {
    AuthFailed(ev.message) && ExtractSrcIp(ev) != ""
  }

  function OwnService(ev: LogEvent): set<string> {
    if ev.logSource != "" then {ev.logSource} else {}
  }

  ghost function NaiveMulti(ev: LogEvent, snapshot: seq<LogEvent>, cfg: RuleConfig): Option<Alert> {
    if !MultiTrigger(ev) then None
    else
      var ip := ExtractSrcIp(ev);
      var from := Horizon(ev.timestamp, cfg.multiWindowSeconds * SECOND);
      MultiAlert(ev, ip, InOrder(OwnService(ev) + ServicesHit(snapshot, ip, from)), cfg)
  }

  /** What rule number `i` has to say about `ev`. */
  ghost function Naive(i: nat, ev: LogEvent, snapshot: seq<LogEvent>, cfg: RuleConfig): Option<Alert>
    requires i < 4
  {
    if i == 0 then NaiveSsh(ev, snapshot, cfg)
    else if i == 1 then NaiveScan(ev, snapshot, cfg)
    else if i == 2 then NaivePriv(ev, snapshot, cfg)
    else NaiveMulti(ev, snapshot, cfg)
  }

  // ---- The order of the snapshot does not matter ------------------------------

  lemma {:induction false} SshCountConcat(a: seq<LogEvent>, b: seq<LogEvent>, ip: string, from: int)
    ensures SshCount(a + b, ip, from) == SshCount(a, ip, from) + SshCount(b, ip, from)
  {
    if b == [] {
      assert a + b == a;
    } else {
      assert (a + b)[..|a + b| - 1] == a + b[..|b| - 1];
      SshCountConcat(a, b[..|b| - 1], ip, from);
    }
  }

  lemma SshCountDrop(t: seq<LogEvent>, j: nat, ip: string, from: int)
    requires j < |t|
    ensures SshCount(t, ip, from) == SshCount(t[..j] + t[j + 1..], ip, from) + SshCount([t[j]], ip, from)
  {
    assert t == t[..j] + [t[j]] + t[j + 1..];
    SshCountConcat(t[..j] + [t[j]], t[j + 1..], ip, from);
    SshCountConcat(t[..j], [t[j]], ip, from);
    SshCountConcat(t[..j], t[j + 1..], ip, from);
  }

  lemma {:induction false} SshCountPermuted(s: seq<LogEvent>, t: seq<LogEvent>, ip: string, from: int)
    requires multiset(s) == multiset(t)
    ensures SshCount(s, ip, from) == SshCount(t, ip, from)
    decreases |s|
  {
    if s == [] {
      assert |multiset(t)| == 0;
    } else {
      var n := |s| - 1;
      var j := FindLast(s, t);
      DropOne(s, t, j);
      SshCountPermuted(s[..n], t[..j] + t[j + 1..], ip, from);
      SshCountDrop(t, j, ip, from);
      assert s[..n] + [s[n]] == s;
      SshCountConcat(s[..n], [s[n]], ip, from);
    }
  }

  lemma SameMembers(s: seq<LogEvent>, t: seq<LogEvent>)
    requires multiset(s) == multiset(t)
    ensures forall e :: e in s <==> e in t
  {
    assert forall e :: e in s <==> e in multiset(s);
    assert forall e :: e in t <==> e in multiset(t);
  }

  lemma ScanIgnoresOrder(s: seq<LogEvent>, t: seq<LogEvent>, ip: string, from: int)
    requires forall e :: e in s <==> e in t
    ensures PortsSeen(s, ip, from) == PortsSeen(t, ip, from)
  {
  }

  lemma SessionsIgnoreOrder(s: seq<LogEvent>, t: seq<LogEvent>, user: string, from: int, now: int)
    requires forall e :: e in s <==> e in t
    ensures SeenBefore(s, user, from, now) == SeenBefore(t, user, from, now)
  {
  }

  lemma ServicesIgnoreOrder(s: seq<LogEvent>, t: seq<LogEvent>, ip: string, from: int)
    requires forall e :: e in s <==> e in t
    ensures ServicesHit(s, ip, from) == ServicesHit(t, ip, from)
  {
  }

  /** Permuting the snapshot changes no verdict of any rule. */
  lemma {:induction false} VerdictIgnoresOrder(
      i: nat, ev: LogEvent, s: seq<LogEvent>, t: seq<LogEvent>, cfg: RuleConfig)
    requires i < 4
    requires multiset(s) == multiset(t)
    ensures Naive(i, ev, s, cfg) == Naive(i, ev, t, cfg)
  {
    hide ExtractSrcIp, ParseSudoUser, SshCount, PortsSeen, SeenBefore, ServicesHit, Horizon,
      SshAlert, ScanAlert, PrivAlert, MultiAlert, SshTrigger, ScanTrigger, PrivTrigger, MultiTrigger;
    SameMembers(s, t);
    var ip := ExtractSrcIp(ev);
    SshCountPermuted(s, t, ip, Horizon(ev.timestamp, cfg.sshWindowSeconds * SECOND));
    ScanIgnoresOrder(s, t, ip, Horizon(ev.timestamp, cfg.scanWindowSeconds * SECOND));
    SessionsIgnoreOrder(s, t, ParseSudoUser(ev.message),
                        Horizon(ev.timestamp, cfg.privHistoryHours * 3600 * SECOND), ev.timestamp);
    ServicesIgnoreOrder(s, t, ip, Horizon(ev.timestamp, cfg.multiWindowSeconds * SECOND));
  }

  // ---- The window has no upper end ----------------------------------------------

  /** The count that also leaves out events later than the trigger. */
  function SshCountUpTo(snapshot: seq<LogEvent>, ip: string, from: int, now: int): nat {
    if snapshot == [] then 0
    else
      var last := snapshot[|snapshot| - 1];
      SshCountUpTo(snapshot[..|snapshot| - 1], ip, from, now)
        + if SshHit(last, ip, from) && last.timestamp <= now then 1 else 0
  }

  /**
   The rule's count is that of a scan which stops at the trigger's time exactly when no event
   from the future of the trigger hits; otherwise the rule counts more.
   */
  lemma {:induction false} FutureEventsCount(snapshot: seq<LogEvent>, ip: string, from: int, now: int)
    ensures SshCountUpTo(snapshot, ip, from, now) <= SshCount(snapshot, ip, from)
    ensures SshCountUpTo(snapshot, ip, from, now) == SshCount(snapshot, ip, from)
       <==> forall ev :: ev in snapshot && SshHit(ev, ip, from) ==> ev.timestamp <= now
  {
    hide SshHit;
    if snapshot != [] {
      var n := |snapshot| - 1;
      FutureEventsCount(snapshot[..n], ip, from, now);
      assert snapshot == snapshot[..n] + [snapshot[n]];
    }
  }
}
