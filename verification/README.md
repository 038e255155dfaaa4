# DLADS: a verified model of the detection pipeline

DLADS agents turn log bytes into lines, lines into parsed events, events into alerts, and send the
alerts to a coordinator that correlates what several nodes report about one attacker. This project
models the stateful pieces along that path and proves that each one agrees with a simple
specification of it, over every input, every run or every interleaving.

| file | models |
|---|---|
| `RingBuffer.dfy` | the circular buffer, as the last `Cap` pushes |
| `Rules.dfy`, `EventIndex.dfy`, `RuleEngine.dfy`, `Detector.dfy`, `StringSets.dfy`, `Permutations.dfy` | the four windowed rules as naive scans; the per-event index that must agree with them; cooldowns over runs; the whole agent callback |
| `Verdicts.dfy`, `AgentRuns.dfy`, `Settings.dfy` | the same rules without any function that computes them: when each fires and what its alert holds, over whole runs of the agent; the settings they read |
| `Correlation.dfy`, `CorrelationRuns.dfy`, `Consensus.dfy`, `Ledger.dfy` | the consensus engine, what a threat proves, exactly when one fires, and what becomes of every alert |
| `Publisher.dfy` | the bounded queue, its sender and its shutdown as atomic steps under any interleaving |
| `ZScore.dfy` | Welford's online variance over exact reals, and how large z can get |
| `KvParser.dfy`, `Syslog.dfy`, `SyslogStamps.dfy`, `SyslogShapes.dfy`, `Text.dfy`, `Events.dfy` | the key-value scan and the syslog parser (RFC 3164, section 4.1) as inverses of printing, and exactly which lines it accepts |
| `FlatYaml.dfy`, `FlatYamlText.dfy`, `IdsSwap.dfy` | the flat configuration file with its two readers and one writer, and the hot swap of the detection engine that relies on it |
| `Lines.dfy`, `Tailer.dfy` | chunked reads, lines and rotation |
| `Multipart.dfy` | the multipart codec (ZeroMQ RFC 50) |
| `Registry.dfy` | the node registry and its watchdog under any interleaving |

Code that updates state step by step is a class or a method with loops, proved against a function of
the old state; the theorems are about those functions and about runs of them, and say what they mean in
terms that do not call them: literal texts, windows and limits, positions, counts and histories. `dafny verify
dfyconfig.toml` checks everything. Times are integer nanoseconds (registry: seconds); the readings
of the clock, the outcome of a send, whether a file opens and whether an engine starts are
parameters, so every statement holds for all of them.

## Where the code and what is said about it differ

The model follows the code. All but the last of these points are lemmas:

- A trigger of the SSH rule is counted twice, unless the window is negative, because the agent pushes an
  event before it takes the snapshot (`Detectors.SshCountsTheEventTwice`), although the rule starts from 1 "for the current event".
- The comparison in `tests/test_rule_engine_index.cpp:208-217` leaves out events later than the trigger; the rule
  does not. The counts agree exactly when no such event hits (`Rules.FutureEventsCount`).
- Two nodes that both reported inside the window need not make a threat, because a repeated alert
  does not refresh its entry (`ConsensusTiming.RepetitionDoesNotRefresh`); the exact condition is
  `ConsensusTiming.FiresIffEnoughAnchors`.
- A node that comes back and dies again between two scans of the watchdog is not reported again,
  although the comment promises it (`Registry.SecondDeathCanBeMissed`). With the tick of 10 s and the threshold
  of 30 s that takes a stalled thread or a step of the wall clock; a watchdog that keeps its pace reports
  each loss exactly once (`Registry.EachLossIsReportedOnce`). `Registry.LossIsReportedIff` is the exact condition on
  any schedule.
- The writer of the configuration file does not strip the carriage return that the readers strip, so
  a key followed by one is read but never replaced (`FlatYaml.WriteIsNotRead`);
  `FlatYaml.ReadBackIff` says exactly when a write is read back, in terms of the characters of the file.
- A failed switch says "staying on builtin", but nothing is running then, and asking for the old mode
  again does not start it (`IdsSwap.FailureLeavesNoEngine`, `IdsSwap.FailureLocksTheOldMode`).
- A failed return from the fallback mode rolls the file back to a mode that was never active
  (`IdsSwap.DisagreesIff`).
- Once a switch has got as far as pointing the agent at the adapter's file, every later switch to built-in
  tails that file instead of the log: after a switch there and back (`IdsSwap.TailerStaysOnEve`), and also when
  the adapter never ran (`IdsSwap.FailedStartLosesTheLog`). `IdsSwap.TailerFollowsLogIff` is the exact condition over runs.
- The comment on `extract_kv` allows keys of any letters, digits, `_` and `-`; the code wants a letter
  or `_` first, and ends unquoted values at commas too.

## Model

The rows that begin with **Main result.** are what the others lead up to.

| member | source | states |
|---|---|---|
| `RingBuffers.RingBuffer.Push` | include/dlads/ring_buffer.hpp:71-81 | After a push the buffer holds the newest `Cap` of all values pushed since the last clear: nothing but the oldest value is ever overwritten, for any capacity and any history |
| `RingBuffers.RingBuffer.Clear` | include/dlads/ring_buffer.hpp:86-91 | Forgets the whole history, so that later snapshots show only later pushes |
| `RingBuffers.RingBuffer.Snapshot` | include/dlads/ring_buffer.hpp:102-110 | **Main result.** Returns exactly the last `min(n, Cap)` pushes since the last clear, oldest first, although they may wrap round the end of the storage |
| `RingBuffers.LastNIs` | include/dlads/ring_buffer.hpp:102-110 | The window is as long as there are values, up to the capacity, and consists of the last ones |
| `RingBuffers.RingBuffer.HeadFollowsTail` | include/dlads/ring_buffer.hpp:115-128 | In every valid state the write position is `(tail + size) mod Cap` |
| `EventIndexes.BuildIndex` | src/rule_engine.cpp:416-439 | **Main result.** For any snapshot, each entry of `by_ip` and `by_source` is the sub-sequence of events with that key that are at most 24 h older than the event, in snapshot order, absent keys have no such event, and the two recent views hold the events of the last 300 s and 60 s |
| `EventIndexes.GroupMembers` | src/rule_engine.cpp:425-430 | A group holds exactly the retained events with its key |
| `EventIndexes.GroupsPartition` | src/rule_engine.cpp:425-430 | The groups partition the retained events with multiplicity: an event is in the group of its own key as often as it was retained, and in no other |
| `EventIndexes.SshCountOfGroup` | src/rule_engine.cpp:173-185 | Counting failures in one group with the cutoff of the rule is counting them in the whole snapshot with the later of the two cutoffs |
| `EventIndexes.PortsOfGroup` | src/rule_engine.cpp:233-251 | The same for the set of distinct destination ports |
| `EventIndexes.ServicesOfGroup` | src/rule_engine.cpp:355-372 | The same for the set of distinct services |
| `EventIndexes.SessionsOfGroup` | src/rule_engine.cpp:295-311 | The same for "seen before", through the `sudo` group |
| `EventIndexes.CountFailures` | src/rule_engine.cpp:176-185 | The loop counts the failed logins of the group inside the window |
| `EventIndexes.CollectPorts` | src/rule_engine.cpp:236-251 | The loop collects the distinct positive ports of the group inside the window, the own port of the event included |
| `EventIndexes.FindSession` | src/rule_engine.cpp:300-311 | The loop with its early exit decides whether the group has a session of the user strictly before the event and inside the window |
| `EventIndexes.CollectServices` | src/rule_engine.cpp:357-372 | The loop yields the services of the failures in the window, and that of the event, each once and in increasing order |
| `EventIndexes.EvaluateSsh` | src/rule_engine.cpp:159-203 | Through the index, rule 1 gives the alert of a scan of the whole snapshot |
| `EventIndexes.EvaluateScan` | src/rule_engine.cpp:217-269 | Through the index, rule 2 gives the alert of a scan of the whole snapshot |
| `EventIndexes.EvaluatePriv` | src/rule_engine.cpp:283-326 | Through the index, rule 3 gives the alert of a scan of the whole snapshot |
| `EventIndexes.EvaluateMulti` | src/rule_engine.cpp:340-396 | Through the index, rule 4 gives the alert of a scan of the whole snapshot, the services listed in order |
| `EventIndexes.Evaluate` | src/rule_engine.cpp:461-463 | **Main result.** The same for whichever rule is asked |
| `StringSets.OneOrder` | src/rule_engine.cpp:377-381 | A set of strings has one increasing order, so the service list does not depend on the order of arrival |
| `StringSets.InsertKeepsOrder` | src/rule_engine.cpp:357-370 | Insertion into the ordered set keeps it increasing and adds exactly the one string |
| `StringSets.LessIff` | src/rule_engine.cpp:357-381 | The set is in the order of `std::string`: by the first differing character, a proper prefix first |
| `StringSets.JoinCommaBack` | src/rule_engine.cpp:377-381 | The service list names its services: cutting the text at its commas gives back any non-empty names without commas |
| `Rules.SshCountPermuted` | src/rule_engine.cpp:176-185 | The failure count is the same for every permutation of a snapshot |
| `Rules.VerdictIgnoresOrder` | src/rule_engine.cpp:159-396 | **Main result.** No verdict of any of the four rules changes when the snapshot is permuted |
| `Rules.FutureEventsCount` | src/rule_engine.cpp:176-185 | The windows have no upper end: the count equals that of a scan up to the time of the trigger if and only if no later event hits, and is never smaller |
| `Verdicts.IContainsIff` | src/rule_engine.cpp:19-29 | The case-insensitive search finds exactly the texts that occur at some position up to the case of letters |
| `Verdicts.AddressIff` | src/rule_engine.cpp:109-125 | The address of an event is its field `src_ip`, else `client`, else `src`, else the word behind the first "SRC=", and if that is empty the word behind the first "from " |
| `Verdicts.PortIff` | src/rule_engine.cpp:51-57 | The port is the number that the word behind the first "DPT=" starts with, or -1 |
| `Verdicts.UserIff` | src/rule_engine.cpp:59-67 | The user is the word behind the last " by " |
| `Verdicts.CountIsSize` | src/rule_engine.cpp:173-185 | The count of the SSH rule is the number of positions in the snapshot with a failure from the address inside the window and 24 hours |
| `Verdicts.SshVerdict` | src/rule_engine.cpp:159-203 | **Main result.** Rule 1 fires if and only if the event is a login failure of sshd with an address and 1 + the failures from it in the snapshot reach the threshold; rule id, severity, metadata and score of its alert |
| `Verdicts.ScanVerdict` | src/rule_engine.cpp:217-269 | **Main result.** Rule 2 fires if and only if a kernel event with an address mentions REJECT or DPT= and the distinct positive ports, its own included, reach the threshold; what its alert holds |
| `Verdicts.PrivVerdict` | src/rule_engine.cpp:283-326 | **Main result.** Rule 3 fires if and only if a sudo session names a user and no earlier event inside the window opened a session for it; what its alert holds |
| `Verdicts.MultiVerdict` | src/rule_engine.cpp:340-396 | **Main result.** Rule 4 fires if and only if an authentication failure has an address and the distinct services that failed for it reach the minimum; what its alert holds |
| `Settings.SettingsBack` | src/rule_engine.cpp:131-146 | Each of the eleven settings is read from its own key: a configuration written out is read back, negative numbers included |
| `Settings.DefaultSettings` | src/rule_engine.cpp:93-101 | Settings that are missing or do not begin with a number that fits keep their defaults |
| `Settings.ReadShown` | src/rule_engine.cpp:97-100 | A printed number is read back exactly if it fits an int |
| `RuleEngines.RuleEngine.SetConfig` | src/rule_engine.cpp:412-414 | A new configuration leaves cooldowns alone |
| `RuleEngines.RuleEngine.Process` | src/rule_engine.cpp:452-477 | Index, rules and cooldown map together emit the alerts of the naive rules and leave one expiry per key |
| `RuleEngines.KeysAreInjective` | src/rule_engine.cpp:465-468 | Because rule ids hold no colon, a cooldown key determines both the rule and the source |
| `RuleEngines.RunIsGood` | src/rule_engine.cpp:441-477 | Over any run, with any configuration changes, the cooldown map holds exactly the expiry of the latest alert of each rule and source, and a candidate is suppressed exactly when that expiry is still ahead |
| `RuleEngines.LatestEmission` | src/rule_engine.cpp:441-450 | The expiry in force is that of the last emitted alert, not of an earlier one |
| `RuleEngines.ConsecutiveAlertsAreSpaced` | src/rule_engine.cpp:441-473 | **Main result.** Two consecutive alerts for one key are apart by at least the cooldown in force at the earlier one, even across `set_config` |
| `RuleEngines.AlertRateIsBounded` | src/rule_engine.cpp:441-473 | **Main result.** k consecutive alerts for a key that were emitted under the same cooldown d, inside an interval of length T and with no backward step of the clock while each was emitted, satisfy (k - 1) * d <= T, whatever the configuration and clock did before and after |
| `RuleEngines.SuppressionIsJustified` | src/rule_engine.cpp:470 | **Main result.** A candidate is suppressed if and only if an alert of the same rule and source was emitted before it and the cooldown of the latest such alert is still open |
| `RuleEngines.StepEmits` | src/rule_engine.cpp:461-476 | **Main result.** The alerts of one event are exactly the candidates of the four rules, in their order, for which no earlier alert of the same rule and source still holds |
| `RuleEngines.StepHolds` | src/rule_engine.cpp:468-472 | Each emitted alert starts the cooldown configured for its own rule, told by its rule id, from the clock reading taken for that rule |
| `RuleEngines.RunHolds` | src/rule_engine.cpp:412-472 | **Main result.** Over any run with any configuration changes, each alert holds the cooldown of its rule in the configuration in force when it was emitted |
| `RuleEngines.ConfigIsLastSet` | src/rule_engine.cpp:412-414 | The configuration in force is the last one set |
| `RuleEngines.SpacedByConfiguration` | src/rule_engine.cpp:441-473 | So consecutive alerts of a key are spaced by configured seconds |
| `Detectors.Agent.OnEvent` | src/agent_main.cpp:590-598 | One parsed line: the node id is set, the event is pushed before the snapshot is taken, and alerts and state are those of the naive detector over the newest 4096 events |
| `Detectors.Agent.OnEvents` | src/agent_main.cpp:579-617 | **Main result.** Over every sequence of events the agent emits exactly the alerts of a detector with no ring and no index |
| `Detectors.SshCountsTheEventTwice` | src/rule_engine.cpp:176-185 | Because of push-before-snapshot the SSH rule counts its trigger once more among the events it finds, exactly when the configured window is not negative |
| `Detectors.SessionDoesNotSeeItself` | src/rule_engine.cpp:297-310 | The strict "prior" test makes the privilege rule independent of the event being in its own snapshot |
| `AgentRuns.StateOfRun` | src/agent_main.cpp:594-597 | The history of a run is the parsed events in order, under the name of the node, and its log explains its cooldowns |
| `AgentRuns.AgentEmits` | src/agent_main.cpp:590-598 | **Main result.** The alerts of the latest event are exactly the candidates, judged against the newest 4096 events with itself among them, whose rule and source are not in cooldown |
| `AgentRuns.AgentSshIff` | src/agent_main.cpp:590-598 | **Main result.** When the agent raises an SSH alert, in terms of the events of the run, the threshold and the last SSH alert about the address |
| `AgentRuns.AlertsNameTheNode` | src/agent_main.cpp:590-604 | Every alert carries the name of the node and one of the four rule ids |
| `Correlation.CorrelationEngine.IngestAlert` | include/dlads/correlation_engine.hpp:31-109 | One alert changes the list of its attacker, the threat counter and the result as the specification function says, and no other list |
| `Correlation.CorrelationEngine.DropExpired` | include/dlads/correlation_engine.hpp:52-58 | Eviction keeps exactly the entries not older than the window, in order, with the age truncated to whole seconds |
| `Correlation.CorrelationEngine.HasReported` | include/dlads/correlation_engine.hpp:60-64 | The flag says whether the node already has an entry |
| `Correlation.CorrelationEngine.Summarise` | include/dlads/correlation_engine.hpp:79-88 | The accumulators hold the nodes in order, the joined rule ids and the highest severity |
| `CorrelationRuns.EvictMembers` | include/dlads/correlation_engine.hpp:52-58 | An entry survives eviction if and only if its age in whole seconds is at most the window |
| `CorrelationRuns.ExpiredIff` | include/dlads/correlation_engine.hpp:55-56 | For a window that is not negative, an entry is out of it exactly from window + 1 seconds on |
| `CorrelationRuns.RulesSeenBack` | include/dlads/correlation_engine.hpp:80-85 | The rule list of a threat names the rules of its entries in order |
| `CorrelationRuns.StoredListsWait` | include/dlads/correlation_engine.hpp:51-71 | For threshold >= 1, in every reachable state every stored list names each node at most once and is shorter than the threshold |
| `CorrelationRuns.ThreatIsConsensus` | include/dlads/correlation_engine.hpp:70-98 | **Main result.** Each threat names exactly `threshold` distinct nodes, the triggering alert last, no other entry older than the window, and its severity is min(CRITICAL, highest contributing + 1) |
| `CorrelationRuns.HighestIsMaximum` | include/dlads/correlation_engine.hpp:81-88 | The severity accumulator is the maximum over the entries |
| `CorrelationRuns.ThreatsAreNumberedInOrder` | include/dlads/correlation_engine.hpp:75 | Across all attackers the threat ids are 1, 2, 3, ... in firing order |
| `CorrelationRuns.AttackersAreIndependent` | include/dlads/correlation_engine.hpp:36-49 | **Main result.** Projecting an interleaved run onto one attacker and running it alone gives the same stored entries and the same threats, ids apart |
| `ConsensusTiming.EvidenceIsStretch` | include/dlads/correlation_engine.hpp:49-68 | The stored list is a function of the alerts about the attacker since its last threat |
| `ConsensusTiming.FiresIffEnoughAnchors` | include/dlads/correlation_engine.hpp:51-71 | **Main result.** With a clock that does not run backwards a threat fires if and only if enough nodes have their anchor inside the window, the anchor being the first report that no earlier live anchor of the node absorbed |
| `ConsensusTiming.FiresWhenHostsReachThreshold` | include/dlads/correlation_engine.hpp:60-71 | **Main result.** If every alert about an attacker since its last threat is inside the window of every later one, a threat fires exactly when the distinct reporting hosts first reach the threshold; nothing is assumed about the clock |
| `ConsensusTiming.ForwardOneWindow` | include/dlads/correlation_engine.hpp:52-58 | With a clock that does not run backwards it is enough that the last of them is inside the window of the first |
| `ConsensusTiming.FreshAttackFiresIff` | include/dlads/correlation_engine.hpp:36-71 | **Main result.** Alerts about one attacker, told by their `src_ip`, else `source_ip`, else host, raise their first threat exactly when the distinct hosts reach the threshold, if each is inside the window of the later ones |
| `ConsensusTiming.TwoReportsFire` | include/dlads/correlation_engine.hpp:26-40 | Two hosts that report the same `src_ip` within the window suffice for the default threshold |
| `ConsensusTiming.GatheredIsStretch` | include/dlads/correlation_engine.hpp:49-71 | The evidence an alert is tested with is the fold over the alerts since the last threat, itself included |
| `ConsensusTiming.ThreatsNeedRecentNodes` | include/dlads/correlation_engine.hpp:51-71 | For any clock and window, no threat fires unless that many distinct nodes were heard inside the window or just now |
| `ConsensusTiming.RepetitionDoesNotRefresh` | include/dlads/correlation_engine.hpp:60-68 | The converse is false: a repeated alert does not refresh its node, so two nodes heard inside the window need not fire |
| `ConsensusTiming.RepetitionExample` | include/dlads/correlation_engine.hpp:26-29 | The same with the default window and threshold and concrete times |
| `Ledgers.LedgerRun` | include/dlads/correlation_engine.hpp:48-106 | At any time every ingested alert has exactly one fate; the stored lists are the alerts with fate stored, each threat the alerts with its number |
| `Ledgers.EvidenceIsConserved` | include/dlads/correlation_engine.hpp:48-106 | **Main result.** Those fates are the engine: its lists and the nodes of its threats are made of exactly the alerts that the fates name, in arrival order |
| `Ledgers.FatesAreFinal` | include/dlads/correlation_engine.hpp:51-106 | An alert that was a duplicate, evicted or part of a threat stays so: no alert contributes to two threats |
| `Ledgers.FatesAreMeant` | include/dlads/correlation_engine.hpp:51-68 | **Main result.** The fates mean what they say: an alert is a duplicate if and only if the live evidence of the engine held its node as it arrived, an evicted one was found out of the window by a later arrival about the same attacker, and a stored one by none |
| `Publishers.AlertPublisher.PublishJson` | src/alert_publisher.cpp:62-71 | The critical section of `publish`, with the notification inside it, is the atomic publish step |
| `Publishers.AlertPublisher.Launch` | src/alert_publisher.cpp:18-49 | `start` after the socket is open is the start step, and nothing when the sender runs already |
| `Publishers.AlertPublisher.RequestStop` | src/alert_publisher.cpp:53-54 | The first part of `stop` is the stop step, and nothing when no sender runs |
| `Publishers.AlertPublisher.TakeNext` | src/alert_publisher.cpp:87-94 | The locked part of the loop waits, leaves or takes the oldest message |
| `Publishers.AlertPublisher.Send` | src/alert_publisher.cpp:95-96 | A successful send is counted once; a failed one ends the loop uncounted |
| `Publishers.StepKeepsInv` | src/alert_publisher.cpp:52-98 | Every atomic step of every thread keeps the protocol invariant |
| `Publishers.RunKeepsInv` | src/alert_publisher.cpp:52-98 | So does every interleaving |
| `Publishers.MessagesAreConserved` | src/alert_publisher.cpp:62-97 | **Main result.** In every interleaving: accepted = resolved ++ in flight (at most one) ++ queue as sequences, calls = accepted + dropped, the queue holds at most 1024, of the messages resolved in the current lifetime of the sender only the last can be lost, and over all lifetimes no more are lost than were begun |
| `Publishers.DroppedIff` | src/alert_publisher.cpp:65-70 | **Main result.** After any run, a publish call is dropped if and only if 1024 accepted messages are neither resolved nor taken by the sender, and otherwise accepted |
| `Publishers.LivesAreStarts` | src/alert_publisher.cpp:47-49 | The lifetimes that bound the losses are the starts of the run |
| `Publishers.CleanShutdownSendsEverything` | src/alert_publisher.cpp:83-98 | **Main result.** If no send failed in the lifetime that ended, whatever happened in earlier ones, exactly what was accepted before the sender left and not resolved earlier has been sent, in order |
| `Publishers.NoWakeupIsLost` | src/alert_publisher.cpp:54-90 | **Main result.** No reachable state has a sleeping sender with messages queued; if stop was requested, its notification is about to be issued and wakes it |
| `Publishers.ShutdownIsBounded` | src/alert_publisher.cpp:52-98 | Once stop is requested, the number of further steps before the join is bounded by the work left plus four per further publish call |
| `Publishers.ShutdownNeverBlocks` | src/alert_publisher.cpp:52-98 | Until the join some step of the sender or the stopping thread is always enabled |
| `Publishers.ShutdownEnds` | src/alert_publisher.cpp:52-98 | **Main result.** So every run longer than that, with whatever interleaving and publish calls, has joined the sender |
| `Publishers.OnlyTheJoinIsLeft` | src/alert_publisher.cpp:55-98 | A run in which neither the sender nor the stopping thread can make a step waits for nothing but the join, which is enabled |
| `Publishers.JoinIsNear` | src/alert_publisher.cpp:52-98 | **Main result.** From any state with stop requested, the pending notification and the steps of the sender alone lead to the join within the work left, and if the sends on that way succeed they empty the queue unless the sender had left before |
| `ZScores.ZScoreDetector.Update` | include/dlads/zscore_detector.hpp:19-75 | The running state is count, sum/n and the sum of squared deviations of all samples of the host, and the alert is the verdict on those batch values |
| `ZScores.ZScoreDetector.Reset` | include/dlads/zscore_detector.hpp:78-80 | Forgets the samples of this host only |
| `ZScores.WelfordRefinesBatch` | include/dlads/zscore_detector.hpp:25-32 | **Main result.** One Welford update of the batch values of any samples gives the batch values of one more sample, over the reals |
| `ZScores.M2Step` | include/dlads/zscore_detector.hpp:29-32 | How far the mean moves, how far the new sample lies from it and how much M2 grows, all in terms of the same step |
| `ZScores.ZIsBounded` | include/dlads/zscore_detector.hpp:37-41 | **Main result.** At every update z^2 <= (n - 1)^2 / n, with equality if and only if the earlier samples have no spread |
| `ZScores.AlertNeedsSamples` | include/dlads/zscore_detector.hpp:41-55 | An alert at threshold t, and each severity, needs enough samples for the bound to reach the square of its limit |
| `ZScores.EarliestAlerts` | include/dlads/zscore_detector.hpp:41-55 | **Main result.** With threshold 3 nothing fires before sample 11; nothing is HIGH before sample 23 nor CRITICAL before sample 38 |
| `ZScores.Spike` | include/dlads/zscore_detector.hpp:28-41 | After equal samples a different one attains the bound |
| `ZScores.SpikeFires` | include/dlads/zscore_detector.hpp:37-42 | After equal samples the detector fires if and only if the number of samples allows it |
| `ZScores.ElevenSamplesSuffice` | include/dlads/zscore_detector.hpp:14-42 | Sample 11 can fire at the default threshold, so the lower bound is tight |
| `ZScores.TwentyThreeSamplesSuffice` | include/dlads/zscore_detector.hpp:52-55 | Sample 23 can be HIGH, so that lower bound is tight |
| `ZScores.ThirtyEightSamplesSuffice` | include/dlads/zscore_detector.hpp:52-55 | Sample 38 can be CRITICAL, so that one is too |
| `ZScores.SeverityAfterEqualSamples` | include/dlads/zscore_detector.hpp:41-55 | **Main result.** What the default detector says of a sample that differs from all the equal ones before it, for every number of them: nothing up to 10 samples, MEDIUM from 11, HIGH from 23, CRITICAL from 38 |
| `ZScores.VerdictByRoot` | include/dlads/zscore_detector.hpp:37-55 | **Main result.** The verdict in terms of the standard deviation and z themselves: no alert below 1e-9 or the threshold, severity by the limits 3, 4.5 and 6 |
| `ZScores.ReplyTells` | include/dlads/zscore_detector.hpp:45-72 | An alert tells the sample, the mean including it, the host and the given address and log id |
| `ZScores.BatchIgnoresOrder` | include/dlads/zscore_detector.hpp:28-32 | The state after any samples does not depend on their order |
| `ZScores.VerdictIgnoresOffset` | include/dlads/zscore_detector.hpp:28-55 | Adding a constant to every sample changes neither M2 nor the verdict |
| `ZScores.HostsAreIndependent` | include/dlads/zscore_detector.hpp:25-75 | Projecting any run of samples and resets onto one host and running it alone gives the same samples and the same sequence of answers about that host |
| `KvParser.ExtractKv` | src/log_parser.cpp:420-470 | The index loop ends on every message and yields the first-wins fields of the recursive scan |
| `KvParser.TakeToken` | src/log_parser.cpp:426-461 | One round of the loop consumes at least one character and finds the next word, pair or end |
| `KvParser.TakeWord` | src/log_parser.cpp:433-437 | The word collected at a key start, and what follows it |
| `KvParser.TakePair` | src/log_parser.cpp:440-461 | A pair if an equals sign follows and is not the last character |
| `KvParser.TakeValue` | src/log_parser.cpp:446-461 | A quoted value ends before the next quote or at the end of the text, an unquoted one before whitespace or a comma |
| `KvParser.SkipWhile` | src/log_parser.cpp:428-438 | The skipping loops stop at the first character outside their class |
| `KvParser.ScanExtends` | src/log_parser.cpp:425-468 | No existing field is overwritten, and every new name is a lower-case letter or underscore followed by lower-case letters, digits, underscores and hyphens |
| `KvParser.ScanInvertsRender` | src/log_parser.cpp:420-470 | **Main result.** Reading a rendered list of pairs, quoted or not, with anything but letters and underscores between them, gives the existing fields extended by the first-wins map of the lower-cased keys |
| `KvParser.TokenOfPair` | src/log_parser.cpp:440-461 | A rendered pair in front of any text, or if unquoted in front of whitespace, a comma or the end, is read back as that pair and that text |
| `KvParser.TokenOfBrokenPair` | src/log_parser.cpp:440-453 | An unclosed quote takes the rest of the text, an equals sign at the end gives nothing, and a word without one is skipped |
| `Syslog.LevelCode` | src/log_parser.cpp:476-490 | The level code is 8 - (pri mod 8) |
| `Syslog.PriorityBack` | src/log_parser.cpp:171-178 | A printed priority is taken off and sets the level |
| `Syslog.StampBack` | src/log_parser.cpp:180-201 | A printed timestamp passes the shape tests and is cut off where the host begins |
| `Syslog.HostBack` | src/log_parser.cpp:203-207 | A printed host is recovered and cut off |
| `Syslog.BodyColon` | src/log_parser.cpp:209-216 | The colon that ends the process field is found although the message may hold more of them, or be empty |
| `Syslog.PidBack` | src/log_parser.cpp:222-231 | Process name and pid are recovered from `name[pid]` |
| `Syslog.BodyBack` | src/log_parser.cpp:218-244 | Process, pid and message are recovered, and the embedded pairs are extracted |
| `Syslog.TrimRendered` | src/log_parser.cpp:135-140 | Trimming the line takes nothing but the blank behind an empty message |
| `Syslog.ParseInvertsRender` | src/log_parser.cpp:135-247 | **Main result.** For every well-shaped line, parsing its printed form recovers host, process, pid, message, level and pairs; with a priority the level code is 8 - (pri mod 8) |
| `SyslogStamps.StampMeans` | src/log_parser.cpp:366-393 | A printed timestamp is accepted, and its month, day, hour, minute and second reach the conversion, with this year, or the year before if that were more than 24 hours ahead |
| `SyslogStamps.ParseInvertsNumbers` | src/log_parser.cpp:168-247 | **Main result.** Lines printed from these numbers are read back with that time and all their other parts |
| `SyslogShapes.AcceptedIff` | src/log_parser.cpp:135-216 | **Main result.** A line is taken as syslog if and only if it can be cut into an optional closed priority, blanks, a timestamp that names a moment, blanks, a host without a blank, and a body with a colon |
| `SyslogShapes.EventOfPieces` | src/log_parser.cpp:168-247 | **Main result.** What any accepted line becomes, from its pieces: time, host, process, pid, level, message and fields |
| `SyslogShapes.ColonIff` | src/log_parser.cpp:209-216 | The process ends at the first colon before a blank, or else at the last colon |
| `SyslogShapes.ProcessReads` | src/log_parser.cpp:222-234 | Name and pid of any process field, with or without its brackets closed and with or without a number in them |
| `Text.FromCharsDecimal` | src/log_parser.cpp:52-57 | Reading a printed number up to INT_MAX gives it back, whatever non-digit follows |
| `FlatYaml.ReadYamlField` | src/agent_main.cpp:158-180 | The value on the first line that carries the key, or the default |
| `FlatYaml.ParseFlatYaml` | src/rule_engine.cpp:69-91 | The map of the last value of every non-empty key |
| `FlatYaml.WriteYamlField` | src/agent_main.cpp:183-222 | Every line of the key is replaced or, if there is none, one is appended; a file that cannot be opened is left alone |
| `FlatYaml.PrintLines` | src/agent_main.cpp:218-221 | Each line is written with its own newline |
| `FlatYamlText.ReaderTrimIs` | src/agent_main.cpp:171-175 | What the readers make of any key or value, the odd case of blanks before nothing but line ends included |
| `FlatYamlText.WriterTrimIs` | src/agent_main.cpp:199-202 | What the writer makes of any key |
| `FlatYamlText.LineIs` | src/agent_main.cpp:165-203 | Key, value and comment of a line: everything from the first # on is ignored, the first colon separates, and a line without one has no field |
| `FlatYamlText.FirstLineIs` | src/agent_main.cpp:164-178 | The agent takes the first line of the key |
| `FlatYamlText.LastLineIs` | src/rule_engine.cpp:74-89 | The rule engine takes the last one |
| `FlatYamlText.GetLinesBack` | src/agent_main.cpp:164-192 | The lines are the text cut at its newlines, whether or not the last one is ended |
| `FlatYamlText.WriteKeepsLines` | src/agent_main.cpp:188-221 | **Main result.** A write keeps every line that is not of the key, comments included, at its place, puts `key: value` in the place of every other, and appends it if there is none |
| `FlatYaml.NewLineReads` | src/agent_main.cpp:165-204 | A written line is read back as its key and value and as no other key |
| `FlatYaml.NewLineIsFound` | src/agent_main.cpp:195-206 | The writer finds its own lines again |
| `FlatYaml.WriterMatchIsRead` | src/agent_main.cpp:171-206 | Whatever the writer takes for the key, the readers take for it too |
| `FlatYaml.CleanLineIsNotStale` | src/agent_main.cpp:171-206 | The converse holds for every line without a carriage return before its first colon |
| `FlatYaml.CarriageReturnHidesKey` | src/agent_main.cpp:171-206 | And fails for every line whose key ends in a carriage return |
| `FlatYaml.StaleIff` | src/agent_main.cpp:171-206 | A line read as the key is overlooked by the writer if and only if a carriage return stands among the characters trimmed from the end of its key |
| `FlatYaml.ReadBackIff` | src/agent_main.cpp:158-222 | **Main result.** When each reader returns the written value, as a condition on the characters of any file: unless the line it takes has a carriage return behind the key (and, for the rule engine, some other line has not), or in any case if the value was there already |
| `FlatYaml.FirstReadAfterWrite` | src/agent_main.cpp:158-222 | For any file: the first-wins reader returns the written value if and only if its first line for the key is one the writer replaces, or carried that value already |
| `FlatYaml.LastReadAfterWrite` | src/agent_main.cpp:183-222 | For any file: the last-wins reader returns the written value if and only if nothing was replaced, or its last line for the key is one the writer replaces or carried that value already |
| `FlatYaml.OtherKeysKeepTheirValues` | src/agent_main.cpp:183-222 | For any file both readers find for every other key what they found before |
| `FlatYaml.ParseFlatIsLast` | src/rule_engine.cpp:74-89 | The map has a key exactly when some line carries it, with the value of the last such line |
| `FlatYaml.LinesOfWrittenText` | src/agent_main.cpp:188-221 | Splitting the written file gives exactly the written lines, whether or not the old file ended in a newline |
| `FlatYaml.WriteEffect` | src/agent_main.cpp:158-222 | **Main result.** The exact effect of a write on any file: what the first-wins reader finds, the whole map of the last-wins reader, that nothing else they read changes, and that a second write meets the same obstacles |
| `FlatYaml.FirstAfterWrite` | src/agent_main.cpp:158-222 | For any lines the first-wins reader finds the new value, unless it stops at a line the writer does not recognise, and then the old one |
| `FlatYaml.LastAfterWrite` | src/agent_main.cpp:183-222 | The same for the last-wins reader, which is only misled when the writer found some other line |
| `FlatYaml.WriteThenRead` | src/agent_main.cpp:158-222 | **Main result.** In a file with no carriage return before a colon, both readers return the written value, however often the key occurred, and nothing else they read changes |
| `FlatYaml.WriteKeepsClean` | src/agent_main.cpp:183-222 | A write keeps the file in that class |
| `FlatYaml.LastWriteWins` | src/agent_main.cpp:183-222 | Writing twice is writing the second value once, so writing is idempotent |
| `FlatYaml.WriteIsNotRead` | src/agent_main.cpp:171-206 | Counterexample family: after a write into a file with one such line the agent still reads the old value while the rule engine reads the new one |
| `IdsSwap.IdsAgent.Start` | src/agent_main.cpp:506-627 | Starting leaves the state of the start function, or no engine when the process exits, and records the slots it fills |
| `IdsSwap.IdsAgent.TearDown` | src/agent_main.cpp:239-248 | Both old engines are gone before anything else happens |
| `IdsSwap.IdsAgent.LaunchAdapter` | src/agent_main.cpp:258-299 | The adapter is started, or taken down again and the mode rolled back, passing through the listed engine slots |
| `IdsSwap.IdsAgent.LaunchTailer` | src/agent_main.cpp:300-356 | The same for the tailer with a fresh rule engine |
| `IdsSwap.IdsAgent.DoIdsSwap` | src/agent_main.cpp:227-359 | A switch leaves the state and reply of the switch function on every path, and passes through exactly the listed engine slots on the way |
| `IdsSwap.NeverTwoEngines` | src/agent_main.cpp:239-356 | Over any run, none of the engine slots passed through, in the middle of a switch or between two, holds two engines, and the last are those of the final state |
| `IdsSwap.BootIsLive` | src/agent_main.cpp:537-627 | After a start exactly one engine is live |
| `IdsSwap.StartFollows` | src/agent_main.cpp:506-627 | **Main result.** Which engine a start runs, which file it follows, which mode it reports and what it saves, in terms of the first `ids_mode` and `eve_json_path` lines of the file |
| `IdsSwap.RequestsAre` | src/agent_main.cpp:228-265 | Which requests are invalid, already met, not saved, or without eve.json |
| `IdsSwap.DoneWritesItsLine` | src/agent_main.cpp:250-255 | A successful switch leaves a line `ids_mode: ` with the new mode in the file |
| `IdsSwap.RunAgrees` | src/agent_main.cpp:227-359 | **Main result.** After any sequence of switches with any failures there are never two live engines, and none contradicts the mode |
| `IdsSwap.DoneMeansSwitched` | src/agent_main.cpp:227-359 | **Main result.** "ok" means, for any file: the mode is the new one, its engine is the only live one, and each reader of the file finds the new mode unless it stops at a line the writer does not recognise |
| `IdsSwap.CleanIsNotStuck` | src/agent_main.cpp:158-222 | Without a carriage return before a colon no such line exists, so that both readers agree with the mode |
| `IdsSwap.StuckIff` | src/agent_main.cpp:158-222 | Such a line is the first line of the mode, with a carriage return behind its key |
| `IdsSwap.DoneIsReadBackIff` | src/agent_main.cpp:250-255 | For any file at all: after "ok" the file names the new mode if and only if the first mode line is one the writer replaces, or named it already |
| `IdsSwap.DoneSurvivesRestart` | src/agent_main.cpp:506-577 | After "ok" a restart fails exactly when its engine does not start, and otherwise runs the engine that is live now exactly when the mode on file and the presence of eve.json select it |
| `IdsSwap.FailureLeavesNoEngine` | src/agent_main.cpp:228-265 | A refused request changes nothing; after any other an engine is live if and only if the reply is ok, and a failure leaves the mode as it was |
| `IdsSwap.FailureLocksTheOldMode` | src/agent_main.cpp:231-232 | After such a failure a request is answered "already" if and only if it names the old mode, and then nothing is started; no request can name the fallback mode |
| `IdsSwap.WatchFileOfRun` | src/agent_main.cpp:267-303 | After any run the watched file is the one of the start if no call reached the adapter, whether or not the adapter then started, and the file of the adapter otherwise |
| `IdsSwap.TailerFollowsLogIff` | src/agent_main.cpp:267-303 | **Main result.** After a run that ends in a successful switch to built-in, the tailer follows the log of the start if and only if no call reached the adapter or both files are the same |
| `IdsSwap.TailerStaysOnEve` | src/agent_main.cpp:267-303 | One way to lose the log: a switch to the adapter and back |
| `IdsSwap.FailedStartLosesTheLog` | src/agent_main.cpp:267-303 | Another, in which the adapter never runs: a failed switch to it from the fallback mode |
| `IdsSwap.RunKeepsOtherSettings` | src/agent_main.cpp:250-352 | No run of switches changes any other setting in the file, whatever the file looks like |
| `IdsSwap.RunKeepsRules` | src/agent_main.cpp:305-306 | The built-in rules are the same after any run, although each switch reads them again from the rewritten file |
| `IdsSwap.ModeAfterSwap` | src/agent_main.cpp:250-356 | The mode a switch leaves in memory and on file, for any file and from any state |
| `IdsSwap.DisagreesIff` | src/agent_main.cpp:250-356 | For any file, a switch makes an agreeing file disagree with the mode if and only if it aborts and the roll-back is needed but not written, or written but not needed (a failed return from the fallback mode); or, when the mode is read from a line the writer does not recognise, if and only if it changes the engine |
| `IdsSwap.BootDisagreesIff` | src/agent_main.cpp:538-544 | For any file, a start leaves the file disagreeing if and only if it falls back and that cannot be saved or is not read back |
| `IdsSwap.RunKeepsFileIff` | src/agent_main.cpp:227-359 | **Main result.** For any file and run, the file agrees with the mode after every call if and only if no call breaks it in the sense of the step result |
| `Tailer.LogTailer.DrainBuffer` | src/log_tailer.cpp:63-82 | One read delivers the lines it completes, the kept text in front of the first, and keeps the rest |
| `Tailer.LogTailer.Drain` | src/log_tailer.cpp:57-84 | **Main result.** However the bytes are cut into reads, exactly the newline-terminated lines are delivered in order and the unterminated rest is kept |
| `Tailer.LogTailer.Rotate` | src/log_tailer.cpp:170-176 | Rotation drops the unterminated rest and delivers nothing |
| `Tailer.LogTailer.Follow` | src/log_tailer.cpp:155-176 | **Main result.** Over any reads and rotations the delivered lines are those of each file in turn |
| `Tailer.LinesDoNotMix` | src/log_tailer.cpp:155-176 | No delivered line holds bytes of two files |
| `Lines.JoinInvertsSplit` | src/log_tailer.cpp:66-82 | Splitting loses no byte |
| `Lines.PiecesAreLines` | src/log_tailer.cpp:67-76 | It cuts at every newline |
| `Lines.SplitOfLines` | src/log_tailer.cpp:66-82 | It is the only way to cut a text at its newlines |
| `Lines.SplitContinues` | src/log_tailer.cpp:70-80 | Splitting a continuation from the kept rest is splitting the whole |
| `Multipart.EncodeInto` | include/zmq_addon.hpp:220-258 | The two passes fill a buffer of exactly the measured size with the encoding, or reject an oversized part |
| `Multipart.MeasureParts` | include/zmq_addon.hpp:222-234 | The first pass computes the size of the encoding and rejects exactly the lists with a part of 2^32 bytes or more |
| `Multipart.Copy` | include/zmq_addon.hpp:252-253 | The copy fills the buffer behind what is there and moves the write position |
| `Multipart.DecodeFrom` | include/zmq_addon.hpp:275-302 | The loop ends on any bytes, never reads past the end, and rejects exactly what the recursive decoder rejects |
| `Multipart.TakeHeader` | include/zmq_addon.hpp:281-290 | The size field at a position, or a rejection when it is cut off |
| `Multipart.OrderBack` | include/zmq_addon.hpp:77-102 | Reading a written size in network order gives it back |
| `Multipart.PartBack` | include/zmq_addon.hpp:280-298 | One encoded part in front of anything is decoded as that part and the rest |
| `Multipart.DecodeInvertsEncode` | include/zmq_addon.hpp:220-302 | **Main result.** decode(encode(ps)) = ps for all parts below 2^32 bytes |
| `Multipart.EncodingsConcatenate` | include/zmq_addon.hpp:220-302 | decode(encode(a) ++ encode(b)) = a ++ b |
| `Multipart.AcceptedInputsAreEncodings` | include/zmq_addon.hpp:275-302 | **Main result.** Any accepted input is consumed to its end; encoding its parts again takes no more bytes (and at most four less per part) and decodes the same |
| `Multipart.AcceptedIff` | include/zmq_addon.hpp:280-298 | **Main result.** A message that is not empty is accepted if and only if its first size, read off its bytes, is whole and announces no more bytes than there are, and what follows is accepted |
| `Multipart.FiveByteSize` | include/zmq_addon.hpp:281-290 | A size below 255 is accepted in five bytes too |
| `Multipart.PartLayout` | include/zmq_addon.hpp:77-253 | The bytes of an encoded part: one size byte below 255, else 255 and the size, most significant byte first |
| `Multipart.EncodingIsLayouts` | include/zmq_addon.hpp:238-254 | An encoding is the layouts of its parts, one after the other |
| `Registry.NodeRegistry.Ping` | include/dlads/node_registry.hpp:28-46 | A first ping registers the node alive, a later one revives it and keeps its first-seen time and alert count |
| `Registry.NodeRegistry.RecordAlert` | include/dlads/node_registry.hpp:49-53 | Counts an alert of a known node and ignores an unknown one |
| `Registry.NodeRegistry.CheckDeadNodes` | include/dlads/node_registry.hpp:56-65 | Marks exactly the alive nodes silent for more than the threshold and changes nothing else, whatever the order of the loop |
| `Registry.NodeRegistry.AliveCount` | include/dlads/node_registry.hpp:76-82 | The loop counts the alive nodes |
| `Registry.Watchdog.Scan` | src/coordinator.cpp:208-225 | Reports exactly the dead nodes not yet flagged, and flags exactly the dead ones |
| `Registry.RegistryIsHistory` | include/dlads/node_registry.hpp:28-65 | Under any interleaving each entry is a function of the history: last and first ping, latest address, status, alert count |
| `Registry.MarkedIsLost` | include/dlads/node_registry.hpp:56-65 | A node is dead if and only if some check found it silent for too long and no ping followed |
| `Registry.ReportedIff` | src/coordinator.cpp:206-224 | **Main result.** A scan reports a node if and only if it is lost and the scan before had not already seen it dead |
| `Registry.ReportsAreEarned` | src/coordinator.cpp:206-217 | The last-seen time in each report is that of the last ping, and lies more than the threshold before an earlier check, with no ping since |
| `Registry.APingSeparatesReports` | src/coordinator.cpp:213-224 | Between two reports of a node there is a ping of it |
| `Registry.SecondDeathCanBeMissed` | src/coordinator.cpp:205-224 | The converse fails when two checks lie further apart than the threshold: a node that came back and fell silent between two scans is not reported again |
| `Registry.LossIsReportedIff` | src/coordinator.cpp:203-226 | **Main result.** On any schedule, a loss after a ping that a scan sees has been reported by then if and only if some scan between the ping and the check that found it saw the node alive, or the last scan before the ping had not seen it dead; it is never reported twice |
| `Registry.EachLossIsReportedOnce` | src/coordinator.cpp:203-226 | **Main result.** If times do not run backwards and successive checks are at most the threshold apart with a scan between them, each loss after a ping that a scan sees has been reported exactly once |
| `Registry.AlertsAreConserved` | include/dlads/node_registry.hpp:49-53 | **Main result.** The sum of the alert counters is the number of alerts recorded for known nodes |
| `Registry.EveryAlertIsCounted` | src/coordinator.cpp:45-46 | In the order of the receiver, which pings first, no recorded alert is missing from that sum |

## Left out

- Sockets, ZMQ contexts, inotify, SQLite, HTTP, JSON text, threads as operating-system objects and
  console output: their outcomes are parameters or nondeterministic steps.
- `AlertEvent::next_id` and alert ids (a suppressed candidate uses one up), rendered description and
  evidence texts, and contributing log ids of the rules: text and counters that no decision reads.
- Floating-point rounding: scores, means and variances are exact reals, and the z-score is compared
  through its square; the anomaly score and the metadata texts of the z-score alert, which need the
  root itself, are not modelled.
- Overflow of `int` thresholds, windows and counters, and of `time_point` arithmetic.
- The source's index keeps pointers into the snapshot; the model keeps the events.
- `mktime` and the current year are parameters of the syslog parser; locale effects are those of the "C" locale.
- `Syslog.ParseSyslog` returns the event that the source fills in place; a failed attempt returns
  what it had filled in until then.
- The nginx and generic key-value line formats, tried when the syslog attempt fails.
- The iteration order of `std::map` and `std::unordered_map` in the registry, the watchdog and the
  cooldown map: the loops take the nodes in any order. The in-place removal of expired entries is a rebuilt list.
- A configuration write that opens the file succeeds; a disk that fills up half way, which the
  source does not notice, is not modelled.
- How long a hot swap takes, and that it can block while it joins the tailer; cooldowns across a switch to
  built-in mode, which starts a fresh rule engine. The cooldown results are per engine.
- The size of the read buffer and the discarded result of a failed `read`: a read delivers any chunk.
- `start` and `stop` of the publisher are called by one thread at a time, as the agent does; `send_loop` is modelled one
  round at a time, each wait, send and counter update being a step of its own.
- Overlapping switch requests: the status server handles one request after the other.
- Opening and closing the socket in `start` and `stop` of the publisher: `Launch` begins behind them.
- The big-endian branch of the network-order functions, which copies the bytes as they are.
- `last_60s` and `last_300s` are built and proved, but no rule reads them.
- The recent-alert cache, the tables that turn enumerations into strings, the dashboards, the simulator and the
  shell scripts: they hold no state or arithmetic beyond a bound on a list or a table lookup.
