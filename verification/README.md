# ScenarioForge: verified models of its algorithms and protocols

ScenarioForge is a web application that composes cyber-range scenarios out of
generators, deploys them, and checks that a participant can solve them. Most of it is
input and output. This project models the parts that decide something, each as the code
has it (same branches, same edge cases, same constants), and proves what those parts are
relied on for.

| file | part of the system |
|---|---|
| `Catalog.dfy` | which copy of a generator the catalog publishes when repository and installed packs collide |
| `InstalledState.dfy` | which installed packs are disabled, by directory or by overlapping ids, and what that means for the catalog |
| `FactRepair.dfy` | the repair of fact names that YAML flow lists split at their commas |
| `Pacing.dfy`, `Payload.dfy` | the traffic agent: closed-loop pacing and payload framing |
| `EvaluationProtocol.dfy` | scheduling and status of evaluation packages: lock, `active` set, status file, workers, restarts |
| `AttackGraph.dfy` | building, validating and reading back the evaluator's attack graph |
| `DashboardLog.dfy` | the stream that turns arbitrary chunks of text into lines of a bounded log |
| `Iptables.dfy`, `FirstMatch.dfy` | tokenising captured firewall lines, and the shadowing scan against first-match evaluation |
| `PivotAccess.dfy`, `PivotFilter.dfy` | the verdict on pivot providers, and what it says about the nodes' filters |
| `FlowPivots.dfy` | merging the pivot records of a flow into edges |
| `PathRewrite.dfy` | rewriting paths in an imported reproduction bundle |
| `SolutionsScript.dfy`, `SolutionsProgram.dfy` | generating the solutions script, and running the commands it consists of |
| `Text.dfy`, `Ordering.dfy`, `Sequences.dfy`, `Optional.dfy` | splitting, joining, stripping and numbers, with the algebra the proofs need; the order of strings; sequences and optional values in general |

Code that the source writes as loops over mutable state is written as methods, each tied
by its contract to a specification function or relation; objects whose methods update their
fields are classes; the package protocol is a transition system over the individual
operations of its threads. Calls the model does not look into (address arithmetic, allow-rule
coverage, the step builder of the solutions script, the outcome of a build or of a write)
are function parameters or arbitrary values, so what is proved holds whatever they do.
Times are integer nanoseconds, rates and random draws are reals.

## Where the code does not do quite what one would expect

* **Send windows.** A window of `w` ns holds at most `(w + 1 s)/tick + 2` writes, and the
  bound is attained: `WindowBoundIsTight` has 202 writes begin at one instant. The bound
  `(w + 1 s)/tick + 1` holds of every run and window exactly when the period is at most a
  second and a tick (`OneFewerIff`); in longer periods it holds of windows whose first write
  began no more than a second late (`PunctualWindowBound`).
* **Shadowed rules.** The scan takes every line whose addresses, protocol and port fit for
  decisive, whatever other options stand before its target, and it does not see a `!` before
  a selector (`NegationIsNotSeen`). Whatever the unread options mean, its answer is that of
  the filter exactly when the rules that can decide all do what the scan says, and one of
  them drops unconditionally if the scan says "shadowed" (`ShadowTrustedIff`; with the
  chain's policy `PolicyTrustedIff`). Options known to hold, such as `-m tcp`, and
  parameters of the target, such as `--reject-with`, are no obstacle: captured lines that
  open ports and close addresses are always judged rightly (`CapturedLinesTrusted`), and so
  is any packet that meets the unread options (`ShadowedWhenMet`). Two of the repository's
  own rules do mislead it. Behind the state match that the segmentation scripts put first in
  a chain it misses a drop of every new connection (`StateMatchMisleads`). The line
  that protects an internal network, `! -s NET -d NET -j DROP`, it reports from inside,
  where the filter lets packets pass, and not from outside, where it drops them
  (`NegatedSelectorMisleads`). The verdict on pivot providers inherits both; where the chains
  can be trusted a pass does mean that no captured filter drops the packets
  (`PassMeansLetThrough`).
* **Longest matching path.** Keys are sorted by their raw length but matched after trailing
  slashes are removed. `LongestMatchIff` says exactly when the longest source is applied
  nevertheless; `TrailingSlashesMislead` is a map with which it is not. Keys without trailing
  slashes or backslashes are always safe (`CleanIsNestedFirst`).
* **Attack graphs of well-formed chains can be rejected.** The schema wants lists without
  repetition. A chain of distinct ids yields a graph the validator accepts exactly when no
  node lists a requirement twice that an earlier node produces, and no producer that is
  depended on has two outputs displayed alike (`ValidIff`); different outputs can be
  (`OutputsCanLookAlike`).
* **Status of a package.** `status` reads the file and the `active` set separately. Its answer
  is true at some instant between its first and its last read, except exactly when the run
  published its result while still active and had left `active` by the last read; then it says
  "interrupted" of a finished run (`StatusErrsExactlyWhen`, `StatusCanErr`).
* **Own-step pivots.** Repeated decisions about a boundary are dropped before it is known
  whether they can be resolved, so a boundary is checked exactly when the *first* decision
  about it is resolvable (`CheckedIff`, `UnresolvedFirstHidesLater`). `insert_before` indexes
  the chain, the script indexes the nodes that have ids; a pivot runs right before the step it
  gates exactly when no earlier node was dropped, and too late otherwise
  (`PivotGatesItsNodeIff`, `PivotComesTooLate`).
* **Merged pivot edges.** The name given to a missing endpoint can be spelled like a real
  one. Every record, well formed or not, is merged into an edge with its own endpoints exactly
  when that does not happen among the selected records (`EndpointsAgreeIff`); otherwise a
  record can end up in a malformed edge (`PlaceholderCollision`) or lose its error
  (`LostMalformedRecord`).
* **Pivot verdict.** Entries that are not mappings are skipped, so a non-empty provider list
  without any well-formed provider passes; `PassIff` is stated accordingly. Only the last
  live row for an address and port is heard.
* **Disabled packs.** A disable can land on another generator that shares an id, exactly when
  the pack's own directory is not recorded (`ForeignIff`, `DisableCanLandElsewhere`); with every
  directory recorded it never does (`SuppressedByOwnRecord`).
* **Catalog.** The rule per id holds for any interleaving of repository and installed
  manifests, not only for the scan order; only the error count needs repository bases first.

## Model

| member | source | states |
|---|---|---|
| Catalog.DiscoverGeneratorManifests | scenarioforge/generator_manifests.py:600-1020 | the loop with its four maps and sets, the filters and the sort publish, for any list of manifests and both settings of `include_disabled`, exactly one entry per id that the order-free rule gives a winner, in key order, and exactly their contracts; the errors are those of the specified run, and exactly the manifests that cannot be used are reported as rejected |
| Catalog.Finish | scenarioforge/generator_manifests.py:985-1020 | from the state the loop leaves, stale and emptied entries included, the final filters leave exactly the winners, ids pairwise distinct and equal to the contract keys |
| Catalog.RunInvariant | scenarioforge/generator_manifests.py:610-983 | throughout the loop all maps know the same ids, the index of an id points at its live entry, a live entry without an index belongs to a suppressed id, and what is known of each id is what the rule says of the manifests so far |
| Catalog.StepKeepsLinks | scenarioforge/generator_manifests.py:714-983 | every branch of the loop body, the one that leaves a stale entry included, keeps the maps and the list linked |
| Catalog.StepKeepsAgreement | scenarioforge/generator_manifests.py:714-983 | one more manifest, of whatever origin and wherever it comes in the scan, moves the loop's knowledge of an id as it moves the rule |
| Catalog.CandidatesSurvive | scenarioforge/generator_manifests.py:985-998 | after the suppressed ids are dropped, the remaining live entries are exactly one per id with a candidate, although stale entries reached the filter |
| Catalog.WinnersSurvive | scenarioforge/generator_manifests.py:999-1018 | dropping the ids of `_disabled` entries turns candidates into winners, in the list and in the contracts alike |
| Catalog.SortIsRight | scenarioforge/generator_manifests.py:1019-1019 | the sort permutes the entries into strictly ascending order of lower-cased name and id |
| Catalog.OrderDoesNotMatter | scenarioforge/generator_manifests.py:610-1020 | two scans of the same manifests in any orders publish equal lists and contracts provided each id meets the same repository copy first |
| Catalog.ErrorsOfOneId | scenarioforge/generator_manifests.py:946-978 | the errors about an id that is not suppressed are, in order, a duplicate with its path for each repository copy after the first, a duplicate for the second installed copy and a conflict for each later one, and no other |
| Catalog.ErrorsOfCatalog | scenarioforge/generator_manifests.py:946-978 | without suppressed ids the duplicate and conflict errors number the sum over all ids of both surpluses |
| Catalog.RejectionsOfRun | scenarioforge/generator_manifests.py:659-698 | the rejections are, in order, one per manifest that does not parse, is no mapping, has another version, no id or another kind, each with its path and the first of these reasons that applies; no usable manifest has one |
| Catalog.WinnerIsUsable | scenarioforge/generator_manifests.py:600-1020 | a published manifest can be used and, among enabled ones only, is disabled neither by its record nor by its ports |
| Catalog.LoneManifest | scenarioforge/generator_manifests.py:714-719 | a manifest alone is published exactly when it can be used and is enabled or disabled ones are wanted too |
| Catalog.InstalledTakesPlaceIff | scenarioforge/generator_manifests.py:675-677 | an installed pack takes the place of a repository copy if and only if it was made from it, or has no source and the same id; otherwise both are published |
| InstalledState.InstalledGeneratorStateMaps | scenarioforge/generator_manifests.py:449-533 | the nested loops hold, for every directory and for every kind and id, the state of the first record that has it, and nothing else |
| InstalledState.FirstAtIsFirstItem | scenarioforge/generator_manifests.py:470-532 | the state of a directory is what the first usable item of the file that lies there and its pack say, disabled if either is disabled or uninstalled; there is none only if no such item lies there |
| InstalledState.FirstNamedIsFirst | scenarioforge/generator_manifests.py:530-531 | the state of a kind and id is that of the first record that goes by them |
| InstalledState.LookupInstalledGeneratorState | scenarioforge/generator_manifests.py:536-552 | the scan returns the state of the first candidate id any record goes by; its set of ids seen changes nothing |
| InstalledState.FirstCandidateIsFirst | scenarioforge/generator_manifests.py:536-552 | the first candidate, blanks aside, that names some record of the kind decides, and there is no state only if none does |
| InstalledState.StateFoundIff | scenarioforge/generator_manifests.py:700-713 | a state is found if and only if the directory is recorded or some record goes by one of the ids that marker and manifest give |
| InstalledState.ForeignIff | scenarioforge/generator_manifests.py:700-713 | the state found for a pack is a record's own, and that record lies in another directory or in none if and only if the pack's directory is not recorded |
| InstalledState.DisableCanLandElsewhere | scenarioforge/generator_manifests.py:454-459 | two packs whose assigned and source ids collide: the disable of one lands on the other while that one's directory is unrecorded, and no longer once it is recorded |
| InstalledState.SuppressedByOwnRecord | scenarioforge/generator_manifests.py:700-719 | with every installed directory recorded, an id is suppressed in the catalog if and only if a pack that publishes it is disabled by its own directory's record |
| InstalledState.StateElsewhereDoesNotMatter | scenarioforge/generator_manifests.py:700-719 | two state files that agree on the installed directories give every id the same winner, whatever else they record under whatever ids |
| FactRepair.RepairSplitFactSequence | scenarioforge/generator_manifests.py:142-180 | the loop over `pending` and `balance` computes the specified state machine, its balance being that of the pending tokens at every round |
| FactRepair.BalanceCounts | scenarioforge/generator_manifests.py:137-139 | the balance of a token is its opening minus its closing parentheses |
| FactRepair.NoOpenerNoBalance | scenarioforge/generator_manifests.py:170-175 | the extra tests for a non-empty token and for an opening parenthesis never change the branch taken |
| FactRepair.RoundTripIff | scenarioforge/generator_manifests.py:137-180 | a fact list written as an unquoted flow list, split at the commas and repaired comes back unchanged if and only if every fact is normally spelled, open at each of its own commas, and closed before the next |
| FactRepair.RepairUndoesSplitting | scenarioforge/generator_manifests.py:142-180 | pieces whose proper prefixes are open and whose total is not are rejoined into exactly the original facts in order, with arbitrary non-string entries between them left in place |
| FactRepair.RepairIsIdempotent | scenarioforge/generator_manifests.py:142-180 | repairing a repaired list changes nothing, whatever mix of strings and other values it holds |
| FactRepair.RepairKeepsTokens | scenarioforge/generator_manifests.py:142-180 | the ordered sequence of trimmed comma-separated tokens and of non-string entries survives the repair of any list |
| Pacing.NewPacer | traffic_agent/pattern.go:56-80 | the bytes per tick are the rate divided by 200 ticks, rounded down but at least one; missing or negative settings give the documented defaults |
| Pacing.JitterStaysInBand | traffic_agent/pattern.go:84-98 | for every draw the jittered delay is not negative and within the configured percentage of the base, up to truncation |
| Pacing.JitterFollowsDraw | traffic_agent/pattern.go:84-98 | it is the base moved by the configured share of it in proportion to how far the draw lies from the middle, rounded down, and zero if that is negative |
| Pacing.StepSizes | traffic_agent/pattern.go:108-135 | every step sends at least a byte and asks for no negative delay; outside poisson it sends between a tenth of a tick's bytes and all of them, and without jitter it asks for exactly one tick |
| Pacing.RampInProportion | traffic_agent/pattern.go:124-131 | a ramp sends a tenth of a tick's bytes in the first tenth of its period, then in proportion to the time passed, and all of them from the end on |
| Pacing.RampGrows | traffic_agent/pattern.go:124-131 | so its sizes never shrink |
| Pacing.PoissonSteps | traffic_agent/pattern.go:110-122 | poisson sends the drawn multiple of a tick's bytes and waits the drawn multiple of a tick, rounded down, at least one byte |
| Pacing.PacedLoop | traffic_agent/main.go:181-212 | the loop, against any clock readings, write times, short writes, failures, oversleeps and cancellation, performs exactly the sends of the specified run and counts their bytes |
| Pacing.AskedBeforeTheWrite | traffic_agent/main.go:188-191 | the step is asked for with the time passed since the start of the period, between the test of the clock and the write |
| Pacing.RoundOutcome | traffic_agent/main.go:188-212 | a round that gets past the test ends the period only by a failed write or a cancelled sleep; it waits for the target and no longer; the target advances by the delay unless the loop is more than a second behind, which is forgiven; the bytes counted are what the connection takes of the payload |
| Pacing.StoppedByTest | traffic_agent/main.go:188-188 | a round sends nothing exactly when the deadline has come or the run is cancelled, and then the period is over |
| Pacing.BytesAddUp | traffic_agent/main.go:193-195 | the bytes counted for two stretches of sends add up, and those of one send are its own |
| Pacing.SendOnePeriod | traffic_agent/main.go:168-213 | a steady pacer makes at most ceil(P/tick) sends in a period and sends at most that many ticks' bytes, whatever the surroundings do |
| Pacing.RunIsPaced | traffic_agent/main.go:188-211 | no send is let through before it is due, the target instant never moves back and is reset only when more than a second behind, and never lies more than a second before a write already begun |
| Pacing.DueGrows | traffic_agent/main.go:203-210 | between any two sends the target instant advances by at least the delays between them, resets included |
| Pacing.WritesInOrder | traffic_agent/main.go:189-211 | writes begin in the order of their sends, so the writes within a window are consecutive |
| Pacing.WindowBound | traffic_agent/main.go:181-212 | any window of w ns within a period holds at most (w + 1 s)/m + 2 writes, m being the least delay |
| Pacing.PunctualWindowBound | traffic_agent/main.go:181-212 | one fewer when the first of them began at most a second late |
| Pacing.WindowBoundIsTight | traffic_agent/main.go:203-210 | a steady pacer whose period exceeds a second and a tick has a run with 202 writes at one instant, which attains the bound |
| Pacing.OneFewerIff | traffic_agent/main.go:181-212 | the bound (w + 1 s)/tick + 1 holds of every run and every window of a steady pacer if and only if its period is at most a second and a tick |
| Pacing.PeriodBound | traffic_agent/main.go:181-212 | a period of P ns holds at most ceil(P/m) sends |
| Pacing.BytesBound | traffic_agent/main.go:190-197 | the bytes counted never exceed the number of sends times the largest step |
| Pacing.PeriodOfPacer | traffic_agent/main.go:168-213 | the same bounds for every run of a pacer, with its own step function |
| Pacing.NoDrift | traffic_agent/main.go:183-211 | while no debt was forgiven the k-th send is due at the start plus the sum of the delays asked for, whatever the writes cost |
| Pacing.OnTimeRun | traffic_agent/main.go:183-211 | when each round's work fits in a tick and sleeps wake on time, the k-th send is let through exactly k ticks after the start and there are exactly ceil(P/tick) of them |
| Payload.PayloadBuilder.constructor | traffic_agent/payload.go:78-85 | an audio builder draws its one kilobyte frame once, the others draw nothing |
| Payload.PayloadBuilder.Bytes | traffic_agent/payload.go:88-155 | exactly n bytes for every content type and random stream; text and audio repeat their segment cut off at n; photos start FF D8, alternate FF with fresh draws and, from six bytes on, end FF D9 exactly for even n; each video segment is 00 00 01 and fresh draws; gibberish is fresh draws |
| Payload.PayloadBuilder.Fill | traffic_agent/payload.go:93-98 | appending whole segments and cutting gives byte i of the segment at its offset within the repetition |
| Payload.PayloadBuilder.PhotoBytes | traffic_agent/payload.go:100-115 | the photo framing, and that the end marker survives the cut exactly for even sizes of at least six |
| Payload.PayloadBuilder.VideoBytes | traffic_agent/payload.go:124-148 | every byte up to the cut is either its place in a start code or the next byte of the random stream, and no more is drawn than that |
| Payload.Choose | traffic_agent/payload.go:46-53 | for any weight table the loop returns, without falling through, the entry whose band of cumulative weights holds the pick |
| Payload.BandsPartitionPicks | traffic_agent/payload.go:42-52 | a pick lies in one band only, so each entry is chosen by exactly its weight of the picks |
| Payload.RandomContentType | traffic_agent/payload.go:22-53 | the table's seven picks give text and gibberish twice and the other three once |
| EvaluationProtocol.StepKeepsInv | webapp/evaluation_artifacts.py:20-69 | each operation of a `schedule` call or worker, failing or not, each new call and each restart keeps the protocol's invariant |
| EvaluationProtocol.RunKeepsInv | webapp/evaluation_artifacts.py:20-69 | so does every finite interleaving of them |
| EvaluationProtocol.Safety | webapp/evaluation_artifacts.py:29-69 | over every interleaving from the start, a run gets at most one worker ever, no two writes of one run overlap, a replaced status file receives what its own writer wrote, and a live worker whose file says preparing is in `active` |
| EvaluationProtocol.TerminalForever | webapp/evaluation_artifacts.py:36-69 | once a run's status is complete or error no later step changes it |
| EvaluationProtocol.StatusErrsExactlyWhen | webapp/evaluation_artifacts.py:20-27 | the answer of `status` is true at no state from its first to its last read if and only if the run, seen preparing, published its result while active and left `active` between the last two reads |
| EvaluationProtocol.WrongAnswerIsInterrupted | webapp/evaluation_artifacts.py:20-27 | the wrong answer is "interrupted", of a run that completed or failed for good |
| EvaluationProtocol.OnlyWorkersPublish | webapp/evaluation_artifacts.py:57-61 | an active run becomes terminal only by its worker replacing the status file |
| EvaluationProtocol.StatusCanErr | webapp/evaluation_artifacts.py:20-27 | for every run id and archive there is such an interleaving, step by step from the empty state, and it meets that condition |
| EvaluationProtocol.InterruptedIsFinal | webapp/evaluation_artifacts.py:25-26 | a run that is truly interrupted never gets another worker; it stays interrupted or becomes terminal |
| EvaluationProtocol.OrphanedForever | webapp/evaluation_artifacts.py:36-69 | a run whose file exists and whose owners are gone or have given it up stays so over every run |
| EvaluationProtocol.RestartForgets | webapp/evaluation_artifacts.py:11-14 | a restart forgets threads, lock and `active`, and keeps the files |
| EvaluationProtocol.RestartInterrupts | webapp/evaluation_artifacts.py:20-27 | a run that was preparing at a restart is reported as interrupted at every later state, whatever is scheduled afterwards |
| EvaluationProtocol.PreparingIff | webapp/evaluation_artifacts.py:36-69 | preparing is the truth about exactly the runs whose file says so and that a live thread still works on, whatever failed |
| EvaluationProtocol.NothingLeftPreparing | webapp/evaluation_artifacts.py:48-69 | without a restart or a failed write of a result or an error, once all threads are done every status file is terminal, failed starts and failed builds included |
| EvaluationProtocol.CompleteWasBuilt | webapp/evaluation_artifacts.py:48-61 | a file that names a package names one that a worker of that run built |
| EvaluationProtocol.OwnResultIsPublished | webapp/evaluation_artifacts.py:57-58 | what a worker built is what it publishes, unless the write fails |
| EvaluationProtocol.StartedOnce | webapp/evaluation_artifacts.py:36-45 | at most one step of any run of the system starts a worker of the same run |
| EvaluationProtocol.ThreadsMoveOn | webapp/evaluation_artifacts.py:36-69 | every operation brings its thread nearer to its end, after at most eleven for a call and five for a worker |
| AttackGraph.NodesOfChain | add-ons/exec-sim/attack_graph.py:134-168 | ids and nodes are those of the usable entries of the saved chain |
| AttackGraph.NodesAreUsableEntries | add-ons/exec-sim/attack_graph.py:134-168 | each usable entry gives one node, in order, with its position in the saved chain, its title or else its id, its kind and its flag |
| AttackGraph.ByNodeIsLast | add-ons/exec-sim/attack_graph.py:129-132 | a node has an assignment if and only if a usable one names it, and then it is the last that does |
| AttackGraph.AssignedIsLast | add-ons/exec-sim/attack_graph.py:170-200 | what a node needs, makes and resolves is what that last assignment says, and nothing without one |
| AttackGraph.GroupBySource | add-ons/exec-sim/attack_graph.py:174-180 | the sources are distinct, and each carries exactly the requirements it produces, in order |
| AttackGraph.RecordProducts | add-ons/exec-sim/attack_graph.py:193-197 | after a node's products are recorded the map gives each fact's latest producer so far, for every fact |
| AttackGraph.LastProducer | add-ons/exec-sim/attack_graph.py:176-180 | the position given makes the fact and no later one before the target does; none is given only if nothing earlier makes it |
| AttackGraph.FactDependencies | add-ons/exec-sim/attack_graph.py:170-197 | with distinct ids the records are exactly one per pair of positions that some fact connects, from an earlier to a later one, with exactly the facts whose latest earlier producer the source is |
| AttackGraph.FactsBetweenDistinct | add-ons/exec-sim/attack_graph.py:175-189 | a record's facts repeat exactly when a requirement with that producer is listed twice |
| AttackGraph.EdgeFacts | add-ons/exec-sim/attack_graph.py:199-212 | each sequence edge carries the facts of its own pair and, if there are any, its source's outputs |
| AttackGraph.EdgeFactIff | add-ons/exec-sim/attack_graph.py:172-212 | the facts on the edge to the next node are exactly those it needs that this one makes |
| AttackGraph.ValidIff | add-ons/exec-sim/attack_graph.py:47-74 | a graph built from distinct ids passes the validator if and only if no requirement with an earlier producer is repeated and no producer that is depended on displays two outputs alike |
| AttackGraph.OutputsCanLookAlike | add-ons/exec-sim/attack_graph.py:191-191 | two outputs with different keys and the same display string |
| AttackGraph.AttackGraphFromFlowState | add-ons/exec-sim/attack_graph.py:120-224 | building succeeds if and only if the chain is non-empty, its ids are distinct, no requirement with an earlier producer is repeated and no producer that is depended on displays two outputs alike; then the graph is valid and describes the chain's reaching definitions |
| AttackGraph.ChildrenMap | add-ons/exec-sim/dashboard.py:441-443 | for any edge list, each source's targets in edge order |
| AttackGraph.Traversal.Traverse | add-ons/exec-sim/dashboard.py:448-465 | on a valid graph, visiting a chain position not reached yet visits the whole rest of the chain, each node once; visiting one already reached changes nothing |
| AttackGraph.ParseReferenceGraph | add-ons/exec-sim/dashboard.py:437-468 | the depth-first search over any valid graph terminates with the nodes in chain order, the consecutive pairs as links and each edge's artifacts |
| AttackGraph.ReferenceGraphOfFlow | add-ons/exec-sim/dashboard.py:437-468 | end to end: under exactly those conditions a saved flow is read back, as its chain with the facts each target needs that its predecessor was the last to make |
| AttackGraph.VisitsShow | add-ons/exec-sim/dashboard.py:453-460 | each node is shown with the id and title of its saved entry, as start if it is the first, else as exploit, pivot or technique by its flag and kind |
| DashboardLog.DashboardLogTee.constructor | add-ons/exec-sim/dashboard.py:735-738 | a new stream holds no text |
| DashboardLog.DashboardLogTee.AppendLine | add-ons/exec-sim/dashboard.py:685-698 | the log becomes the last 2000 of the old lines and the new one |
| DashboardLog.LastOfIsEnd | add-ons/exec-sim/dashboard.py:695-696 | trimming keeps the end of the list, as many lines as allowed, and drops nothing of a short one |
| DashboardLog.DashboardLogTee.Write | add-ons/exec-sim/dashboard.py:740-746 | everything is passed on; the complete lines of leftover and text reach the bounded log, the rest stays in the buffer |
| DashboardLog.ChunkingDoesNotMatter | add-ons/exec-sim/dashboard.py:740-746 | however a text is divided among writes, the log is the last 2000 of the earlier lines and its complete lines, and the buffer what follows its last newline |
| DashboardLog.LinesAndRestAreText | add-ons/exec-sim/dashboard.py:743-745 | the lines joined by newlines, with the leftover, are the text, and none of them contains a newline |
| DashboardLog.LinesOfAppend | add-ons/exec-sim/dashboard.py:742-745 | a chunk continues where the leftover of the text before it stopped |
| Iptables.ParseIptablesLine | webapp/artifact_checks.py:297-322 | a line is read if and only if it adds a rule, at the end or the start of a chain, and the index loop computes the specified fields of any such line, malformed ones included |
| Iptables.LongFormsAgree | webapp/artifact_checks.py:307-312 | the long forms of the selectors are read like the short ones |
| Text.CaseOfLetters | webapp/artifact_checks.py:312-320 | each ASCII letter changes case to its partner and nothing else changes |
| Text.ParseIntOfDecimal | webapp/artifact_checks.py:314-318 | a number printed in decimal is read back |
| Text.DigitsAre | webapp/artifact_checks.py:314-318 | the digits that are read, and their values |
| Text.WordsAtBlank | webapp/artifact_checks.py:299-299 | any blank separates the words of a line |
| Iptables.ParseOfPrint | webapp/artifact_checks.py:297-322 | parsing recovers every field of any rule printed as an `-A` line, its selectors, negated or not, and its target in any order, with any other options of any number of words before, between and after them |
| Iptables.NegationIsNotSeen | webapp/artifact_checks.py:305-321 | any printed rule and the rule without its exclamation marks are parsed alike |
| Iptables.IptablesLineMatches | webapp/artifact_checks.py:325-349 | the early-exit scan accepts exactly if the port, if the line has one, is the packet's, the protocol is TCP, all or none, and both selectors are absent, name any address or cover the packet's |
| Iptables.ShadowingRule | webapp/artifact_checks.py:352-378 | the early-return scan over a node's captured lines reports what the specification of shadowing does, missing rules and uncaptured nodes included |
| Iptables.ShadowIsFirstDecision | webapp/artifact_checks.py:367-378 | a line is reported if and only if the first line of the chain that decides the packet drops it, and that line is the one reported |
| FirstMatch.DecisiveIff | webapp/artifact_checks.py:325-378 | a printed rule is decisive for the scan if and only if it has a final target and each of its selectors, negations left out, covers the packet, and it drops if its target does |
| FirstMatch.AdmitsIff | webapp/artifact_checks.py:352-378 | a filter's rule admits a packet if and only if its selectors, negations included, select it and the unread options before its target hold, those known to hold aside |
| FirstMatch.EvaluateIsOutcome | webapp/artifact_checks.py:352-378 | first-match evaluation of the packet's chain depends only on which rules the selectors admit, their remaining conditions and their targets |
| FirstMatch.ShadowIsScan | webapp/artifact_checks.py:367-378 | on printed rules the scan decides by the first rule that seems to apply and has a final target, its conditions unread |
| FirstMatch.PositiveIsReadRight | webapp/artifact_checks.py:337-368 | the scan is right about which packets a rule without negated selectors is for, provided chain names do not differ in case only |
| FirstMatch.LiveCanDecide | webapp/artifact_checks.py:367-378 | a rule that no earlier one pre-empts decides some packet |
| FirstMatch.ShadowTrustedIff | webapp/artifact_checks.py:352-378 | on the printed lines of any rules, shadowing equals the filter dropping the packet, whatever the unread options and other targets mean beyond what is known of them, if and only if the rules that can decide all do what the scan says and, if that is to drop, one of them does so unconditionally |
| FirstMatch.TrustedIffSettled | webapp/artifact_checks.py:352-378 | for rules the scan reads right that condition does not mention the scan: the rules that can decide all accept, or all drop and one of them unconditionally |
| FirstMatch.PolicyTrustedIff | webapp/artifact_checks.py:352-378 | the same with the policy of the chain, which the scan does not see: it counts as one more unconditional rule at the end |
| FirstMatch.ShadowedWhenMet | webapp/artifact_checks.py:352-378 | for rules the scan reads right, shadowing equals the filter dropping the packet whenever the packet meets the unread options of the rules that apply and other targets let it go on |
| FirstMatch.ShadowedIffDropped | webapp/artifact_checks.py:352-378 | and so it does under every meaning if all unread options are known to hold and all other targets to let packets go on |
| FirstMatch.CapturedLinesTrusted | tests/test_artifact_checks.py:1347-1355 | in particular on any mixture of lines that open a port with `-m tcp` and lines that drop or reject an address, parameters of REJECT included |
| FirstMatch.StateMatchMisleads | webapp/artifact_checks.py:352-378 | behind the state match of the segmentation scripts (scenarioforge/utils/segmentation.py:483-485) a drop of every new connection is not reported |
| FirstMatch.NegatedSelectorMisleads | scenarioforge/utils/segmentation.py:1441-1444 | on the line that protects an internal network, filter and scan disagree about every packet to it: dropped exactly from outside, reported exactly from inside |
| Iptables.AppendingKeepsVerdict | webapp/artifact_checks.py:367-378 | further lines never change a verdict that is already decided |
| PivotAccess.OutsideAddress | webapp/artifact_checks.py:2522-2537 | an address outside the subnet, unless the subnet covers all three documentation addresses |
| PivotAccess.LivePathVerdicts | webapp/artifact_checks.py:2143-2156 | for each address and port the last usable row, and nothing when the probe failed |
| PivotAccess.OpeningRule | webapp/artifact_checks.py:267-277 | the first allow rule that covers the path, rules of one node and chain told apart |
| PivotAccess.OpeningIsFirst | webapp/artifact_checks.py:274-277 | a path is opened if and only if some rule covers it, and then by the first in the list that does |
| PivotAccess.LastRowIsLast | webapp/artifact_checks.py:2143-2156 | the row heard is the last about the address and port, and none only if none is about them |
| PivotAccess.SourcesAsked | webapp/artifact_checks.py:2236-2246 | with participant sources these are asked from, all of them and in order; without, the stand-in that the rules name, else the address outside the subnet |
| PivotAccess.AnyMissing | webapp/artifact_checks.py:2248-2250 | empty exactly when a rule opens the provider from every source |
| PivotAccess.AnyShadow | webapp/artifact_checks.py:2261-2267 | a line is found exactly when the path from some source is shadowed |
| PivotAccess.ClassifyProvider | webapp/artifact_checks.py:2217-2341 | one round of the loop, with all its early exits, gives a provider its class |
| PivotAccess.PivotAccessResult | webapp/artifact_checks.py:2159-2362 | the loop's four counters count the items of their classes, and the status is the worst of all items |
| PivotAccess.CountsDecide | webapp/artifact_checks.py:2346-2362 | the order in which the counters are tested yields fail if any item fails, else warn if any warns, else pass |
| PivotAccess.CountsAddUp | webapp/artifact_checks.py:2205-2341 | the four counters and the verified items add up to all items |
| PivotAccess.ProbesExist | webapp/artifact_checks.py:2236-2246 | a well-formed provider is always asked about from some source |
| PivotAccess.OneItemEach | webapp/artifact_checks.py:2217-2341 | each well-formed provider yields exactly one item, in order, in exactly one class |
| PivotAccess.ClassMeaning | webapp/artifact_checks.py:2217-2341 | whatever the order of the tests, a provider fails if and only if one piece of evidence breaks it (no place, a source no rule lets in or whose rule is shadowed, a probe from the asked source without a reply), and passes if and only if every piece speaks for it |
| PivotAccess.ClassIff | webapp/artifact_checks.py:2217-2341 | each of the seven classes is given in exactly the stated circumstances: no place, a source no rule covers, a shadowed source, and else by what the last row about the provider tells |
| PivotAccess.PassIff | webapp/artifact_checks.py:2159-2362 | the whole check passes if and only if every well-formed provider is reachable in that sense |
| PivotAccess.FailIff | webapp/artifact_checks.py:2346-2350 | and fails if and only if some well-formed provider is broken, so that it warns in exactly the remaining cases |
| PivotAccess.PassFromEverySource | webapp/artifact_checks.py:2236-2362 | with participant sources the check passes if and only if every well-formed provider has an address, some rule lets it in from each source and no captured line of the first such rule's node shadows it, and the last row about it reports a reply from a source asked for or let in |
| PivotAccess.FailFromSomeSource | webapp/artifact_checks.py:2236-2350 | and it fails if and only if some well-formed provider has no place, is not let in from one of the sources, or its last row reports a probe from the source asked for that ran without a reply |
| PivotFilter.ShadowOfIff | webapp/artifact_checks.py:352-378 | a probe source counts as shadowed exactly when the filter of the node with its allow rule drops its packet, under every meaning, if and only if that chain and its policy are settled as the scan says |
| PivotFilter.PassMeansLetThrough | webapp/artifact_checks.py:2159-2362 | where the chains can be trusted the check passes if and only if every well-formed provider is let in by an allow rule from every probe source, no captured filter drops its packet from any of them, and it answered |
| PivotFilter.ShadowedMeansDropped | webapp/artifact_checks.py:2261-2275 | and a provider with allow rules for all its sources is reported as shadowed if and only if a captured filter drops its packet from one of them |
| FlowPivots.CollectEntries | webapp/artifact_checks.py:1722-1741 | both lists hold exactly the records of their side, in order |
| FlowPivots.SideIff | webapp/artifact_checks.py:1730-1741 | a record stands on the side its role names; without one, on the target side if it requires a pivot, else on the source side if it produces one |
| FlowPivots.OneSideOnly | webapp/artifact_checks.py:1743-1743 | target-side and source-side records are never merged together |
| FlowPivots.SelectedIff | webapp/artifact_checks.py:1743-1743 | if some record stands on the target side, the selected ones are exactly those that do, else exactly those on the source side |
| FlowPivots.PlaceOfRecord | webapp/artifact_checks.py:1724-1741 | each record of a side is collected, behind those of the side that stand before it |
| FlowPivots.MergeRecord | webapp/artifact_checks.py:1772-1813 | one round of the loop turns the merge of the records so far into that of one more |
| FlowPivots.FlowPivotRelationships | webapp/artifact_checks.py:1722-1815 | the loop over the edge map yields one edge per key in order of first appearance, each the summary of exactly its records |
| FlowPivots.AppendMissing | webapp/artifact_checks.py:1805-1810 | what is new is appended, once and in order |
| FlowPivots.AppendNewInOrder | webapp/artifact_checks.py:1805-1810 | new values stand in the order of their first appearance |
| FlowPivots.SummaryMeaning | webapp/artifact_checks.py:1781-1813 | an edge lists the assignments of all its records in order; its ports are distinct, within 1 to 65535, and exactly those that the records declare, themselves or else by inference; its protocols are distinct and exactly the words declared, in upper case |
| FlowPivots.PortsIff | webapp/artifact_checks.py:1747-1760 | the ports read from a list of raw values are exactly the usable numbers that stand in it alone or between commas |
| FlowPivots.PortsKeepOrder | webapp/artifact_checks.py:1747-1760 | further values are read behind the earlier ones |
| FlowPivots.ProtocolsIff | webapp/artifact_checks.py:1762-1770 | the protocols read are distinct, exactly the words of the raw values in upper case |
| FlowPivots.CommaSeparates | webapp/artifact_checks.py:1766-1767 | where a comma separates words as a blank does |
| FlowPivots.SummaryNamesFirst | webapp/artifact_checks.py:1781-1813 | the provider, its label and the exposure of an edge are each the first that one of its records gives |
| FlowPivots.WellFormedEdgesDistinct | webapp/artifact_checks.py:1777-1799 | edges with both endpoints never repeat a pair of endpoints |
| FlowPivots.KeysInFirstAppearanceOrder | webapp/artifact_checks.py:1781-1799 | edges stand in the order in which their first records do |
| FlowPivots.EveryRecordCountedOnce | webapp/artifact_checks.py:1772-1800 | the assignment indexes of all edges together are those of the selected records, each as often |
| FlowPivots.MergeIsUnique | webapp/artifact_checks.py:1772-1815 | the merge's contract determines its result |
| FlowPivots.EndpointsAgreeIff | webapp/artifact_checks.py:1777-1800 | all records, well formed or not, are merged into edges with their own endpoints if and only if no selected record has an endpoint spelled like the placeholder of another that agrees with it about the other endpoint |
| FlowPivots.MalformedAreReported | webapp/artifact_checks.py:1775-1797 | then an edge is marked malformed exactly when its records lack an endpoint |
| FlowPivots.PlaceholderCollision | webapp/artifact_checks.py:1778-1780 | a well-formed record merged into an earlier one's malformed edge |
| FlowPivots.LostMalformedRecord | webapp/artifact_checks.py:1775-1797 | a malformed record merged into an earlier well-formed edge, its error lost |
| PathRewrite.ReplacePath | webapp/reproduction_bundle.py:247-258 | the early-return scan over the sorted map moves the text by the chosen entry, or leaves it |
| PathRewrite.SeparatorsAreSlashes | webapp/reproduction_bundle.py:249-250 | a backslash in a key counts as a slash, and nothing else of the key is changed |
| PathRewrite.LongestMatchIff | webapp/reproduction_bundle.py:247-258 | the longest source above a text is applied for every text if and only if the sorted map has no source ahead of one nested in it |
| PathRewrite.LongestIfNestedFirst | webapp/reproduction_bundle.py:247-258 | under that condition, for each text |
| PathRewrite.NestedFirstIfLongest | webapp/reproduction_bundle.py:247-258 | and a map that breaks it misrewrites some text |
| PathRewrite.CleanIsNestedFirst | webapp/reproduction_bundle.py:249-250 | keys without trailing slash or backslash always meet the condition |
| PathRewrite.TrailingSlashesMislead | webapp/reproduction_bundle.py:249-250 | a two-entry map and a text for which a shorter source wins |
| PathRewrite.MapOrderDoesNotMatter | webapp/reproduction_bundle.py:247-258 | with such keys the result is the same for every order of the map |
| PathRewrite.SiblingsStay | webapp/reproduction_bundle.py:254-258 | a name that merely begins like a source is not under it, and a text under no source is unchanged |
| PathRewrite.RewriteKeepsShape | webapp/reproduction_bundle.py:261-268 | rewriting a JSON tree keeps its shape, keys and other leaves and rewrites each of its strings, in order |
| PathRewrite.InverseUndoes | webapp/reproduction_bundle.py:247-258 | with sources and destinations each pairwise non-nested, the inverse map restores every path under a source |
| PathRewrite.InverseUndoesDocument | webapp/reproduction_bundle.py:261-268 | and every JSON tree whose strings are under a source or under no entry at all |
| SolutionsScript.IndexByNode | webapp/solutions_script.py:605-612 | for every id, the index holds the first assignment that names it, and nothing else |
| SolutionsScript.KeptIff | webapp/solutions_script.py:633-633 | exactly the nodes with an id that is not blank are covered |
| Text.StripIsMiddle | webapp/solutions_script.py:40-43 | stripping takes blanks from both ends, leaves none there, and changes nothing else |
| Text.BlanksAre | webapp/solutions_script.py:40-43 | the characters that count as blank |
| SolutionsScript.FirstNamingIsEarliest | webapp/solutions_script.py:607-612 | that assignment exists exactly when one names the id, and no earlier one does |
| SolutionsScript.AlignAssignments | webapp/solutions_script.py:601-623 | each node gets the first assignment that names it, else the one in its position, else an empty one |
| SolutionsScript.AlignedToMeaning | webapp/solutions_script.py:601-623 | a node gets the first assignment that names it, wherever that stands; only without one the usable one in its own position; else an empty one |
| SolutionsScript.BuildChecks | webapp/solutions_script.py:634-652 | each step is built from its own node and assignment and from the facts told before it |
| SolutionsScript.StepIsBuiltFromItsOwn | webapp/solutions_script.py:640-652 | steps are numbered from 1, each built from its own number, node and assignment and from each fact as an earlier step first told it |
| SolutionsScript.CanonIgnoresBlanks | webapp/solutions_script.py:67-72 | blanks anywhere in an artifact key make no difference to its spelling |
| SolutionsScript.CanonOfSolid | webapp/solutions_script.py:67-72 | nor does case, and nothing else is dropped |
| SolutionsScript.EarliestOfferWins | webapp/solutions_script.py:646-652 | a fact has the value of the first non-blank item spelled like it, whatever follows |
| SolutionsScript.OutputsBeforeInputs | webapp/solutions_script.py:645-652 | of what one assignment tells of a fact, its outputs come before its inputs |
| SolutionsScript.GateValueComesFromEarliestStep | webapp/solutions_script.py:645-652 | a fact is known to a step exactly when an earlier step tells it, with what the earliest such step told |
| SolutionsScript.StepDependsOnPrefix | webapp/solutions_script.py:643-652 | a step is determined by the chain and the aligned assignments up to itself |
| SolutionsScript.ShorterChainSameSteps | webapp/solutions_script.py:643-652 | the steps of a prefix of the chain are a prefix of the steps |
| SolutionsScript.KeptPosition | webapp/solutions_script.py:634-634 | a chain index names the same node among those kept if and only if no earlier node was dropped |
| SolutionsProgram.OwnStepPivots | webapp/solutions_script.py:547-571 | the loop with its set of seen boundaries keeps the first own-step decision about each |
| SolutionsProgram.OwnStepsAreFirsts | webapp/solutions_script.py:566-570 | a decision is kept if and only if it is an own step and the first about its boundary |
| SolutionsProgram.CheckedIff | webapp/solutions_script.py:574-590 | a boundary gets a pivot check if and only if the first own-step decision about it has an address and a port |
| SolutionsProgram.UnresolvedFirstHidesLater | webapp/solutions_script.py:566-581 | a resolvable decision that is dropped behind an unresolvable one, leaving its boundary unchecked |
| SolutionsProgram.PivotsAreDistinct | webapp/solutions_script.py:659-668 | pivot numbers are strictly increasing, so no two pivots are the same |
| SolutionsProgram.PivotsAreNumbered | webapp/solutions_script.py:657-669 | the pivots are exactly the resolvable own-step decisions, each with its position among all own steps as number and its `insert_before`, or -1, as place |
| SolutionsProgram.PlacePivots | webapp/solutions_script.py:657-669 | the dict holds, for every place, exactly the pivots of that place in order, its keys in order of first appearance, and the total counts all |
| SolutionsProgram.EmitPivots | webapp/solutions_script.py:855-869 | appends one command per pivot of a place, and nothing for a place without |
| SolutionsProgram.BuildSolutionsScript | webapp/solutions_script.py:626-901 | the emitted commands are those specified for the kept nodes and the resolvable pivots, a step being skipped exactly when its check has a reason, and the printed total counts both |
| SolutionsProgram.StepsFitReasons | webapp/solutions_script.py:878-889 | every command of the script that is no pivot check skips its step if its check has a reason to, and checks it otherwise |
| SolutionsProgram.EverythingOnce | webapp/solutions_script.py:871-894 | whatever places the decisions name, each step is emitted exactly once in chain order and each pivot exactly once |
| SolutionsProgram.PivotsGateTheirStep | webapp/solutions_script.py:871-894 | before each pivot check run exactly the steps that precede the one it gates; before one that gates none, all steps |
| SolutionsProgram.UnplacedPivotsComeLast | webapp/solutions_script.py:661-664 | a pivot whose decision names no position, or none of the chain, runs after all steps, and one that names a position after exactly the steps before it |
| SolutionsProgram.PivotGatesItsNodeIff | webapp/solutions_script.py:634-669 | a pivot that names chain position k runs right before the step of that node if and only if no earlier node was dropped; otherwise that step has run already |
| SolutionsProgram.PivotComesTooLate | webapp/solutions_script.py:634-669 | a two-node chain whose pivot runs after the step it gates |
| SolutionsProgram.RestPlaces | webapp/solutions_script.py:893-894 | the places emitted at the end are exactly those in use outside the chain, ascending |
| SolutionsProgram.Shell.Record | webapp/solutions_script.py:776-787 | one more verdict is counted, in its own counter only |
| SolutionsProgram.Shell.CheckStep | webapp/solutions_script.py:789-812 | the verdict of a step from its flag and its output |
| SolutionsProgram.Shell.CheckPivot | webapp/solutions_script.py:814-835 | the verdict of a pivot from a whole line of its output |
| SolutionsProgram.Shell.Run | webapp/solutions_script.py:776-901 | running any commands counts each verdict once and exits with 1 exactly when some counted failure occurred |
| SolutionsProgram.SummaryAddsUp | webapp/solutions_script.py:896-899 | whatever the payloads print, passed, failed, inconclusive and skipped add up to the printed total |
| SolutionsProgram.ExitMeaning | webapp/solutions_script.py:900-901 | the exit status is 1 if and only if a pivot did not answer or a step with a known flag printed nothing; skipped and inconclusive steps never fail the run |
| SolutionsProgram.ExitOfChecks | webapp/solutions_script.py:776-901 | in terms of the checks: 1 if and only if a pivot did not answer, or a step without a reason to be skipped and with a known flag printed nothing |
| SolutionsProgram.SkippedAreThoseWithReason | webapp/solutions_script.py:837-889 | every run counts as many skipped steps as checks have a reason |
| SolutionsProgram.VerdictMeaning | webapp/solutions_script.py:789-841 | a pass is a pivot that answered or a known flag that occurs in the output, a failure as above, a skip a skipped step; inconclusive is a step without a known flag, or with output that lacks it |

## Left out

- Flask routes, CORE, Docker, SSH, HTTP and LLM clients, file and archive handling, hashing, and the parsing of YAML, JSON and XML: models start from parsed values.
- `_reroot_installed_item_path`, the reading of marker files and the kind aliases: an item's directory, marker ids and normalised kind are inputs, and so is the outcome of the compose scan that sets `_disabled`.
- `normalize_artifact_name_list` and the repair of single-entry mappings in fact lists: name normalisation is a table and the repair is modelled on lists of strings and other values.
- Two run ids whose hashed directories collide: the protocol is modelled per run id.
- The recursion limit of the depth-first search, and the formatting of output values, which are given as they are displayed.
- Integer overflow of Go durations and rounding of floating-point rates; poisson draws are any non-negative reals.
- `runReceiver`, `retryDelay` and the dial before a send period: backoff around sockets.
- The alias tables of `NormalizePattern` and `NormalizeContentType`: only the weighted choice is modelled.
- What a filter does with a packet after a jump to another chain is arbitrary in the comparison with first-match evaluation, except at targets named as letting it go on; so is whether an unread option holds, which depends on the option and the packet alone. Options are taken as `iptables -S` prints them, unread ones behind the target being parameters of the target.
- Captures are taken to be complete: the source keeps the first 200 lines of a node.
- `int()` on signed, padded or underscored text: numbers in firewall lines are plain decimal digits.
- `reachability_result`, `overall_status` and the wording of results: classes and counts only.
- `_portable_target_path`, `_safe_member_name`, `_validate_infos` and the rewriting of paths in XML: archive hygiene and tree editing around the rewriting modelled here.
- `_build_node_check` and what it calls (`_http_gates`, the retrieval commands): the step builder is an arbitrary function of number, node, assignment and known facts; bash quoting, the header and its list of starting facts are not commands.
- A failure to write the log file, which the source ignores: the log is modelled as updated by every line.
- Unicode: blanks, case and digits are those of ASCII.
- SolutionsProgram.Shell.CheckStep: expected flags are taken to be one line that does not begin with a dash, because `grep` reads others as several patterns or as an option.
- Iptables.ParseOfPrint: values that begin with a dash are not covered, because the tokeniser takes them for options; nor is a selector given twice, which iptables refuses.
- PathRewrite.InverseUndoesDocument: strings that are under a destination but under no source are excluded, because the inverse map moves them.
