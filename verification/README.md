# The smart-home rule engine, in Dafny

This project models the home-automation backend: how a rule's condition tree is evaluated through Redis, how the writes of competing rules are resolved, how device reports find the rules to evaluate, how time conditions become cron jobs, and how the remote-access relay, the login sessions and the `.env` file behave. Each operation that changes state is a method specified by functions or relations on values; what the system relies on is proved about those, over all inputs and, for the running system and the relay, over all runs.

| file | what it holds |
|---|---|
| `Text.dfy`, `Json.dfy`, `Redis.dfy`, `Store.dfy` | Go string order and number texts, decoded JSON, the Redis operations with their expiry, the tables |
| `Conditions.dfy`, `TimeConditions.dfy` | condition trees and what they mean; clock texts, boundaries, cron text |
| `Evaluator.dfy` | evaluation with the sixty-second cache |
| `Conflicts.dfy`, `TaskQueue.dfy`, `Publication.dfy` | conflict resolution; the evaluation job; what it publishes, read off the stored rules |
| `DeviceIndex.dfy`, `Scheduling.dfy`, `RuleEngine.dfy` | the device index and device reports; live cron jobs; rule changes reaching both |
| `House.dfy` | whole runs of all of these on one database |
| `Relay.dfy`, `Answers.dfy` | the remote-access relay as a transition system; which of its requests can still be answered |
| `Sessions.dfy`, `EnvFile.dfy` | sliding sessions; the environment file |

Conventions. The JSON codec is a parameter (`Decoder`): every result holds for any function from bytes to decoded values. Time is one clock in milliseconds, local midnight at multiples of a day. A Go map range and a Redis reply come in an arbitrary order (`Text.Enumerate`), so no result depends on one. A condition tree that does not decode is `None`.

## What turned out not to hold

- A device whose ID ends in `:rules` stores its state under another device's index key. `DeviceIndex.ReportKeepsAgreementIff` says exactly when that loses index entries; `House` assumes of reports only that it does not happen.
- Deleting a rule drops its associations before checking the owner, and by the text of the ID, while the tables read a number in it (rules.id is an integer, schema.sql:93). `RuleEngine.Engine.DeleteRule` says exactly when the index and the schedule rows are still right afterwards: a stranger can silence a rule, and an owner who writes 007 for 7 leaves 7 in the index.
- A leaf without a device ID reads the state of the device with the empty ID, which no index lists (`DeviceIndex.NeverMissedIff`).
- The comment on `LoadSchedules` (internal/scheduler/scheduler.go:48-49) recommends calling it whenever schedules are updated. The code then orphans the old entry of every row that is loaded again; `Scheduling.Scheduler.LoadSchedules` says which, and `Scheduling.OrphansNeverGo` that they stay.
- A time leaf with `!=` and a compound node typed `time` with an unreadable value can change truth at minutes that are never extracted. `TimeConditions.CoveredIff` says exactly which trees the extracted minutes suffice for, and `Evaluator.CacheAnswersDirectlyIff` that the cache agrees with the clock in quiet windows for just those.
- A rule is woken at the minutes its conditions name, but not at the minutes where they change: "> 18:00" is woken at 18:00, where it is still false, "== 18:00" is not woken when it ends, and a change at midnight goes unnoticed unless 00:00 is named. `TimeConditions.WokenIff` says which sets of minutes would be enough, and `TimeConditions.LoneLeafIsWokenIffConstant` that one boundary is not, for a leaf that ever changes.
- The cron job of a boundary can read the answers of the minute before from the cache. `Evaluator.DirectIffNoStaleLeaf` says for every tree exactly when.
- The redundancy pre-check panics when it compares two arrays or two objects, and the job is retried (`TaskQueue.AreAllActionsRedundant`). Its reading of device_id excludes the collector's, so neither its skips nor its panics ever cost a message (`TaskQueue.RedundantPublishesNothing`, `TaskQueue.EvaluateAndExecute`).
- The relay can lose a request in four ways, among them a response that overtakes the registration of its channel and one left unread when its connection ends; it can unregister a reconnected agent, and it can block forever. `Relay.LostRunIffLoses`, `Relay.RegisteredRunIffNothingCloses` and `Relay.StuckRunIffLate` say of every run exactly when that happens, and `Answers.AnswerableIffHopeful` says of every state which requests can still be answered: one timed-out client dooms all requests behind it on its connection.
- A secret taken from the environment is read back from the `.env` file exactly when it has no newline, no trailing white space, and fits the line scanner (`EnvFile.SaveToEnvFile`).
- The scanner stops at the first line it cannot hold, so rewriting the `.env` file drops that line and all behind it. `EnvFile.SaveToEnvFile` says exactly when that loses a variable.
- Redis reports a time to live in whole seconds, so a session validated at gaps just under twenty hours can expire. The bounds in `Sessions` carry the reporting error as a parameter, and `GapBoundIsTight` shows that they are exact.

## Model

| member | source | states |
|---|---|---|
| Text.LessIsTotal | internal/taskqueue/tasks.go:224 | the string order that ranks rule IDs is total: of two different IDs exactly one is lower |
| Text.LessIsTransitive | internal/taskqueue/tasks.go:224 | that order is transitive |
| Text.LessIffFirstDifference | internal/taskqueue/tasks.go:224 | which is lower: the one with the smaller character at the first difference, or the one that ends there |
| Conditions.TruthFromLeaves | internal/automation/evaluator.go:89-100 | a tree's truth depends on nothing but the answers of the leaves below its compound nodes |
| Conditions.UnnamedDeviceIsIrrelevant | internal/automation/evaluator.go:34-53 | worlds that differ only in the state of a device the tree does not name answer every leaf alike |
| Conditions.NumberLeafMeans | internal/utils/helpers.go:30-41 | a numeric condition, sensor or device, compares the number in the field of its device with its own by the order its operator names |
| Conditions.PlainLeafMeans | internal/utils/helpers.go:42-60 | on texts and truth values "==" is equality, "!=" its complement within the type, and nothing else holds |
| Conditions.OtherLeavesAreFalse | internal/utils/helpers.go:85-86 | across types, without the field and for other kinds of leaf every comparison is false |
| Conditions.NumberLeafLaws | internal/utils/helpers.go:30-41 | exactly one of "<", "==", ">" holds, and a growing number keeps ">" true and "<" false |
| Conditions.CompoundLaws | internal/automation/evaluator.go:89-100 | AND and OR of joined child lists are conjunction and disjunction of the parts, with their units; no other operator is ever true |
| Conditions.DevicesIff | internal/engine/engine.go:135-158 | a tree names exactly the non-empty IDs of its nodes, leaves and compounds |
| Conditions.ParseClock | internal/utils/helpers.go:64-72 | every minute read is within the day |
| Conditions.ParseClockIff | internal/utils/helpers.go:64-72 | layout "15:04" accepts exactly the two-digit minute texts with one or two hour digits, and reads hour and minute |
| TimeConditions.ExtractorReadsWhatComparisonParses | internal/automation/time_extractor.go:42-44 | every clock text the comparison accepts is read by the extractor as the same minute |
| TimeConditions.ExtractorReadsMore | internal/automation/time_extractor.go:42-52 | the converse fails: a text the extractor accepts and the comparison rejects |
| TimeConditions.ReadClockReads | internal/automation/time_extractor.go:42-52 | the extractor skips blanks before both numbers, takes any number of digits and ignores what follows; out of range it reads nothing |
| TimeConditions.ExtractTimeConditions | internal/automation/time_extractor.go:32-67 | the recursive walk appends exactly the conditions of the tree, skipping everything below an unreadable time node |
| TimeConditions.BoundariesIff | internal/automation/time_extractor.go:32-67 | the minutes extracted from a tree are exactly those of its time nodes with no unreadable time node at or above them |
| TimeConditions.ClockLeafMeans | internal/utils/helpers.go:61-83 | at h:m a time leaf with the clock text H:M holds exactly when its operator relates h:m to H:M, at every minute of the day |
| TimeConditions.OtherClockLeafIsFalse | internal/utils/helpers.go:64-68 | against anything but a clock text a time leaf is false all day |
| TimeConditions.LeafIsConstant | internal/utils/helpers.go:61-83 | a time leaf covered by a set of minutes answers alike at both ends of a same-day interval without them |
| TimeConditions.CoveredIff | internal/utils/helpers.go:61-83 | exact for every tree and every set of watched minutes: all leaves answer alike on every same-day interval without them if and only if each clock text has, for each of its changes, one of the two minutes around it in the set |
| TimeConditions.WatchableIsCovered | internal/automation/time_extractor.go:34-67 | the extracted boundaries cover every tree without "!=" against a clock and without an unreadable compound node |
| TimeConditions.PiecewiseConstant | internal/automation/time_extractor.go:34-67 | with fixed device states, a tree covered by its extracted boundaries has one truth value on any same-day interval without one |
| TimeConditions.WatchableLeafIff | internal/automation/time_extractor.go:34 | for a childless time leaf this is exact: constant between boundaries if and only if watchable |
| TimeConditions.TypedCompoundHidesBoundaries | internal/automation/time_extractor.go:35-52 | a compound node typed as an unreadable time condition is not covered by what is extracted: this one changes truth with no boundary at all |
| TimeConditions.WokenIff | internal/automation/time_extractor.go:72-76 | jobs at a set of minutes see every change of a tree's leaves at once, over midnight too, if and only if the set has the minute of each change |
| TimeConditions.LoneLeafIsWokenIffConstant | internal/automation/time_extractor.go:72-76 | the one extracted boundary of a lone time leaf is enough for that if and only if the leaf never changes |
| TimeConditions.CronRoundTrip | internal/automation/time_extractor.go:72-76 | the cron text has five fields: minute, hour and three stars |
| TimeConditions.CronMeans | internal/automation/time_extractor.go:72-76 | it fires at the minute and hour of its condition and at no other, on every day, month and weekday |
| TimeConditions.SameCronIffSameMinute | internal/engine/engine.go:247-252 | two conditions share a cron text exactly when they mean the same minute, whatever their operators |
| Evaluator.CacheKeyIsInjective | internal/automation/evaluator.go:66 | a cache key determines operator and raw value bytes, even with colons inside the operator |
| Evaluator.EvaluateCondition | internal/automation/evaluator.go:29-101 | the recursive evaluation returns and stores what the threaded evaluation function says |
| Evaluator.EvaluateConditions | internal/automation/evaluator.go:17-26 | undecodable conditions are false and change nothing |
| Evaluator.EvalIsTruth | internal/automation/evaluator.go:29-101 | short-circuit evaluation through the cache computes "all children" and "some child" in the world of its instant, and leaves that world unchanged |
| Evaluator.EvalKeepsCacheSound | internal/automation/evaluator.go:66-82 | evaluation keeps every live cached answer equal to the direct comparison of its leaf when it was stored, at most sixty seconds ago |
| Evaluator.TimeKeepsCacheSound | internal/automation/evaluator.go:80 | time passing keeps it so: older answers have expired |
| Evaluator.CachedRefinesDirect | internal/automation/evaluator.go:54-82 | a tree covered by its boundaries, evaluated through a sound cache, gives the uncached answer when the last sixty seconds touch no boundary and stay in one day |
| Evaluator.CacheAnswersDirectlyIff | internal/automation/evaluator.go:54-82 | exact: the cache answers every leaf as the clock does in all sound and quiet situations if and only if the boundaries cover the tree |
| Evaluator.DirectIffNoStaleLeaf | internal/automation/evaluator.go:54-101 | through a sound cache all leaves of a tree are answered as by the clock if and only if no time leaf both changed its answer in this minute and has one from before it cached |
| Evaluator.BoundaryAnswerIff | internal/automation/evaluator.go:66-82 | so a tree without a stale leaf is evaluated right at any instant, and a single leaf only then |
| Evaluator.AnswersStick | internal/automation/evaluator.go:66-82 | a leaf evaluated again within 60,000 milliseconds gives the first answer, later the clock's |
| Evaluator.TimeLeafReadsClock | internal/automation/evaluator.go:54-82 | evaluated at h:m of any day with no stale answer cached, a time leaf compares h:m with the hour and minute of its text |
| Evaluator.QuietLeavesAreFresh | internal/automation/evaluator.go:54-82 | a tree its boundaries cover has no stale answer in the cache when the last sixty seconds were quiet |
| Evaluator.DeviceLeafReadsState | internal/automation/evaluator.go:34-53 | a device leaf of either kind reads the stored fields of its device and no clock |
| Conflicts.ResolveConflicts | internal/taskqueue/tasks.go:195-252 | the result has exactly the mentioned devices and written keys, each with the first value of the lowest rule ID |
| Conflicts.ResolutionIsUnique | internal/taskqueue/tasks.go:195-252 | only one map satisfies that description, so parameter iteration order is irrelevant |
| Conflicts.ResolutionIsOrderIndependent | internal/taskqueue/tasks.go:203-240 | any reordering that keeps each rule's own actions in order resolves to the same map |
| TaskQueue.CollectPendingActions | internal/taskqueue/tasks.go:137-170 | the collected list is that of the specification, which the rows of `Publication` below read off the JSON |
| TaskQueue.ExtractActionTargets | internal/taskqueue/tasks.go:173-192 | exactly the written (device, key) pairs |
| TaskQueue.AreAllActionsRedundant | internal/taskqueue/tasks.go:94-134 | it answers true exactly when every action is a device action with a numeric device_id whose whole state is stored already; it panics only at an action where a wanted and a stored field are both arrays or both objects, and declines only at one that differs, all actions before setting nothing new |
| TaskQueue.SetsNothingNewIff | internal/taskqueue/tasks.go:94-134 | an action sets nothing new if and only if overriding the fields stored under its truncated number and ":state" by the wanted ones changes nothing, none being an array or object |
| TaskQueue.RedundantPublishesNothing | internal/taskqueue/tasks.go:105-109 | a rule the pre-check skips, or panics over, would have published nothing: a numeric device_id fails the collector's decode |
| TaskQueue.OverlappingKeepsWrites | internal/taskqueue/tasks.go:305-316 | dropping the actions that overlap no target loses no write to a target |
| TaskQueue.SelectOverlapping | internal/taskqueue/tasks.go:306-316 | the nested loops keep each action that writes one of the rule's own targets, once and in order |
| TaskQueue.PublishesGlobalValues | internal/taskqueue/tasks.go:292-328 | every target a triggered rule writes is published with the first write of the lowest-ID rule among all enabled rules whose conditions hold, although only overlapping actions are gathered |
| TaskQueue.PublicationIsDetermined | internal/taskqueue/tasks.go:276-328 | two jobs for one rule in the same world publish the same messages, whatever the order of rules, targets, parameters and devices |
| TaskQueue.ExecuteResolvedActions | internal/automation/executor.go:44-67 | one message for each device with at least one value, carrying exactly its values |
| TaskQueue.EvaluateAndExecute | internal/taskqueue/tasks.go:254-332 | whatever the outcome, a rule of the table publishes nothing unless it is enabled and true, otherwise exactly the resolution of its own actions and the overlapping ones of every other true rule; it is retried only if missing or if the pre-check can panic; Redis sees nothing but evaluations |
| TaskQueue.TriggeredRulesAgree | internal/taskqueue/tasks.go:276-328 | two triggered rules on one snapshot publish the same value for every target they share |
| Publication.OwnWriteIff | internal/taskqueue/tasks.go:137-170 | a rule writes a value to (device, key) if and only if every element of its list decodes and the first one that names the device in device_id and the key in params has that value |
| Publication.TriggeredRuleIsObeyed | internal/taskqueue/tasks.go:276-328 | for every target a triggered rule's list asks for, a message goes to the device named there with the value asked for by the lowest enabled rule that evaluates to true and asks for that target |
| Publication.PublishedIff | internal/taskqueue/tasks.go:276-328 | exactly these keys are published: those the rule's own list mentions, and those an element of another true rule mentions along with one of them |
| Publication.NothingIsInvented | internal/taskqueue/tasks.go:137-328 | every published value is in the params of an element, naming that device, of an enabled rule that evaluates to true |
| Publication.OneMessagePerDevice | internal/automation/executor.go:52-67 | no device gets two messages or an empty one, and a rule that is disabled, undecodable or false sends none |
| DeviceIndex.ExtractDeviceIdsFromTree | internal/engine/engine.go:135-158 | exactly the non-empty device IDs in the tree, each once |
| DeviceIndex.ExtractDeviceIds | internal/engine/engine.go:161-185 | the same for a list of conditions |
| DeviceIndex.RefreshAssociations | internal/engine/engine.go:188-234 | after a refresh the index has the rule exactly where it is wanted and accepted, and every other rule as before; a failing decode leaves the rule out |
| DeviceIndex.RefreshRestoresAgreement | internal/engine/engine.go:188-234 | an index right for every rule but one is right for all after refreshing that one, disabled and undecodable rules included |
| DeviceIndex.PopulateAssociations | internal/engine/engine.go:89-132 | whatever Redis held, afterwards the index has a rule for a device exactly when the rule is enabled, decodes and names it |
| DeviceIndex.DropRule | internal/engine/engine.go:285-293 | a rule leaves every set of the index and nothing else moves |
| DeviceIndex.ProcessDeviceUpdate | internal/automation/updater.go:17-67 | unknown devices are recorded as not accepted, others ignored or stored, what was reported being exactly what is read afterwards, and the rules returned are the index of the device |
| DeviceIndex.ProcessDeviceUpdateJob | internal/taskqueue/tasks.go:76-92 | every rule of the device's index is enqueued once |
| DeviceIndex.NoMissedRule | internal/automation/updater.go:53-65 | if a report under a non-empty ID changes the truth of an enabled rule's tree, under any clock, that rule is in the index returned |
| DeviceIndex.NoMissedTrigger | internal/automation/updater.go:53-65 | the same for evaluation through the cache |
| DeviceIndex.NeverMissedIff | internal/engine/engine.go:135-143 | exact: no report of a device ever misses a rule if and only if its ID is not empty |
| DeviceIndex.ReportKeepsAgreementIff | internal/automation/updater.go:55-61 | a report keeps the index right if and only if its ID does not end in ":rules" or nothing is indexed under what precedes |
| Scheduling.Scheduler.RemoveSchedule | internal/scheduler/scheduler.go:109-118 | exactly the schedule's job goes, and map and cron table stay in one-to-one correspondence; with orphans about, the tables become those of the operation |
| Scheduling.Scheduler.AddOrUpdateSchedule | internal/scheduler/scheduler.go:121-149 | the schedule's job becomes the one of the row, or none if disabled or rejected, all else unchanged |
| Scheduling.Scheduler.LoadSchedules | internal/scheduler/scheduler.go:50-88 | one new mapped entry per loadable row, the old entry of each that was mapped becoming an orphan; no orphan if and only if none was |
| Scheduling.Scheduler.ReloadSchedules | internal/scheduler/scheduler.go:92-106 | afterwards the live jobs are exactly those of the enabled rows with accepted cron text |
| Scheduling.MapOneMore | internal/scheduler/scheduler.go:64-78 | mapping an entry for an already mapped schedule makes an orphan of the old entry, and otherwise keeps the correspondence |
| Scheduling.OrphansNeverGo | internal/scheduler/scheduler.go:50-149 | no run of loading, reloading, installing and removing ever removes an orphan or maps it: its job fires for good |
| Scheduling.IncrementalEqualsReload | internal/scheduler/scheduler.go:92-149 | any run of row changes, each followed by its call, ends with the jobs a reload builds from the final table |
| Scheduling.LastChangeDecides | internal/scheduler/scheduler.go:109-149 | after any run of row changes a schedule has a live job, of its own rule and text, exactly if it was last written enabled with an accepted text |
| RuleEngine.Engine.CreateSchedulesFromTimeConditions | internal/engine/engine.go:237-278 | each extracted minute gets its one row, found or created, other rows are kept, and live jobs match the table |
| RuleEngine.RefreshOneMore | internal/engine/engine.go:247-271 | installing one more text keeps row pairs unique, earlier rows installed and other rows as they were |
| RuleEngine.RefreshIsIdempotent | internal/engine/engine.go:247-271 | refreshing a second time neither adds nor changes a row |
| RuleEngine.OneJobPerBoundary | internal/engine/engine.go:304-335 | with the generated texts accepted, an enabled rule that has its rows has exactly one live job that fires at each extracted boundary, and it does so on every day |
| RuleEngine.FollowKeepsPlaced | internal/engine/engine.go:188-278 | refreshing one rule gives it a row for every boundary and leaves every other rule's rows in place |
| RuleEngine.RemovalKeepsPlacedIff | internal/engine/engine.go:338-360 | after removing a rule's rows every rule has its rows if and only if that rule is gone, disabled, undecodable or without boundary |
| RuleEngine.Engine.SettledFiresAtBoundaries | internal/engine/engine.go:304-335 | in every settled state, so after every change below, exactly one live job fires daily at each boundary of each enabled rule |
| RuleEngine.Engine.RefreshSchedulesForRule | internal/engine/engine.go:304-335 | installing every row a second time leaves rows and live jobs as after the first |
| RuleEngine.Engine.RemoveSchedulesForRule | internal/engine/engine.go:338-360 | exactly the rule's rows and jobs go |
| RuleEngine.Engine.RefreshRuleAssociations | internal/engine/engine.go:188-234 | index and schedules are refreshed together, schedules only for an enabled, decodable rule |
| RuleEngine.Engine.CreateRule | internal/web/api/automation.go:55-86 | index, rows and live jobs agree with the table after inserting a rule, which gets a row for each boundary and is enqueued if enabled and decodable; all other rows stay |
| RuleEngine.Engine.PatchRule | internal/web/api/automation.go:109-164 | after an owner's update, found by the number in the text, each field given is replaced and each other one and the owner kept; a disabled rule leaves the index and is not enqueued, an enabled one is indexed under exactly the devices of its tree; anyone else changes nothing |
| RuleEngine.PatchesCompose | internal/web/api/automation.go:128-140 | two patches in a row are one whose fields are those of the second where given, else of the first |
| RuleEngine.Engine.DeleteRule | internal/web/api/automation.go:88-107 | which rows remain, and for the index and for the rows exactly when they still agree afterwards: a stranger's delete takes the entries and rows of a rule that stays, an owner's delete under another text of the ID leaves index entries of a rule that is gone |
| RuleEngine.Engine.Start | internal/engine/engine.go:40-61 | start-up establishes the agreement from any Redis content and touches nothing but the index |
| House.StartTakesStep | internal/engine/engine.go:40-61 | start-up is a Rebuild step of the runs below, and settles everything exactly if every rule had its schedule rows |
| House.CreateTakesStep | internal/web/api/automation.go:55-86 | creating a rule is a Change step of the runs below |
| House.PatchTakesStep | internal/web/api/automation.go:109-164 | so is an owner's update |
| House.DeleteTakesStep | internal/web/api/automation.go:88-107 | an owner's delete is a Remove step |
| House.ReportTakesStep | internal/taskqueue/tasks.go:76-92 | a device report is a Report step and enqueues the device's index |
| House.EvaluateTakesStep | internal/taskqueue/tasks.go:254-332 | an evaluation job is an Evaluate step, and what it publishes is what the rules table calls for in the state before it |
| House.StepKeepsSound | internal/automation/updater.go:53-65 | every event keeps the index right, the time cache sound and every rule's schedule rows in place |
| House.RunKeepsSound | internal/engine/engine.go:89-132 | so they are right and sound in every state of every run |
| House.RunFromStartIsSound | internal/engine/engine.go:40-61 | a run that begins with the start-up is sound after it whatever the index held, given sound schedule rows and a sound or empty time cache |
| House.NoRuleIsEverMissed | internal/taskqueue/tasks.go:82-89 | in any run, a report under a non-empty ID that triggers a rule, or stops triggering it, finds the rule in the index it enqueues from |
| House.NoBoundaryIsEverMissed | internal/engine/engine.go:237-335 | in any run, with the generated texts accepted, exactly one live cron job fires daily at each boundary of each enabled rule |
| House.CachedAnswersAreRecent | internal/automation/evaluator.go:66-82 | in any run, a cached answer is the direct comparison of the same leaf less than sixty seconds ago |
| House.LastReportIsRead | internal/automation/updater.go:53-55 | in any run, for 3,600,000 milliseconds the state read for a device is exactly its last accepted report, and then nothing, whatever lies between |
| House.LeafReadsLastReport | internal/automation/evaluator.go:34-53 | so a numeric condition on the device compares the number in that report |
| House.AcceptanceIsExplicit | internal/automation/updater.go:19-37 | in any run a device becomes accepted only by being set so, never by reporting |
| House.QuietTreesEvaluateDirectly | internal/automation/evaluator.go:54-82 | in any run, cached evaluation of a tree covered by its boundaries is the direct one when the last sixty seconds were quiet |
| House.BoundaryJobsAreRightIff | internal/automation/evaluator.go:66-82 | in any run and at any instant, the leaves of a tree are answered by the cache as by the clock if and only if none is stale, and then the tree is evaluated right |
| Relay.AnswersAreCorrelated | cmd/remote_server/main.go:135-163 | in every reachable state an answered client holds what an agent registered under its server ID produced for its own request and content |
| Relay.EveryAnswerWasGiven | cmd/remote_server/main.go:109-163 | the client's content and the response are those of an arrival and of an agent's response in that very run |
| Relay.RefusedIff | cmd/remote_server/main.go:110-124 | a client gets 490 exactly when it names no agent, 491 exactly when the one it names is not registered at that moment, and else that agent's connection |
| Relay.PendingKeysAreExact | cmd/remote_server/main.go:93-104 | the pending keys are exactly the waiting and timed-out requests and the answered one being deleted |
| Relay.OutcomesAreFinal | cmd/remote_server/main.go:157-163 | no request is served twice or answered twice: outcomes and services stay, and a served request never reaches an agent again |
| Relay.StepKeepsInv | cmd/remote_server/main.go:67-106 | every step of every goroutine and agent keeps mutual exclusion, the key set, and each request and response in its place, each at most once |
| Relay.StepKeepsWire | internal/internet_bridge/agent.go:65-86 | every step, the agent's included, keeps each request on the wire once and unserved, over the connection it was written to, and each response on its way the one the agent gave |
| Relay.StepKeepsReplies | cmd/remote_server/main.go:93-104 | every step keeps each response on its way once, over the connection that served it, for an unanswered request |
| Relay.HolderBlockedIffStuck | cmd/remote_server/main.go:93-104 | the mutex holder cannot step exactly when it sends to a client that has timed out |
| Relay.StuckRunIffLate | cmd/remote_server/main.go:93-104 | a run deadlocks if and only if a reply is looked up after its client timed out or the client times out at the send |
| Relay.StuckIsForever | cmd/remote_server/main.go:93-104 | from then on no request is ever registered, answered or removed |
| Relay.MutexIsFreedUnlessStuck | cmd/remote_server/main.go:152-155 | otherwise the holder's own next steps let any written request register |
| Relay.StuckIsReachable | cmd/remote_server/main.go:157-163 | the deadlock is reachable |
| Relay.LostIsForever | cmd/remote_server/main.go:94-104 | a written request is never answered once neither it nor its response is on its way |
| Relay.DiscardIffEarly | cmd/remote_server/main.go:93-104 | a reply that is looked up is dropped if and only if its client has written and not yet registered its channel |
| Relay.LostRunIffLoses | cmd/remote_server/main.go:67-163 | a run loses a request if and only if it writes it to a connection that is gone, drops the connection before the agent has responded, ends the handler with the reply unread, or looks the reply up too early |
| Relay.EarlyReplyIsLost | cmd/remote_server/main.go:148-155 | such a run exists, and its client waits for a lost response |
| Relay.UnreadReplyIsLost | cmd/remote_server/main.go:68-75 | a run exists that loses a response by a read error with the reply still unread |
| Relay.UnregisteredIffClosed | cmd/remote_server/main.go:67-75 | an agent loses its registration exactly when the handler of some connection registered under its ID ends, which is not its own while that is open |
| Relay.RegisteredRunIffNothingCloses | cmd/remote_server/main.go:67-86 | a registered agent stays registered throughout a run if and only if no connection that ever registered under its ID ends |
| Relay.OnlyNewConnectionsRestore | cmd/remote_server/main.go:77-86 | an agent that lost its registration gets it back only over a connection that had not registered by then |
| Relay.NewestRegistrationCounts | cmd/remote_server/main.go:77-86 | until the next registration or close of the agent, clients find the connection that registered last |
| Relay.StaleCloseUnregisters | cmd/remote_server/main.go:68-75 | such a run exists: the end of an old connection unregisters the agent's open new one |
| Answers.HopelessIsForever | cmd/remote_server/main.go:93-104 | a request that has timed out, is lost, sits in a stuck relay, or has a timed-out request ahead of it on its connection is never answered |
| Answers.AnswerableIffHopeful | cmd/remote_server/main.go:67-163 | exact: a written request can still be answered if and only if none of these four holds; the run that answers it is constructed |
| Sessions.LoginWithSession | auth/auth.go:140-158 | the token validates as the user who logged in, for 86,400,000 milliseconds |
| Sessions.ValidateTokenSession | auth/auth.go:184-207 | it returns the session's user and extends the session to a full day exactly when the reported time to live is below 72,000,000 milliseconds |
| Sessions.BusySessionNeverExpires | auth/auth.go:199-205 | validated at gaps under twenty hours minus the reporting error, a session is valid after every run |
| Sessions.GapBoundIsTight | auth/auth.go:199-205 | with one millisecond more it can expire |
| Sessions.IdleSessionDies | auth/auth.go:152 | in every run from a store without sessions, a token nobody presents for a day is dead |
| Sessions.RunKeepsEnd | auth/auth.go:152 | every run keeps every session ending within a day |
| Sessions.DeadSessionStaysDead | auth/auth.go:214-217 | a logged-out token never validates again unless it is issued again |
| Sessions.RefreshmentsTakeTime | auth/auth.go:193-205 | k extensions since the login take more than k times four hours minus the reporting error |
| Sessions.ExactReports | auth/auth.go:184-207 | with exact reports the bounds are twenty hours and 4k hours |
| EnvFile.ReadVars | internal/config/config.go:194-208 | the loop reads the last setting of each key, split at the first equals sign of the trimmed line |
| EnvFile.SettingLineMeans | internal/config/config.go:194-208 | a line with white space at its ends sets the key before its first equals sign to what follows |
| EnvFile.OtherLinesAreSilent | internal/config/config.go:196-200 | comments, empty lines and lines without equals sign set nothing |
| EnvFile.LastSettingWins | internal/config/config.go:194-208 | a key has the value of the last line that sets it |
| EnvFile.RoundTripIffSurvives | internal/config/config.go:223-233 | reading back what was printed in any order gives the same variables if and only if every entry fits its line |
| EnvFile.SaveToEnvFile | internal/config/config.go:192-234 | reading the written file gives what was read with both secrets overridden if and only if both secrets survive; it gives what the whole old file set, with both secrets, if and only if in addition the lines from the first over-long one on set nothing new |
| EnvFile.FittingFilesLoseNothing | internal/config/config.go:194-208 | a file whose lines are all at most 65,535 bytes is read completely |
| EnvFile.OnlySecretsMatter | internal/config/config.go:210-212 | whatever was read before survives being written |
| EnvFile.GeneratedSecretSurvives | internal/config/config.go:183-189 | generated secrets survive, the padding of section 5 of RFC 4648 included |

## Left out

- HTTP routing, request binding, the HTML views, device endpoints and mDNS: plumbing.
- The text of JSON documents: conditions, actions and states are decoded values, and field names match exactly although encoding/json also accepts another letter case.
- `Client == nil` branches of the evaluator: every caller passes a live connection.
- Failing calls to PostgreSQL, Redis and MQTT, beyond rows that do not exist.
- The cron library's parser: a parameter that accepts or rejects a text; firing times are not modelled.
- Time passing during one evaluation job: a job sees one instant, in which its reads and writes are serial.
- The global value of keys an overlapping action writes besides the triggering rule's targets: whole actions are published, and for those keys only the gathered actions are compared.
- Removing schedule rows of boundaries a rule no longer has: the code keeps them.
- JWT sessions, password hashing and random generation; sessions assume fresh tokens.
- The numeric conversion of a device_id outside the 64-bit range in the redundancy pre-check.
- Daylight saving and time-zone changes.
- Equal request IDs: the relay takes them from the clock in nanoseconds (cmd/remote_server/main.go:135), the model from clients that arrive under distinct IDs.
- Writing to a connection and the agent mutex: one step in the relay; HTTP time limits are steps that may happen at any moment.
- Expiry of a device state after an hour: a rule that changes truth by expiry alone is not evaluated.
- The JSON form of messages between relay and agent: status and body are carried unchanged.
- The background copy of a device's state to PostgreSQL, the parsing of MQTT topics, and the worker queue's retries.
- Runs in `House` with deletes by someone other than the owner, or under another text of the ID; what one such delete does is stated for `DeleteRule`.
- How the database reads a number in a text: a parameter that reads every decimal text as itself.
- `IsSignificantChange`: a constant in the source.
