# Verified model of the predictive-maintenance repository's hard core

This project models, in Dafny, the parts of the repository whose behaviour is hardest to see from the code, and
proves what they keep. `dafny verify dfyconfig.toml` checks everything. Paths below are relative to the root of the
repository.

**Idle supervisor** (`infra/macmini/home_server_idle_supervisor.py`). HTTP calls, the monitor and short-lived wake
and sleep workers share one record under a reentrant state lock and serialise container operations under a second
lock. `SupervisorMemory.dfy` holds the record, the effect of each locked block, and the class that performs the blocks
in place; `SupervisorBlocks.dfy` shows that the steps of a block, uninterrupted, do what the method does.
`SupervisorProtocol.dfy` turns them into a step relation: every thread has a program counter, a locked block
and the write of the state file are separate steps, runtime calls and the boot probe succeed or fail arbitrarily, the
clock never goes back, the disabled file comes and goes, calls arrive and the process restarts at any point. Deadlines
are reals. `SupervisorSafety.dfy` proves the inductive invariant over every interleaving, `SupervisorProgress.dfy`
freedom from deadlock and two decreasing measures, `SupervisorGuarantees.dfy` the promises over all executions,
`SupervisorDecisions.dfy` when the monitor and an activity ask for what, and who changes the record.
`SupervisorLimits.dfy` has executions that show what the code does not promise. The 30 second rewake test is taken when
the stop ends, so an activity recorded during a longer stop is forgotten although the caller was told "stopping". A
delayed `activity` call moves the activity time backwards. A crash between the report of a start and the write of the
file loses the wake time, and with it the minimum uptime.

**Risk-rise detection** (`experiments/preventive_intervention/risk_rise.py`, with the validators of `contracts.py`).
The two-cursor scan, the grouping loops and the ranking are methods with loops, proved against a declarative
specification: an event starts at the row before the first large step of a maximal rising stretch. `RiskLaws.dfy` and
`RiskRanking.dfy` relate whole runs of the detector: to the event validators, to other thresholds, to permuted input,
and to the ranking that follows. `RiskEvents.dfy` says what an event, the list of events and an exception tell
about the points alone. Probabilities are reals and times are whole microseconds; `isoformat` is a parameter assumed
injective and free of `#`.

**Documentation links** (`scripts/migrate_docs_to_purpose_folders.py`). `PosixPath.dfy` has `normpath`, `join`,
`relpath` and the `PurePosixPath` operations on component lists; `MarkdownLinks.dfy` the dissection and rewriting of
one link; `LinkTargets.dfy` which targets are left alone; `LinkText.dfy` what a rewritten path is made of;
`LinkReading.dfy` exactly which paths the reader finds again; `MarkdownDocuments.dfy` the leftmost-match substitution
over a document of literal text and links that prints and reads back; `MarkdownRewriting.dfy` the rewrite of whole
documents: a link counts as kept when what the same reader finds in the rewritten text leads to where the old target
moved. The corners where the code differs from this intent have their
exact condition, and `LinkCorners.dfy` has inputs. A link that leaves the repository is left as it is, and leads
elsewhere when its document moves to another depth. A link to the directory that holds the repository passes the guard,
whose test looks for `../` with the slash, and is lost when the working directory is the root of the file system. White
space in a directory name ends a rewritten target outside angle brackets, as `#`, a `?` without a fragment behind it and
a first name such as `mailto:x` do anywhere. A query in front of a fragment is taken for part of the path, so a moved
file is not followed (`LinkQueries.dfy`). A `)` in a directory name ends the rewritten target early. A blank target is
counted at both ends.

**Routes** (`systems/frontend/src/routing.ts`). Builders, matchers, base path and redirect over byte strings, with
percent-encoding as in section 2.1 and the removal of dot segments as in section 5.2.4 of RFC 3986.

**Review publication** (`scripts/ci/ai_review.py`, `scripts/ci/free_review_falsifier.py`). `ReadinessClamp.dfy` shows
that rewriting a review under a ceiling is a meet on the verdict that the same substring tests read back.
`ReplyMarker.dfy` computes exactly what the substring tests of the duplicate check find in a reply's marker, and
`ReplyProtocol.dfy` runs the check over arbitrary sequences of comments and reviews: the comments refine a board with
one reply per source. Because the source is recognised by a prefix of its id, this holds at every moment exactly when
every source is reviewed before the sources of its kind whose ids extend its own. `ScopeEvidence.dfy` proves the
nested selection loop against a declarative neighbourhood.

**Hourly rollups** (`systems/backend/app/observation_rollup_worker.py`). The rollup table is a map updated in place,
group by group; raw tables are row lists, whose order is shown not to matter. Each refresh is one transaction at one clock. The keys and constraints are
those of the migrations `0011_predictive_maintenance_domain_pack.sql` and `0056_pm_observation_hourly_rollups.sql`: an
asset belongs to one scope, and its observations and rollups carry that scope. The window cuts through an hour when it
does not start on one, and the row of that hour is then overwritten with its later part; after any run of refreshes a
row counts its whole hour exactly when no refresh came while the hour was leaving the window.

## Model

| member | source | states |
|---|---|---|
| SupervisorMemory.IdleSupervisor.constructor | infra/macmini/home_server_idle_supervisor.py:180-228 | the whole record after boot: probed state, loaded times or the clock, and a forced write |
| SupervisorMemory.IdleSupervisor.Persist | infra/macmini/home_server_idle_supervisor.py:242-250 | the file and the time of the write change exactly when forced or 15 s after the last write |
| SupervisorMemory.IdleSupervisor.RecordActivity | infra/macmini/home_server_idle_supervisor.py:252-261 | the locked block of `activity`: the record after it and the state it saw |
| SupervisorMemory.IdleSupervisor.BeginWake | infra/macmini/home_server_idle_supervisor.py:263-270 | the locked block of `request_wake`, and whether a worker is owed |
| SupervisorMemory.IdleSupervisor.SettleStart | infra/macmini/home_server_idle_supervisor.py:276-287 | the record after a start that returned or raised |
| SupervisorMemory.IdleSupervisor.BeginSleep | infra/macmini/home_server_idle_supervisor.py:289-295 | the locked block of `request_sleep`, and whether a worker is owed |
| SupervisorMemory.IdleSupervisor.SettleStop | infra/macmini/home_server_idle_supervisor.py:301-310 | the record after a stop that returned or raised, and whether the stop is to be reversed |
| SupervisorBlocks.ActivityBlock | infra/macmini/home_server_idle_supervisor.py:254-257 | the two steps of the locked block of `activity`, uninterrupted, do to memory what the method does, and free the lock |
| SupervisorBlocks.WakeBlock | infra/macmini/home_server_idle_supervisor.py:263-269 | the same for `request_wake`, refused or granted |
| SupervisorBlocks.StartBlock | infra/macmini/home_server_idle_supervisor.py:277-287 | the same for the report of a start |
| SupervisorBlocks.SleepBlock | infra/macmini/home_server_idle_supervisor.py:290-294 | the same for `request_sleep`, refused or granted |
| SupervisorBlocks.StopBlock | infra/macmini/home_server_idle_supervisor.py:302-310 | the same for the report of a stop, with the rewake test under the lock |
| SupervisorSafety.ExecutionInv | infra/macmini/home_server_idle_supervisor.py:252-325 | the inductive invariant (lock ownership, no orphan, honest state, kept rewake, bounded times, current file) holds in every state of every execution |
| SupervisorSafety.RunKeepsInv | infra/macmini/home_server_idle_supervisor.py:252-325 | any step of any thread keeps the invariant |
| SupervisorGuarantees.TransitionalStateHasWorker | infra/macmini/home_server_idle_supervisor.py:263-312 | "starting" always has a wake worker outstanding, or a call about to start one, and "stopping" a sleep worker, however requests overlap |
| SupervisorGuarantees.StateTellsTheTruth | infra/macmini/home_server_idle_supervisor.py:203-220 | in every state of every execution a settled state names what a worker reported last, or the boot probe; the last report is what the runtime said last, except between the return of a call and its report; the state is never "unknown" |
| SupervisorGuarantees.QuietStateTellsTheTruth | infra/macmini/home_server_idle_supervisor.py:272-312 | with no thread left the state is a function of the last outcome and is not transitional |
| SupervisorGuarantees.RuntimeCallsNeverOverlap | infra/macmini/home_server_idle_supervisor.py:273-300 | two threads are never inside start or stop at once |
| SupervisorDecisions.MonitorAsksForSleepExactlyWhen | infra/macmini/home_server_idle_supervisor.py:314-325 | over all executions: a thread that arrived as a pass of the monitor asks for a sleep if and only if the stack it saw under the lock was running, and the clock it had read was at least the minimum uptime past the wake it saw and at least the idle time past the activity it saw |
| SupervisorDecisions.StackStopsOnlyWhenRequestedOrIdle | infra/macmini/home_server_idle_supervisor.py:289-325 | over all executions: the state turns to "stopping" only at the hands of a thread that arrived as a request, or of a monitor that saw the stack running, up long enough and without activity for the idle time |
| SupervisorDecisions.ActivityAsksForWakeExactlyWhen | infra/macmini/home_server_idle_supervisor.py:252-261 | over all executions: an `activity` call records the clock it began at, and asks for a wake if and only if the state it saw was none of "starting", "running" and "stopping" and the disabled file was absent when it looked |
| SupervisorDecisions.WakeStartsWorkerExactlyWhen | infra/macmini/home_server_idle_supervisor.py:263-270 | a wake request turns the state to "starting" and starts one wake worker if and only if the state is neither "starting" nor "running" and the file is absent; otherwise it changes nothing |
| SupervisorDecisions.SleepStartsWorkerExactlyWhen | infra/macmini/home_server_idle_supervisor.py:289-295 | a sleep request turns the state to "stopping" and starts one sleep worker if and only if the state is neither "sleeping" nor "stopping"; otherwise it changes nothing |
| SupervisorDecisions.StateChangesExactlyWhen | infra/macmini/home_server_idle_supervisor.py:200-312 | every event: which thread at which point, or which probe, makes the state what |
| SupervisorDecisions.TimesChangeExactlyWhen | infra/macmini/home_server_idle_supervisor.py:200-287 | every event: who writes the activity time and the wake time, and with which clock |
| SupervisorDecisions.FileChangesExactlyWhen | infra/macmini/home_server_idle_supervisor.py:242-250 | every event: the file becomes a snapshot of memory at each forced write, and after an activity if and only if the last write is 15 s old |
| SupervisorGuarantees.NoDeadlock | infra/macmini/home_server_idle_supervisor.py:263-312 | in every reachable state with unfinished threads some thread can step |
| SupervisorProgress.StateLockOwnerNeverWaits | infra/macmini/home_server_idle_supervisor.py:272-312 | the lock order: the owner of the state lock never waits for the operation lock |
| SupervisorProgress.RunDoesWork | infra/macmini/home_server_idle_supervisor.py:252-325 | every step strictly lowers the work left in all threads |
| SupervisorProgress.RunPaysDebt | infra/macmini/home_server_idle_supervisor.py:263-312 | a sleep worker owes two operations, a wake worker one; every completed operation lowers the debt and no step raises it |
| SupervisorProgress.LeftAloneIsBounded | infra/macmini/home_server_idle_supervisor.py:263-312 | without new calls the number of steps is bounded by the work, and of completed operations by the debt |
| SupervisorProgress.LeftAloneSettles | infra/macmini/home_server_idle_supervisor.py:263-312 | a run left alone that can go no further has finished every thread, and the state tells the last outcome |
| SupervisorGuarantees.StopIsReversedExactlyWhen | infra/macmini/home_server_idle_supervisor.py:307-312 | over any execution in which the disabled file neither appears nor disappears meanwhile, a sleep worker comes to its release with a wake asked for if and only if, at the decision, the last activity was younger than 30 s and the file was absent |
| SupervisorGuarantees.StopSoonAfterActivityIsReversed | infra/macmini/home_server_idle_supervisor.py:297-312 | such a sleep worker reaches the release of the operation lock only with a wake outstanding, whatever happens in between, if the disabled file stays absent |
| SupervisorGuarantees.ReleaseLeavesWakeOutstanding | infra/macmini/home_server_idle_supervisor.py:310-312 | and the wake is still outstanding after the release |
| SupervisorGuarantees.FileMatchesUnlockedMemory | infra/macmini/home_server_idle_supervisor.py:242-312 | whenever the state lock is free the file has the state and wake time of memory, and the last activity is less than 15 s younger than the last write |
| SupervisorGuarantees.RestartLosesWakeTimeExactlyWhen | infra/macmini/home_server_idle_supervisor.py:200-228 | over all executions: a restart loads another wake time than memory had if and only if a worker had recorded a successful start, at a clock other than the time in the file, and had not written the file since; a file without a wake time gives a stack that is up the time of the restart |
| SupervisorLimits.WakeTimeIsLost | infra/macmini/home_server_idle_supervisor.py:282-287 | an execution in which a crash in that gap makes the restarted process take an older wake for the last one |
| SupervisorGuarantees.ActivityTimeGoesBackExactlyWhen | infra/macmini/home_server_idle_supervisor.py:252-257 | for every event: the activity time moves backwards if and only if an `activity` call writes a clock value older than the one there, or a restart loads an older one from the file |
| SupervisorLimits.ActivityTimeGoesBack | infra/macmini/home_server_idle_supervisor.py:252-257 | an execution without a restart in which two overlapping calls move the activity time back |
| SupervisorLimits.ActivityDuringLongStopIsForgotten | infra/macmini/home_server_idle_supervisor.py:307-312 | a concrete execution, never disabled, in which an activity during a stop of 30 s leaves the stack asleep with nothing outstanding |
| RiskTimeline.FollowRise | experiments/preventive_intervention/risk_rise.py:91-106 | the inner loop ends at the peak of the rising stretch, one row further, with the cause that stopped it |
| RiskTimeline.Scan | experiments/preventive_intervention/risk_rise.py:78-138 | the two-cursor scan returns exactly the events of the declarative specification, in order: skipping ahead loses none |
| RiskTimeline.RunsAreCutMaximalRises | experiments/preventive_intervention/risk_rise.py:78-106 | a run is exactly a maximal rising, gap-bounded stretch cut at its first trigger |
| RiskTimeline.RunIsHandled | experiments/preventive_intervention/risk_rise.py:136-138 | resuming behind the pair that ended a run has produced every event so far and leaves nothing open |
| RiskDetect.Group | experiments/preventive_intervention/risk_rise.py:62-65 | the dictionary holds for each asset its eligible rows in input order, with the keys in order of first appearance |
| RiskDetect.CheckTimeline | experiments/preventive_intervention/risk_rise.py:70-76 | the first fault among adjacent rows, or none |
| RiskDetect.DetectRiskRiseEvents | experiments/preventive_intervention/risk_rise.py:56-140 | the detector equals its specification over the sorted assets, faults included |
| RiskDetect.DetectIs | experiments/preventive_intervention/risk_rise.py:56-140 | it raises if and only if some timeline has an unclean adjacent pair, and otherwise returns exactly the reported runs of all assets |
| RiskEvents.EventTells | experiments/preventive_intervention/risk_rise.py:78-135 | of every event, over the points alone: the eligible rows of its asset from start to end in time order, their rise over allowed gaps up to the peak with a large first step; type, model, version, times, probabilities, hours, id and cited predictions are those of these rows; it ended at a gap if and only if a later row exists and all are too far, at the end of the timeline if and only if none exists |
| RiskEvents.LargeStepIsReported | experiments/preventive_intervention/risk_rise.py:78-135 | nothing is missed: neighbouring rows of an asset, near enough, whose step reaches both thresholds lie in an event between start and peak |
| RiskEvents.EventsAreOrdered | experiments/preventive_intervention/risk_rise.py:67-138 | the events are listed by asset id, and those of one asset in the order of time, each past its peak before the next starts |
| RiskEvents.RejectsExactlyWhen | experiments/preventive_intervention/risk_rise.py:61-74 | the detector raises if and only if two eligible rows of one asset, anywhere in the input, differ in type or model version or have the same time |
| RiskEvents.FaultTells | experiments/preventive_intervention/risk_rise.py:67-74 | the exception names an asset with rows that differ as it says, and the rows of every asset with a smaller id agree |
| RiskLaws.EventsAreValid | experiments/preventive_intervention/contracts.py:138-168 | every event emitted from valid rows passes every bound and validator of the event model |
| RiskLaws.RunsShareAtMostTheTerminatingRow | experiments/preventive_intervention/risk_rise.py:108-138 | of two runs of a timeline the later begins behind the peak of the earlier, and they share at most the row that ended it |
| RiskLaws.EventIdsAreUnique | experiments/preventive_intervention/risk_rise.py:117-117 | event ids are unique across all assets, also when asset ids contain the separator |
| RiskLaws.RaisingStepOnlyShortens | experiments/preventive_intervention/risk_rise.py:78-135 | an event found with a higher minimum step is covered by one found with the lower step: same peak and end, no later start, no smaller rise, its rows a suffix |
| RiskLaws.RaisingTotalFilters | experiments/preventive_intervention/risk_rise.py:113-135 | raising the minimum total filters the former output, in order, and rejects the same inputs in the same way |
| RiskLaws.DetectionIgnoresOrder | experiments/preventive_intervention/risk_rise.py:62-76 | permuted inputs give the identical event list, or both raise |
| RiskRanking.RankEventsByRiskFactor | experiments/preventive_intervention/risk_rise.py:143-194 | the index, the keyed entries and the sort equal the specification, with both exceptions |
| RiskRanking.DetectionLeavesKeysDistinct | experiments/preventive_intervention/risk_rise.py:153-163 | points that were detected without a fault have no duplicate key among the eligible rows |
| RiskRanking.RankReturnsExactlyWhen | experiments/preventive_intervention/risk_rise.py:153-171 | for any events and points: ranking returns if and only if no two considered rows share asset and time and every event has a considered row at its peak |
| RiskRanking.RankingAfterDetectionSelects | experiments/preventive_intervention/risk_rise.py:165-194 | ranking what was just detected never raises and returns exactly the events at whose peak row some factor begins with the prefix and raises the risk |
| RiskRanking.MaxOfIsTop | experiments/preventive_intervention/risk_rise.py:174-182 | the contribution an event is ranked by is that of a matching risk-up factor of its peak row, and none of them has a larger one |
| RiskRanking.RankedInStrictOrder | experiments/preventive_intervention/risk_rise.py:188-194 | ranked events are strictly ordered: larger rise, then larger such contribution at the peak, then smaller id |
| Orders.StrLessIsLexicographic | experiments/preventive_intervention/risk_rise.py:188-194 | ids are compared character by character, a prefix first |
| RiskRanking.RankingIgnoresOrder | experiments/preventive_intervention/risk_rise.py:143-194 | detection and ranking of permuted points give the same ranking |
| PosixPath.WalkJoinPath | scripts/migrate_docs_to_purpose_folders.py:165-165 | joining two paths and normalising is walking one after the other |
| PosixPath.AbsoluteIsNormalised | scripts/migrate_docs_to_purpose_folders.py:126-127 | normalising an absolute path leaves one leading slash, or two where it has exactly two, and names only, and is idempotent |
| PosixPath.WayLeadsThere | scripts/migrate_docs_to_purpose_folders.py:169-169 | the relative component list from one directory to another leads there |
| MarkdownLinks.SplitReassembles | scripts/migrate_docs_to_purpose_folders.py:130-141 | wrapper, target and payload reassemble to the text if and only if the text is empty or not blank |
| MarkdownLinks.DirectoryOfFile | scripts/migrate_docs_to_purpose_folders.py:145-146 | the directory of a document is what stands in front of its name |
| LinkTargets.FixedExactlyWhen | scripts/migrate_docs_to_purpose_folders.py:148-163 | a target is not taken for a path if and only if it is empty, begins with `#`, `/`, `http://`, `https://`, `mailto:` or `data:`, or is a query alone |
| LinkTargets.ElsewhereIsLeftAlone | scripts/migrate_docs_to_purpose_folders.py:148-152 | a link that begins so, bare or in angle brackets, whatever follows it, is left as it is, whatever moves |
| LinkTargets.WordIsDissected | scripts/migrate_docs_to_purpose_folders.py:130-163 | any other word is taken for a path up to its `#`, or else up to its `?` |
| MarkdownLinks.PathEndIsUrlPathEndExactlyWhen | scripts/migrate_docs_to_purpose_folders.py:154-161 | the path is cut where section 3 of RFC 3986 ends it, except exactly when a query precedes a fragment |
| MarkdownLinks.RelPathLeadsBack | scripts/migrate_docs_to_purpose_folders.py:169-169 | the relative path between two places in the repository normalises back to the target, wherever the repository lies |
| MarkdownLinks.UnmovedImageIsInside | scripts/migrate_docs_to_purpose_folders.py:165-168 | a resolved link lies in the repository if and only if it passes the guard and is not the holding directory |
| MarkdownLinks.RewrittenLinkKeepsTarget | scripts/migrate_docs_to_purpose_folders.py:144-172 | the rewritten path, read from the new place of the document, normalises to the place the old target moved to; everything around it is unchanged |
| MarkdownLinks.LinkToHoldingDirectoryKeepsTargetExactlyWhen | scripts/migrate_docs_to_purpose_folders.py:165-169 | a link to the directory that holds the repository passes the guard, and keeps its target if and only if the working directory is not the root of the file system |
| MarkdownLinks.LinkAboveRootKeepsTargetExactlyWhen | scripts/migrate_docs_to_purpose_folders.py:165-167 | a link that resolves above the root, left as it is, leads to the same place from the new place of its document if and only if the two places are equally deep |
| MarkdownLinks.RewrittenPathLeadsBack | scripts/migrate_docs_to_purpose_folders.py:165-172 | for every image the code can be asked for, the rewritten path leads to it |
| MarkdownDocuments.SubstituteMapsLinks | scripts/migrate_docs_to_purpose_folders.py:123-123 | the substitution changes link targets only; literal text and the order of links stay |
| MarkdownDocuments.RewrittenDocumentReadsBackExactlyWhen | scripts/migrate_docs_to_purpose_folders.py:174-174 | reading a rewritten document finds the same literal text and the rewritten targets if and only if no rewritten target is empty or has a `)` |
| LinkReading.ReplacedPathIsReadExactlyWhen | scripts/migrate_docs_to_purpose_folders.py:130-161 | for any relative link and any other path in its place: the same reader finds that path, in the old wrapper, with the old fragment and title, if and only if the path fits the link (nothing in it ends it early, outside brackets no white space or only as a target of several lines has it, no listed scheme) |
| LinkReading.RewrittenLinkIsReadExactlyWhen | scripts/migrate_docs_to_purpose_folders.py:130-172 | the same for the rewritten link, over the components on the way from the new directory of the document to the image of the target |
| LinkQueries.QueriedLinkKeepsTargetExactlyWhen | scripts/migrate_docs_to_purpose_folders.py:154-172 | a link with a query in front of its fragment, read up to the query, still leads to its file if and only if the file is not moved |
| MarkdownRewriting.QueriedLinkSurvivesExactlyWhen | scripts/migrate_docs_to_purpose_folders.py:148-172 | such a link keeps file and query if and only if its components fit, the rewrite normalises nothing in the query, the file is not moved, and what is printed in front of the query is not empty (or was empty, in a document that stays in its directory) |
| MarkdownRewriting.LinkKeepsTargetExactlyWhen | scripts/migrate_docs_to_purpose_folders.py:148-172 | for any link the rewrite raises nothing, and a target that names no path stays as it is, while what the reader finds in the place of a path leads to where the old target moved, with wrapper, query, fragment and title as before, if and only if the link survives: the components on its way fit the link; without a query none of them opens one, and with a query they end in it and name the file; above the root the document stays equally deep; the holding directory exists |
| MarkdownRewriting.RewriteKeepsDocument | scripts/migrate_docs_to_purpose_folders.py:144-174 | rewriting a document raises nothing; reading the rewritten text finds the same literal text and as many links, each kept as above, if and only if every link survives and no component on the way of a rewritten link has a `)`; the latter is exactly when the rewritten targets are found again, and holds whenever no directory of the document and no destination has one |
| MarkdownRewriting.ElsewhereLinksStay | scripts/migrate_docs_to_purpose_folders.py:144-174 | in a rewritten document the links that lead elsewhere are where and as they were, and a document with no others is unchanged |
| MarkdownRewriting.RewriteRaisesExactlyWhen | scripts/migrate_docs_to_purpose_folders.py:165-169 | for any document and moves: the rewrite raises if and only if a file that one of the links resolves to, not above the root, is moved to the empty path |
| LinkCorners.LinkAboveRootIsLost | scripts/migrate_docs_to_purpose_folders.py:166-167 | a link out of the repository in a document at the root leads into the repository after a move into a directory; `../x.md` in `a.md`, moved to `d/a.md`, is an instance |
| LinkCorners.QueriedLinkIsNotRetargeted | scripts/migrate_docs_to_purpose_folders.py:154-161 | a link with a query in front of its fragment is printed as it was, wherever its file moves |
| LinkCorners.MovedFileIsNotFollowed | scripts/migrate_docs_to_purpose_folders.py:154-161 | so `a.md?x#f` is lost when `a.md` moves to `d/a.md` |
| LinkCorners.SpaceCutsLink | scripts/migrate_docs_to_purpose_folders.py:137-141 | a link between files of a directory with white space in its name is read only up to the white space after a move to another directory, and lost; `b.md` in `p q/a.md`, moved to `r/a.md`, becomes `../p q/b.md`, which is read as `../p` |
| LinkCorners.ParenthesisBreaksLink | scripts/migrate_docs_to_purpose_folders.py:169-174 | a link between files of a directory with `)` in its name does not read back after a move to another directory |
| Routing.EncodedReadsBack | systems/frontend/src/routing.ts:30-37 | decoding inverts percent-encoding, and an encoded id is one path segment |
| Routing.EncodedIsPlain | systems/frontend/src/routing.ts:30-31 | an encoded id has letters, digits, `-_.!~*'()` and `%` only, so that no `?` or `#` ends it |
| Routing.EscapeSpellsByte | systems/frontend/src/routing.ts:34-37 | an escape is read as the byte its two hexadecimal digits spell, in either case |
| Routing.PlainIdIsKept | systems/frontend/src/routing.ts:30-31 | an id of such letters, digits and marks stands for itself |
| Routing.MatchesExactlyWhen | systems/frontend/src/routing.ts:34-218 | a matcher accepts exactly the pathnames that its route spells with nonempty segments, and returns those decoded, or throws when one is malformed |
| Routing.BuiltPathMatches | systems/frontend/src/routing.ts:30-218 | every matcher inverts the template of its builder for all nonempty ids |
| Routing.RoutesAreUnambiguous | systems/frontend/src/routing.ts:34-218 | no pathname is accepted by two different matchers |
| Routing.BasePathIsTransparentExactlyWhen | systems/frontend/src/routing.ts:7-21 | removing a base path that was added gives the path back if and only if the path has no trailing slash, or is the root |
| Routing.BuiltPathSurvivesNavigationExactlyWhen | systems/frontend/src/routing.ts:7-28 | a built path below any base, after the browser has removed dot segments and the base is taken off, is the built path and is matched with the same ids if and only if no id is `.` or `..` |
| Routing.RedirectReachesAFixedPoint | systems/frontend/src/routing.ts:129-147 | the target of a redirect, as the browser shows it, is the target if and only if the project is not `.` or `..`, and then names the redirected project and is not redirected again, whatever the fallback and the search are then |
| Routing.ProjectRoutesAreRedirected | systems/frontend/src/routing.ts:129-147 | for any search: of the project routes exactly operations, comparison and v4 stay, and with comparison_embed=1 also dashboard, blueprint, v2 and ontology; every other goes to the operations page of its own project |
| Routing.OthersAreRedirected | systems/frontend/src/routing.ts:129-147 | any pathname that no exempt route spells: outside `/app` it stays; in a project it goes to the operations page of the decoded id, or throws; elsewhere to that of the fallback, and without one it stays |
| ReadinessClamp.ClampIsMeet | scripts/ci/ai_review.py:1140-1162 | re-reading a clamped review gives the minimum of its verdict and the ceiling, the text before the section is unchanged, and it raises exactly without the section |
| ReadinessClamp.ClampsCompose | scripts/ci/ai_review.py:1140-1162 | clamping is idempotent, and two ceilings leave the verdict of the lower one |
| ReadinessClamp.VerdictMeans | scripts/ci/ai_review.py:1140-1148 | a review is read by the section behind the heading: "Not Ready" in it decides before "Conditional", and without both it is ready |
| ReadinessClamp.ClampTells | scripts/ci/ai_review.py:1140-1162 | a clamped review is not ready if and only if the review or the ceiling is, and ready if and only if both are |
| ReadinessClamp.ClampKeepsText | scripts/ci/ai_review.py:1149-1162 | a review not above the ceiling is unchanged; of any other, everything up to the section stays in front and the trimmed section behind |
| ReadinessClamp.MissingFindsAll | scripts/ci/ai_review.py:567-571 | the missing list is exactly the required checks without evidence |
| ReadinessClamp.CeilingMeans | scripts/ci/ai_review.py:547-578 | what each ceiling says about the evidence, in both directions |
| ReadinessClamp.PublishedVerdict | scripts/ci/ai_review.py:1140-1162 | a published review says "Ready to Merge" if and only if the model did and every required check is verified, and "Not Ready" if and only if the model did or the architecture job failed |
| ReplyMarker.MarkerContainsTokenExactlyWhen | scripts/ci/ai_review.py:505-518 | a source is found in a marker if and only if the kinds are equal and its id is a prefix of the id there |
| ReplyMarker.MarkerContainsHeadExactlyWhen | scripts/ci/ai_review.py:505-521 | a head is found in a marker if and only if it is a prefix of the head there |
| ReplyMarker.MarkerSpells | scripts/ci/ai_review.py:505-521 | what a marker and the two tokens look like, character by character |
| ReplyProtocol.IdempotencyDecision | scripts/ci/ai_review.py:512-524 | the scan with its early returns equals the decision of the first comment that carries the source |
| ReplyProtocol.ReplyIsJudged | scripts/ci/ai_review.py:512-524 | what the tests find in a reply, whatever the review says: the marker decides, or the text of the review |
| ReplyProtocol.CreatesExactlyWhen | scripts/ci/ai_review.py:512-524 | a source gets a comment of its own if and only if no reply to its kind has an id that begins with its id |
| ReplyProtocol.RunShowsBoardExactlyWhen | scripts/ci/ai_review.py:505-524 | over any sequence of posts the comments print the board of one reply per source at every moment if and only if each source is reviewed before the sources of its kind whose ids extend its own |
| ReplyProtocol.OneReplyWithLatestHead | scripts/ci/ai_review.py:512-524 | each reviewed source has one comment, which carries the head reviewed last and decides the next event about the source |
| ReplyProtocol.RepeatIsNoop | scripts/ci/ai_review.py:520-522 | a repeated event changes nothing, whatever the new review says |
| ReplyProtocol.NotesAreKept | scripts/ci/ai_review.py:516-524 | over any sequence of posts, in any order, if nobody quotes a marker: the comments without one are what people wrote, unchanged and in order |
| ReplyProtocol.ShorterIdTakesOver | scripts/ci/ai_review.py:515-523 | a review of a source whose id is a proper prefix of an earlier one of its kind is written over the reply to that other |
| ScopeEvidence.RuntimeScopeEvidence | scripts/ci/free_review_falsifier.py:147-160 | the nested loops with the seen set and the early return produce the evidence of the specification |
| ScopeEvidence.ShownInOrder | scripts/ci/free_review_falsifier.py:148-160 | the shown lines lie within two lines of a hit, in strictly increasing order, and none near a hit is left out before one that is shown |
| ScopeEvidence.AllIsShownExactlyWhen | scripts/ci/free_review_falsifier.py:153-160 | every line near a hit is shown if and only if all of them but the last stay below the size cap |
| ScopeEvidence.EvidenceIsBounded | scripts/ci/free_review_falsifier.py:158-160 | the evidence has at most 3500 characters, and holds the shown lines whole if and only if the last fits into what the others leave |
| ScopeEvidence.EvidenceReadsBack | scripts/ci/free_review_falsifier.py:158-160 | the lines of an excerpt that is not clipped are the shown lines in order, and a clipped one is a prefix |
| RollupRows.AverageIsBetween | systems/backend/app/observation_rollup_worker.py:52-55 | an average lies between any bounds of the averaged values |
| RollupRows.AggregateTells | systems/backend/app/observation_rollup_worker.py:42-95 | an aggregate row counts its group, has least texts, operates if and only if one observation does, and under each name of its kind stores a value that times the count is the sum of that field; power, temperature gap and overstrain load are formulas over each reading |
| RollupRows.AggregateIgnoresOrder | systems/backend/app/observation_rollup_worker.py:46-62 | the aggregate of a group does not depend on the order of its rows, averages included |
| Rollup.RollupTable.Upsert | systems/backend/app/observation_rollup_worker.py:38-71 | upserting group by group gives the table in which exactly the keys with a group have its aggregate, and returns the number of groups |
| Rollup.RollupTable.RefreshOnce | systems/backend/app/observation_rollup_worker.py:22-114 | the table after both statements and the two row counts |
| Rollup.RefreshedRow | systems/backend/app/observation_rollup_worker.py:33-110 | a refresh sets a row to the aggregate of the selected observations of its key, keeps the scope of a row that was there, and leaves keys without selected observations alone |
| RollupLaws.RefreshTells | systems/backend/app/observation_rollup_worker.py:22-110 | over the raw observations alone: a refresh touches a row if and only if an observation of its data set, asset, scope and hour lies in the last hours of the history, at least 24, and then the row summarises exactly these |
| RollupLaws.RefreshKeepsRegistration | systems/backend/migrations/postgresql/0056_pm_observation_hourly_rollups.sql:17-22 | a refresh keeps every row in the scope of its asset |
| RollupLaws.RefreshAgreesWithGrouping | systems/backend/app/observation_rollup_worker.py:33-110 | every key whose hour starts in the window holds the aggregate of all its raw observations |
| RollupLaws.RowAgreesExactlyWhen | systems/backend/app/observation_rollup_worker.py:59-60 | a touched row equals direct grouping, and counts its whole group, if and only if no observation of its hour lies before the cutoff |
| RollupLaws.LaterRefreshOnlyStamps | systems/backend/app/observation_rollup_worker.py:63-70 | a later refresh that selects the same observations of a key changes only the time of the refresh |
| RollupLaws.RefreshIsIdempotent | systems/backend/app/observation_rollup_worker.py:33-110 | repeating a refresh at the same clock changes nothing |
| RollupLaws.RefreshIgnoresRowOrder | systems/backend/app/observation_rollup_worker.py:33-110 | permuted raw tables give the same rollup table |
| RollupLaws.SamplesAreConserved | systems/backend/app/observation_rollup_worker.py:50-62 | the sample counts over the touched keys of an asset type sum to the number of selected observations |
| RollupLaws.RowAfterRun | systems/backend/app/observation_rollup_worker.py:131-145 | after any run of refreshes over changing raw tables a row is the aggregate that the last refresh which saw its observations made |
| RollupLaws.RowIsWholeAfterRunExactlyWhen | systems/backend/app/observation_rollup_worker.py:131-145 | after a run at a clock that never goes back, over the same observations of an hour, the row counts all of them if and only if no refresh came while the hour was leaving the window |

## Left out

- ReplyProtocol.OneReplyWithLatestHead: assumes that commit ids have one length, that people do not quote a marker and that reviews do not spell its fields; ReplyProtocol.ReplyIsJudged says exactly what happens when a review does.
- ReplyProtocol.RunShowsBoardExactlyWhen: needs the same assumptions about posts.
- RollupLaws.RowIsWholeAfterRunExactlyWhen: speaks about hours whose raw observations do not change during the run; RollupLaws.RowAfterRun covers changing tables.
- MarkdownRewriting.RewriteKeepsDocument: takes document places and move destinations to be repository paths, as those of the script are.
- LinkQueries.QueriedLinkKeepsTargetExactlyWhen: takes directories and moved files without `?` in their names and queries whose dots do not climb out of the file name; an empty path in front of the query is read as the directory of the document.
- MarkdownRewriting.QueriedLinkSurvivesExactlyWhen: takes directories and moved files without `?` in their names; MarkdownRewriting.LinkKeepsTargetExactlyWhen needs no such names, its condition compares components instead.
- Idle supervisor: a state-file write or a thread start that raises, container processes that outlive a restart of the supervisor, a clock that goes backwards, and the HTTP replies; `status` only reads.
- `ComposeRuntime` is replaced by calls that succeed or raise at any time.
- Risk rises: floating-point rounding, the tolerance of the validators, the JSONL loader, and the usage lists of the policy.
- Links: the second pass of `main` that replaces old paths anywhere in the text, and its file operations; URL schemes the code does not list count as paths, as in the code, and so do percent-escapes: `my%20file.md` is looked up as it is spelled and its file is not found among the moves.
- Routes: UTF-8 inside percent-escapes (ids are byte strings), the query string of `agentPath`, `loginPath`, `safeApplicationReturnPath`, and the React state of `usePathname`.
- Review publication: the language-model calls, the review text around the marker line, the discarding of stale heads, and deleted comments; comment ids are handed out by the host in increasing order.
- `_runtime_scope_evidence`: the choice of prompt sections and the regular expression, which is an arbitrary line test.
- Rollups: the SQL engine, floating point, the collation of `min` on text (code points here), row-level security, and concurrent writers.
- Outbox delivery, sensor statistics, seed and schema checks, and the front-end components: easier or not part of this model.
