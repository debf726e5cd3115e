# Verified models of bqlite's agent fleet, benchmark fixtures, pattern automata and command line

A Dafny 4.11 project with models of code in the bqlite repository and machine-checked proofs about
them. `dafny verify dfyconfig.toml` checks everything. Methods and classes have the source's loops
and fields and are proved against specification functions; lemmas then say what those
specifications mean. Paths and lines below refer to the bqlite repository.

## The fleet protocol

Agents share one `origin/main` and coordinate by committing lock files and done markers and pushing.
A push is a compare-and-swap on origin: it lands only on the commit the clone stands on.

- `TaskBoard` – tasks, locks, `classify_tasks`, drained waves, and why a wave of acyclic tasks is never
  stuck.
- `ClaimHistory` – what each commit may do to the board, given the commit whose files the agent had
  loaded, and what every history of such commits keeps.
- `ClaimMachine` – any number of agents interleaving claims, breaks, releases and completions; every
  reachable state has a lawful history.
- `ClaimProgress` – what one agent gets done in that machine while the others are quiet.
- `ClaimNext` – `claim_next` and its helpers as methods of a clone, with arbitrary lawful commits of
  others landing before each contact with origin.
- `FleetLoop` – `run_fleet_loop` over any sequence of callback answers and exceptions, and what the log of
  its calls says.
- `ExecuteTask` – the dialogue with the agent about one task, and what its outcome says about origin.
- `TaskLines`, `TasksText` – the `TASKS.md` parser.
- `PtyLines` – the loop that cuts the agent's terminal output into lines.

Exclusion does not hold in every run. When the push that breaks a stale lock loses its race,
`break_stale_lock` has reset the worktree, but `claim_next` only continues its scan; it then picks a
task from the boards it loaded before and writes that lock over whatever the new head holds, in a push
that fast-forwards. `StaleSnapshotBreaksExclusion` is such a run with two agents.
`ExclusiveIff` gives the exact condition, and attempts without a lost break push always meet it.
Dependency order holds in all runs, because completed tasks only accumulate. `release_lock` never
looks at the owner, so every statement about exclusion is "until the next commit that removes the
lock".

## Fixtures, automata, framing and the command line

- `SplitMix`, `Zipf`, `StreamingEvents` – the mixing function and its inverse, the apportionment of
  events, the chunked generator and when its output is in order.
- `ShardTargets`, `AcceptanceFixture` – allocation of entities to shards under an arbitrary hash and
  the fixture built on it.
- `RowGroups`, `AcceptanceGroups` – the segment writer's row-group planner and where its last group
  begins; the rows of each segment of the fixture.
- `ZoneMaps`, `AcceptedGroups` – the zone maps of a row group and what the acceptance query makes of them;
  exactly when it reads only the last row groups of the purchase shard, or a single one.
- `PatternNfa`, `PatternBuilders`, `PatternCandidates` – the benchmark's automaton builders, an occupancy
  simulator with the language of each builder, and the engine's candidate deques, which refine that
  simulator.
- `Occurrences`, `StraightPatterns` – what it means that a pattern occurs among timestamped events, and the
  deques on patterns with one transition per step, any poison on any state and any types for the first
  step.
- `StepCounter` – the engine's fast path, a single counter, with the exact condition under which it and
  the deques find the same match.
- `TiedTimestamps`, `TiedCounter`, `TieLoss`, `TieConditions` – both simulators when timestamps may be
  equal, and exactly which ties cost the deques a match.
- `CandidateSoundness` – for any automaton and any timestamps, the candidate deques never match where the
  occupancy simulator does not.
- `Framing` – length-prefixed string chunks.
- `IngestArgs`, `IngestErrors`, `InsertStmt`, `LimitInjection` – `bqlite ingest` arguments, which of them are
  accepted and which error the others get, the statement made of them and what it determines, and the
  automatic limit.
- `Text` – string order, decimals, white space and sorting by key, used by the others.

## Where code and documentation differ

The model follows the code.

- `scripts/agents/README.md:226` describes a back-off of 2, 5, 10, 20 and 60 minutes that resets after any
  successful claim; the code has 120, 300 and 600 seconds and resets when a task completes.
- The doc comment of `zipf_event_allocation` gives the rounding shortfall to entity 0; the code hands it
  out one event each to the first entities. With no entities and a positive total it returns nothing,
  so its total is exact if and only if there is an entity or nothing to hand out (`AllocationTotal`).
- `StreamingEventGenerator` promises entity-id order. That holds exactly if the names of entities with
  events come in the order of their numbers and all timestamps fit in 64 bits (`SortedIff`); for a skew
  that is not negative and for all seeds that is up to 10^8 entities with events and 124,794,707 events
  for the first (`AllocatedForEverySeed`).
- The automaton builders cast the number of steps to 8 bits for the step table and to 16 bits for
  states. `LinearIff`, `AlternationIff` and `NegationIff` say for which patterns the result is right.
- The comment on `generate_acceptance_events` says that the full predicate accepts only the tail row
  group of the purchase shard. The benchmark asks the zone maps (`benches/wave2/acceptance.rs:194-200`),
  and these accept a group exactly if it is of the purchase shard and holds a row of the tail
  (`SegmentAccepted`). With the shard as one segment only its last group is accepted if and only if the
  tail begins no earlier than that group (`ShardTailIff`), with equal rows per entity if and only if an
  entity fits into a group (`EqualTailIff`); `WideEntityFails` is an input that misses it. The writer,
  however, makes a segment of each 30-day window: `BucketTailIff` and `DatabaseTailIff` are the conditions
  for one window and for all, `WindowFails` misses both, and in all exactly one group is accepted if and
  only if the tail is within its first window and begins no earlier than the last group there
  (`OneAcceptedIff`), with equal rows per entity if and only if these are at most 15,840
  (`EqualOneAcceptedIff`). The 600 and the 10,000 rows per entity of the benchmark's modes are.
- The engine's candidate deque keeps the later of two timestamps for one anchor. With equal timestamps
  this can lose a match. It loses none of any pattern of n steps, whatever is forbidden and whatever the
  events' types, if and only if n is at most two, or there are fewer different timestamps than steps, or no
  timestamp after the second smallest occurs twice (`TiesIff`); the condition is the same for the linear
  patterns alone, for those with a WITHOUT clause on the second step (`NegationTiesIff`) and for the
  alternations (`AlternationTiesIff`). `TiesLoseMatches` is the smallest loss. On the patterns of
  `FastPathIff` the fast path is right whatever the ties (`CountsOccurrences`), so the two agree on exactly
  the same timestamps (`SimulatorsAgreeIff`).
- The planner puts the poison of a WITHOUT clause on step i onto state i + 1 and sends such patterns to
  the fast path (`crates/bqlite-planner/src/compile.rs:910-948` and `179-197`). With strictly increasing
  timestamps fast path and automaton simulator always find the same match if and only if some step is
  forbidden while it is awaited, or what is forbidden on a later state is forbidden on every earlier
  one (`FastPathIff`). A clause on the second step alone, as in the benchmark, is such a pattern; for one
  further on alone the two differ (`LaterPoisonDiffers`).
- Nothing keeps `bqlite ingest` from building one statement for two column maps. An
  accepted map is determined by its statement if and only if no pair's text reads as two names in a second
  way (`StmtDeterminesIff`); any three names, the first two without an equals sign, make two maps with one
  statement (`SpacesCollide`).
- `execute_task` failing with a git error counts as a failure but releases no lock: a release follows
  only outcomes that are returned.

## Model

| member | source | states |
|---|---|---|
| TaskBoard.ClassifyCovers | scripts/agents/task_tool.py:243-324 | for any pool or none and every task of the wave, from its tags and the board alone: claimable if and only if tagged for the pool, unretired, free and with its dependencies completed; blocked, active and completed likewise; the other two lists hold exactly the ready tasks of the other pool and the ready untagged ones |
| TaskBoard.BucketsList | scripts/agents/task_tool.py:260-324 | each list holds every task as often as the task table does if it belongs there and not at all otherwise, in order of number and id |
| TaskBoard.ClaimableHead | scripts/agents/task_tool.py:235-240 | the task a claim picks is ready, tagged for the pool, and the smallest by number and id |
| TaskBoard.DrainedAgrees | scripts/agents/agent_wrapper.py:533-540 | the wrapper's test on a "no_claimable" payload agrees with `is_wave_drained` on the classification it was made from |
| TaskBoard.DrainedMeansSettled | scripts/agents/task_tool.py:471-482 | without a pool filter a wave is drained if and only if every tagged, unretired task of it is completed and unlocked and every untagged one is completed, locked or waits for a dependency |
| TaskBoard.NoDeadlock | scripts/agents/task_tool.py:260-313 | with acyclic dependencies that are completed or inside the wave, an unfinished wave has a task that is claimable, claimable but untagged, or locked |
| TaskBoard.StuckHasCycle | scripts/agents/task_tool.py:296-301 | a wave that is stuck contains a dependency cycle |
| ClaimHistory.ClaimDecision | scripts/agents/task_tool.py:529-545 | a claim was decided on a board on which its task was ready, and that is the board it landed on unless a break push was lost |
| ClaimHistory.CompletedGrows | scripts/agents/agent_wrapper.py:118-120 | done markers are never taken away |
| ClaimHistory.DependencySafety | scripts/agents/task_tool.py:296-301 | in every commit each locked or finished task has its dependencies completed, outdated snapshots included |
| ClaimHistory.CompletionOrderIsCompletions | scripts/agents/agent_wrapper.py:118-120 | the completion order lists each task completed during the run once and nothing else |
| ClaimHistory.LinearExtension | scripts/agents/task_tool.py:239-240 | the order of completions over a whole run extends the dependency order |
| ClaimHistory.CyclesNeverRun | scripts/agents/task_tool.py:239-240 | tasks that wait for one another are never locked or completed in any run |
| ClaimHistory.LockedIff | scripts/agents/task_tool.py:383-404 | a lock file is present exactly when some claim has not been followed by a removal |
| ClaimHistory.ExclusiveIff | scripts/agents/task_tool.py:526-548 | a pushed claim is the only one since the lock was last free, of an unfinished task, if and only if the task is still ready where the commit lands; always so without a lost break push |
| ClaimHistory.ClaimsAreSeparated | scripts/agents/task_tool.py:485-505 | between two claims of one task, the later without a lost break push, a commit removed the lock |
| ClaimHistory.BreakIsOverdue | scripts/agents/task_tool.py:345-389 | a break removes the lock it examined, with every sign of life older than the timeout, or, after a lost push only, one claimed since |
| ClaimHistory.StaleIff | scripts/agents/task_tool.py:345-380 | a lock is stale if and only if it says when it was claimed and the claim, the last commit of its branch and the last mention on main are all older than the timeout |
| ClaimMachine.ApplyInv | scripts/agents/task_tool.py:508-583 | every step of every agent keeps the history lawful and the other agents' knowledge of it true |
| ClaimMachine.FleetSafety | scripts/agents/task_tool.py:508-558 | every reachable state, any agents, any interleaving: dependencies respected, claims exclusive without a lost break push and otherwise exactly when the task is still ready |
| ClaimMachine.TwoWorkers | scripts/agents/agent_wrapper.py:584-601 | two agents hold one task at once only if the lock was removed between their claims or the later claim lost a break push |
| ClaimMachine.StaleSnapshotBreaksExclusion | scripts/agents/task_tool.py:526-530 | a reachable state in which two agents work on one task with no removal in between |
| ClaimProgress.ClaimsAlone | scripts/agents/task_tool.py:508-558 | from any state an idle agent can by itself, with no stale lock on the head, land the claim of the first claimable task, and nothing but its lock changes |
| ClaimProgress.BreaksAlone | scripts/agents/task_tool.py:383-389 | and otherwise the removal of the first stale lock in name order |
| ClaimProgress.FinishesAlone | scripts/agents/agent_wrapper.py:118-120 | a working agent can land the commit that turns its lock into a done marker |
| ClaimProgress.ReleasesAlone | scripts/agents/task_tool.py:485-505 | or the one that removes its lock, if it is still there |
| ClaimNext.LandedAll | scripts/agents/task_tool.py:111-135 | any lawful commits of others are on main at the next contact |
| ClaimNext.Clone.ResetToOrigin | scripts/agents/task_tool.py:111-135 | the clone becomes the head of main |
| ClaimNext.Clone.CommitAndPush | scripts/agents/task_tool.py:147-153 | the commit lands if and only if origin still has the commit the clone stands on as its head and the network lets the push through; otherwise origin is untouched and the clone is reset to the head |
| ClaimNext.Clone.BreakStaleLock | scripts/agents/task_tool.py:383-389 | true without a push when the lock is gone from the loaded boards; otherwise exactly one push of the removal from the commit the clone stood on, which decides the answer: it lands if and only if origin had not moved and the network let it through |
| ClaimNext.Clone.ReleaseLock | scripts/agents/task_tool.py:485-505 | resets to the head of main; true without a push if the lock is gone there, otherwise exactly one push that removes it, whoever owns it, and the answer is whether it landed |
| ClaimNext.Clone.BreakFirstStale | scripts/agents/task_tool.py:525-530 | looks at the locks in order up to the one it breaks, which is stale; a lock passed over was not stale, or had a push of its own that did not land |
| ClaimNext.Clone.PushLock | scripts/agents/task_tool.py:392-404 | exactly one push of the claim with the whole lock written, which decides the answer; exclusive when no break push was lost |
| ClaimNext.Clone.ClaimNext | scripts/agents/task_tool.py:508-583 | a returned claim is the head of main and exclusive unless a break push was lost; reports match the classification of the loaded board field by field; every attempt looks at the locks of the boards it loaded in order, and it gives up exactly when each of them broke a lock or lost its claim; every stale lock passed over and every lost claim names a push of its own that found origin moved or was refused; nothing else is added but breaks |
| ClaimNext.AttemptAlone | scripts/agents/task_tool.py:519-558 | with nobody else pushing and nothing refused, an attempt breaks the first stale lock if there is one and otherwise claims the first claimable task if there is one |
| ClaimNext.ReleaseAlone | scripts/agents/task_tool.py:485-505 | and a release then always gives the lock back |
| ClaimNext.SortedKeys | scripts/agents/task_tool.py:525 | the lock names in strictly increasing order |
| FleetLoop.PlayTurn | scripts/agents/agent_wrapper.py:583-730 | one iteration makes the calls of the table with the answers given, and moves the three counters as the calls in its log say |
| FleetLoop.RunFleetLoop | scripts/agents/agent_wrapper.py:543-730 | the log is that of the turns played; each exit happens if and only if the log says so: an exception got through, the last claim found the wave drained, exactly the quota of executions returned "completed", or three failures in a row |
| FleetLoop.RunBounds | scripts/agents/agent_wrapper.py:566-581 | with a quota of m at most m successes and at most 3m executed tasks; never more than three failures in a row |
| FleetLoop.EachCallLeads | scripts/agents/agent_wrapper.py:566-730 | in the log of every run each call is directly followed by what its answer demands: a claim of an EASY or HARD task by its execution with the model for it, any other claim by its release, an execution that did not complete by a release with its outcome, an exception by a nap of 60 seconds, an idle claim by one of 120, 300 or 600, the end by nothing; and no iteration starts at the quota or after three failures |
| FleetLoop.OnlyAfter | scripts/agents/agent_wrapper.py:600-648 | and nothing is executed, released or slept on for any other reason |
| FleetLoop.Answers | scripts/agents/agent_wrapper.py:583-626 | the answers in the log are those of the turns, in order |
| FleetLoop.OneResult | scripts/agents/agent_wrapper.py:612-648 | every turn counts as one completion, one failure or neither, told from its answers alone |
| FleetLoop.FailuresAreLast | scripts/agents/agent_wrapper.py:612-626 | the failure counter counts the failures after the last completion, one each |
| ExecuteTask.RunOnce | scripts/agents/agent_wrapper.py:423-451 | runs and replies alternate up to the first output that asks nothing; each output is the next one said, each reply the one to the output before it, and each further run resumes the session with that reply |
| ExecuteTask.HasNeedsInputIff | scripts/agents/agent_wrapper.py:129-130 | an output asks if and only if the marker stands somewhere in it |
| ExecuteTask.ExecuteTask | scripts/agents/agent_wrapper.py:454-519 | one dialogue and a look at origin, a second round only while the lock is held, and the outcome those looks call for |
| ExecuteTask.OutcomesAreReal | scripts/agents/task_tool.py:452-468 | a task is reported completed, incomplete or missing if and only if the looks at main found it so; one reported completed has its done marker in every later commit |
| TaskLines.SplitTerminated | scripts/agents/task_tool.py:164 | splitting terminated lines gives the lines back |
| TaskLines.SplitFirst | scripts/agents/task_tool.py:164 | a text is cut after any line break of Python, a carriage return and line feed counting as one, and not at its end |
| TaskLines.ParseHeaderLine | scripts/agents/task_tool.py:33 | a printed header, with any white space around the title, reads back as its number, tags and title |
| TaskLines.ParseHeaderIff | scripts/agents/task_tool.py:33 | a line is read as a header if and only if it is one of the ways of writing it, with the same number, tags and title |
| TaskLines.ParseDependsLine | scripts/agents/task_tool.py:187-192 | a printed dependency line reads back as its ids |
| TaskLines.ParseDependsIs | scripts/agents/task_tool.py:187-192 | any dependency line names the ids found after the colon |
| TaskLines.FindIdsIff | scripts/agents/task_tool.py:34 | ids are found at exactly the places where one stands, in order |
| TasksText.ParseTasksText | scripts/agents/task_tool.py:160-198 | the line loop returns what the sections of the text say, or the first conflict |
| TasksText.ParsedSound | scripts/agents/task_tool.py:201-216 | every successful parse has distinct ids, wave = number div 100, at most one pool tag and well-formed dependencies |
| TasksText.RejectedIff | scripts/agents/task_tool.py:205-208 | a text is rejected if and only if some section has both pool tags, with the id of the first |
| TasksText.LastSectionWins | scripts/agents/task_tool.py:169-171 | the result holds exactly the tasks of the last section of each id, each with its last dependency line |
| TasksText.PutKnown | scripts/agents/task_tool.py:169-171 | a task whose id is known takes the place of the one before it |
| TasksText.ParsePrinted | scripts/agents/task_tool.py:160-216 | printing tasks with distinct ids, among arbitrary other lines, and parsing gives exactly those tasks in order |
| PtyLines.PiecesUnique | scripts/agents/agent_wrapper.py:390-391 | the newline split is the only cutting into newline-free pieces that join to the stream |
| PtyLines.RunClaude | scripts/agents/agent_wrapper.py:374-393 | however the bytes arrive, the handler gets the newline split of the whole stream and a last unterminated line if not blank |
| PtyLines.LinesAndRest | scripts/agents/agent_wrapper.py:374-393 | of any stream the handler gets every line ended by a newline, empty ones included, and what follows the last newline unless that is only ASCII white space |
| PtyLines.StreamConcat | scripts/agents/agent_wrapper.py:377-386 | the stream is what was read up to the first error or empty read, however it was cut |
| SplitMix.SplitMixBijective | benches/common/mod.rs:1033-1039 | the mixing function and its inverse undo each other in both orders |
| SplitMix.SeededHashesDiffer | benches/common/mod.rs:952-953 | for one seed different 64-bit indices have different hashes |
| SplitMix.KnownValues | benches/common/mod.rs:1033-1039 | the first two outputs for seed zero |
| Zipf.ZipfEventAllocation | benches/common/mod.rs:1006-1031 | the loops compute the allocation specified |
| Zipf.HandOutRemainder | benches/common/mod.rs:1022-1029 | the remainder loop gives one event each to the first entities and uses up the remainder |
| Zipf.AllocationTotal | benches/common/mod.rs:1006-1031 | the counts add up to the total if and only if there is an entity or the total is 0 |
| Zipf.AllocationIff | benches/common/mod.rs:1006-1029 | for any list of reals that adds up to the total and is in inverse proportion to the powers, the allocation is the one list of counts that adds up to the total and is that list rounded down, with one more for the first entries |
| Zipf.QuotasIff | benches/common/mod.rs:1011-1020 | there is exactly one such list of reals, the quotas |
| Zipf.AllocationMonotone | benches/common/mod.rs:1011 | counts do not increase along the entities when weights do not |
| Zipf.AllocationUniform | benches/common/mod.rs:1005-1011 | with equal weights counts differ by at most one |
| StreamingEvents.ForEachChunk | benches/common/mod.rs:929-993 | for any chunk size the callbacks' slices put together are the fixture, none empty, all but the last full |
| StreamingEvents.ChunkSizeIrrelevant | benches/common/mod.rs:929-993 | the specified fixture does not mention the chunk size, so that by `ForEachChunk` what the callbacks see in all is the same for every one |
| StreamingEvents.EventFields | benches/common/mod.rs:953-982 | every field of every event by its entity and its number, wherever it stands in the fixture |
| StreamingEvents.EventTimes | benches/common/mod.rs:947-957 | an entity's events are a minute apart, the first within a minute of the start of 2025 by its hash |
| StreamingEvents.SortedIff | benches/common/mod.rs:944-957 | for any counts the events are in (entity id, timestamp) order if and only if the names of entities with events are in numeric order and every timestamp fits in 64 bits |
| StreamingEvents.NamesIff | benches/common/mod.rs:944 | if no entity between two with events is without, the names are in order if and only if no step from k to k + 1 digits, k at least 8, is among them |
| StreamingEvents.SortedForEverySeed | benches/common/mod.rs:952-957 | the events are in order for every seed if and only if the names are and no entity has more than 124,794,707 events |
| StreamingEvents.AllocatedForEverySeed | benches/common/mod.rs:929-957 | for the generator's allocation with weights that do not increase: if and only if the first entity has at most 124,794,707 events and at most 10^8 entities have any |
| ShardTargets.EntityTargetsPerShard | benches/common/mod.rs:778-785 | the loop gives each shard the quotient, and the first shards one more |
| ShardTargets.TargetsTotal | benches/common/mod.rs:778-785 | the targets add up to the number of entities |
| ShardTargets.TargetsIff | benches/common/mod.rs:778-785 | the targets are the one list for the shards that adds up to the number of entities, falls, and differs by at most one |
| ShardTargets.AllocateEntitiesByShard | benches/common/mod.rs:787-808 | each shard gets the first candidates that hash to it, as many as its target, for any hash that lets the loop finish |
| ShardTargets.AllocatedOwn | benches/common/mod.rs:791-805 | all names of a shard hash to it and none comes twice |
| ShardTargets.HitsAll | benches/common/mod.rs:795-804 | every candidate that hashes to a shard is among its candidates, in the order of their numbers |
| ShardTargets.TailIsLastGroup | benches/common/mod.rs:810-820 | the tail is exactly the last group when entities are cut into groups |
| AcceptanceFixture.GenerateAcceptanceEvents | benches/common/mod.rs:667-768 | the loops produce the fixture specified |
| AcceptanceFixture.PurchaseShard | benches/common/mod.rs:678-683 | the last of the shards with the most entities |
| AcceptanceFixture.FixtureSize | benches/common/mod.rs:721-727 | exactly n rows over exactly the requested number of entities |
| AcceptanceFixture.RowMeaning | benches/common/mod.rs:694-741 | purchases are exactly the rows of one shard; an amount is over 4500 exactly outside it and in the tail of its entities |
| AcceptanceFixture.RowHolds | benches/common/mod.rs:694-766 | every field of every row by its entity's shard and place there; the entities follow each other in name order, the first of them with one row more |
| AcceptanceFixture.FixtureOrderedIff | benches/common/mod.rs:712-735 | rows are strictly ordered by entity and timestamp if and only if n is at most 124,794,708 per entity |
| AcceptanceFixture.GeneratedFixture | benches/common/mod.rs:667-768 | size, distinct entities, order, purchase shard and amounts for the generator's own allocation under any hash |
| RowGroups.PlanRowGroups | crates/bqlite-storage/src/writer.rs:554-593 | the two loops give the plan specified, for any list of entities and any positive target |
| RowGroups.PlanIff | crates/bqlite-storage/src/writer.rs:534-549 | a list of ranges is the plan if and only if the ranges follow one another over all rows and each ends at the last entity boundary within the target or, if there is none, at the target |
| RowGroups.SplitsOnlyWide | crates/bqlite-storage/src/writer.rs:545-549 | a group that ends inside an entity holds only rows of that entity, as many as the target |
| RowGroups.TailIff | crates/bqlite-storage/src/writer.rs:554-593 | for entities with q rows or one more, the longer ones first: by a closed form of the counts, whether the last group begins with entity t, and whether all rows from entity t on are in it |
| AcceptanceGroups.KeptTail | benches/common/mod.rs:684-741 | in each segment of the purchase shard the rows are blocks by entity in name order and the amounts over 4500 are the rows from the first tail entity on |
| ZoneMaps.IntZone | crates/bqlite-storage/src/writer.rs:1028-1044 | the loop gives the least and the greatest value |
| ZoneMaps.NeverPruned | crates/bqlite-core/src/storage.rs:437-469 | a group with a purchase over 4500 is always accepted |
| ZoneMaps.AcceptedIff | crates/bqlite-core/src/storage.rs:437-469 | and a group is accepted if and only if it has an event type up to "purchase", one from "purchase" on, and an amount over 4500 |
| AcceptedGroups.SegmentAccepted | benches/common/mod.rs:656-663 | the event type alone accepts exactly the groups of the purchase shard, the amount alone those of the other shards and those with a row of the tail |
| AcceptedGroups.ShardTailIff | benches/common/mod.rs:661-663 | the purchase shard as one segment: only its last group is accepted if and only if, by the closed form, the tail begins no earlier than that group; and the tail is that group if and only if both begin together |
| AcceptedGroups.EqualTailIff | benches/common/mod.rs:661-663 | with equal rows per entity, both if and only if an entity has at most 65,536 rows |
| AcceptedGroups.SteadyTail | benches/common/mod.rs:684-691 | with counts that differ by one, both if as many of the longer entities as of the shorter fit into a group |
| AcceptedGroups.BucketTailIff | crates/bqlite-storage/src/ingest/partitioner.rs:131-155 | the same for the rows of one 30-day window, which are already in the writer's order |
| AcceptedGroups.DatabaseTailIff | benches/wave2/acceptance.rs:186-203 | over all shards and windows, the accepted groups are exactly the last ones of the purchase shard's segments if and only if each window passes the test |
| AcceptedGroups.OneAcceptedIff | benches/wave2/acceptance.rs:186-203 | exactly one row group of the database is accepted if and only if the tail has rows, all of them in the first window, and begins no earlier than the last group there |
| AcceptedGroups.EqualOneAcceptedIff | benches/wave2/acceptance.rs:186-203 | with equal rows per entity, if and only if these are at most 15,840 |
| AcceptedGroups.SteadyOneAccepted | benches/wave2/acceptance.rs:186-203 | with counts that differ by one, below 15,840, it is so if as many of the longer entities as of the shorter fit into a group |
| AcceptedGroups.EqualTailInOneBucket | crates/bqlite-storage/src/ingest/partitioner.rs:131-155 | with equal counts of at most 15,840 rows the shard is one bucket, whose last group is exactly the tail and the only one accepted |
| AcceptedGroups.WideEntityFails | benches/common/mod.rs:684-691 | one entity of 65,537 rows, both of whose row groups are accepted |
| AcceptedGroups.WindowFails | benches/common/mod.rs:684-691 | nine entities of 20,000 rows, in whose first window a group before the last is accepted |
| PatternNfa.RunOnlyRelevant | crates/bqlite-operators/src/matcher/nfa.rs:836-843 | for every automaton, dropping events outside the relevant types changes nothing |
| PatternNfa.GreedyMatch | crates/bqlite-operators/src/matcher/step_counter.rs:620-728 | a single greedy cursor over the event types decides whether the steps are a subsequence |
| PatternNfa.ChainRun | crates/bqlite-operators/src/matcher/nfa.rs:826-1031 | on an automaton of the builders' shape the simulator occupies exactly the reachable states, completes exactly when the last is reached, and does not panic |
| PatternBuilders.LinearNfa | benches/wave3/matcher.rs:51-89 | the loop builds the specified automaton |
| PatternBuilders.LinearLanguage | benches/wave3/matcher.rs:51-89 | for 1 to 255 steps it completes exactly on the supersequences of the steps |
| PatternBuilders.LinearIff | benches/wave3/matcher.rs:75 | and is right for all event lists if and only if it has 1 to 255 steps |
| PatternBuilders.LinearNfaWithNegation | benches/wave3/matcher.rs:94-145 | the loop builds the specified automaton |
| PatternBuilders.NegationLanguage | benches/wave3/matcher.rs:94-145 | completes exactly when the first two steps occur without poison between them and the others follow |
| PatternBuilders.NegationIff | benches/wave3/matcher.rs:130 | right for all event lists if and only if at most 255 steps, or the second step is itself forbidden and the accepting state does not wrap to 1 |
| PatternBuilders.GeneralNfaAlternation | benches/wave3/matcher.rs:265-334 | the loop builds the specified automaton |
| PatternBuilders.AlternationLanguage | benches/wave3/matcher.rs:265-334 | completes exactly on the union of the two linear languages |
| PatternBuilders.AlternationIff | benches/wave3/matcher.rs:320 | and is right for all event lists if and only if it has at most 255 steps |
| PatternBuilders.GeneralNfaRepetition | benches/wave3/matcher.rs:338-412 | the builder returns the specified automaton |
| PatternBuilders.RepetitionLanguage | benches/wave3/matcher.rs:338-412 | completes exactly where the linear automaton of the same three steps does |
| PatternBuilders.StepsAreDistances | benches/wave3/matcher.rs:75 | in the automata of all four builders the step table gives each state it covers its distance from the start |
| PatternCandidates.Refines | crates/bqlite-operators/src/matcher/nfa.rs:826-1045 | with strictly increasing timestamps and the candidate limit not exceeded, for any automaton, the candidate deques complete, panic and occupy states as the occupancy simulator does |
| CandidateSoundness.Sound | crates/bqlite-operators/src/matcher/nfa.rs:826-1045 | for any automaton, any timestamps and any limit: while the occupancy simulator runs on, the candidate deques have neither matched nor panicked and occupy no other states |
| CandidateSoundness.NegationSound | benches/wave3/matcher.rs:94-145 | whatever the timestamps, the candidate deques match a pattern with a WITHOUT clause only where it occurs |
| CandidateSoundness.AlternationSound | benches/wave3/matcher.rs:265-334 | and an alternation only where one of its two patterns does |
| StepCounter.Counter.ProcessEvent | crates/bqlite-operators/src/matcher/step_counter.rs:598-738 | the counter's fields become those of the specified count over all events so far |
| StepCounter.Counter.ProcessBatch | crates/bqlite-operators/src/matcher/step_counter.rs:450-536 | the state after any batches is the count over all events so far, however they were cut |
| StepCounter.FastPathIff | crates/bqlite-operators/src/matcher/step_counter.rs:598-911 | on patterns with one transition per step and any poison on any state, fast path and candidate deques find the same anchor and final timestamps, or none, on all events with strictly increasing timestamps, if and only if some step is in the poison of its own state or poison is nested |
| StepCounter.CompleteSpans | crates/bqlite-operators/src/matcher/step_counter.rs:690-720 | whatever the timestamps and the poison, a match reported by the fast path spans from an event of the first step, its anchor, to the event just processed and has all steps in order between them |
| StepCounter.LaterPoisonDiffers | crates/bqlite-operators/src/matcher/step_counter.rs:668-682 | a WITHOUT clause on the third step and five events on which the candidate deques match and the fast path does not |
| StepCounter.BuildersAgree | benches/wave3/matcher.rs:51-145 | the benchmark's linear and WITHOUT patterns of 2 to 255 steps are such patterns |
| Occurrences.OccursIff | crates/bqlite-operators/src/matcher/nfa.rs:826-1045 | a pattern occurs, its steps at increasing positions and timestamps with nothing forbidden in between, if and only if the event-by-event recursion reaches its last step |
| Occurrences.RowIsSubseq | crates/bqlite-operators/src/matcher/nfa.rs:826-1045 | with strictly increasing timestamps steps in a row occur exactly in their supersequences |
| TiedTimestamps.SimulatorFinds | crates/bqlite-operators/src/matcher/nfa.rs:826-1045 | for any poison on any state and any first types, ties included, a match of the candidate deques is always an occurrence, and none is missed if the pattern has at most two steps or no timestamp after two smaller ones repeats |
| TiedCounter.CountsOccurrences | crates/bqlite-operators/src/matcher/step_counter.rs:598-738 | on the patterns of `FastPathIff` and for timestamps in order, ties included, the fast path completes exactly where the pattern occurs |
| TiedCounter.CountsLinear | crates/bqlite-operators/src/matcher/step_counter.rs:690-720 | so on linear patterns |
| TiedCounter.CountsNegation | crates/bqlite-operators/src/matcher/step_counter.rs:668-720 | and on those with a WITHOUT clause on the second step |
| TieConditions.TiesIff | crates/bqlite-operators/src/matcher/nfa.rs:128-148 | the candidate deques match every pattern of n steps exactly where it occurs, for every labelling of the timestamps, if and only if n is at most 2, or fewer than n timestamps differ, or no timestamp with two smaller ones occurs twice; and the linear patterns under the same condition |
| TieConditions.NegationTiesIff | crates/bqlite-operators/src/matcher/nfa.rs:128-148 | and the patterns with a WITHOUT clause on the second step |
| TieConditions.AlternationTiesIff | crates/bqlite-operators/src/matcher/nfa.rs:128-148 | and the alternations |
| TieConditions.SimulatorsAgreeIff | crates/bqlite-operators/src/matcher/nfa.rs:128-148 | fast path and candidate deques agree on all linear patterns of n steps on exactly those timestamps, on all with a WITHOUT clause on the second step likewise, and there on every pattern of `FastPathIff` |
| TieConditions.TiesLoseMatches | crates/bqlite-operators/src/matcher/nfa.rs:128-148 | four events and three steps that occur, on which the fast path completes and the candidate deques do not |
| Framing.StringViewOffsetsAndBytes | benches/wave2/encoding.rs:530-548 | the offsets and bytes of the strings, or a panic exactly when 32 bits do not hold the total |
| Framing.SlicesOfOffsets | benches/wave2/encoding.rs:530-548 | offsets and bytes determine the strings |
| Framing.FrameStrings | benches/wave2/encoding.rs:573-585 | the frames of all strings, or an error exactly when one is over 65535 bytes |
| Framing.EncodeWithRawFsst | benches/wave2/encoding.rs:550-594 | the chunk specified, with each error in its situation |
| Framing.EncodedIs | benches/wave2/encoding.rs:550-594 | encoding fails as the compressor does, on the wrong number of offsets, or exactly when one compressed string is over 65535 bytes |
| Framing.UnframedOfFramed | benches/wave2/encoding.rs:600-631 | reading frames back gives the strings framed, and nothing else |
| Framing.FramedOfUnframed | benches/wave2/encoding.rs:600-631 | framing what was read gives the payload back |
| Framing.FrameLayout | benches/wave2/encoding.rs:573-585 | a frame is the length, low byte first, and the string |
| Framing.AcceptedIff | benches/wave2/encoding.rs:601-642 | a payload is accepted if and only if it is the concatenation of exactly row_count complete frames |
| Framing.Unframe | benches/wave2/encoding.rs:596-642 | the cursor loop gives the strings and offsets, or the error, that the payload's frames call for |
| Framing.DecodeWithRawFsst | benches/wave2/encoding.rs:596-663 | the strings specified, with each error in its situation |
| Framing.DecodedIs | benches/wave2/encoding.rs:596-663 | for any payload, as some complete frames and a rest, the strings or the error that decoding gives |
| Framing.StringsRoundTrip | benches/wave2/encoding.rs:550-663 | with a compressor and decompressor that undo each other every list of strings comes back, unless a compressed one is over 65535 bytes |
| IngestArgs.ParseWrittenMap | crates/bqlite-cli/src/ingest.rs:199-219 | every way of writing a list of pairs, with any white space, reads back |
| IngestErrors.ColumnMapIff | crates/bqlite-cli/src/ingest.rs:199-219 | a map is read from a text if and only if the text is one of the ways of writing it |
| IngestErrors.BadEntry | crates/bqlite-cli/src/ingest.rs:199-219 | of any other text the first entry that writes no pair is reported, or that the text is empty |
| IngestArgs.ParseIngestArgs | crates/bqlite-cli/src/ingest.rs:68-196 | the index-driven loop returns what the flags and positionals say, or the first error |
| IngestArgs.AcceptedIff | crates/bqlite-cli/src/ingest.rs:68-196 | accepted if and only if each flag comes at most once, the path, table and database exactly once, and the map parses |
| IngestErrors.AcceptedAsTyped | crates/bqlite-cli/src/ingest.rs:68-196 | accepted are exactly the arguments typed in some order and spelling, with no positional that looks like a flag, that say what they must |
| IngestErrors.WrongArgument | crates/bqlite-cli/src/ingest.rs:79-170 | after arguments that are fine so far a request for help, an unknown flag and a flag without its value each give their own error |
| IngestErrors.WrongValue | crates/bqlite-cli/src/ingest.rs:79-180 | as do a flag given again and a map that cannot be read |
| IngestErrors.NothingWrong | crates/bqlite-cli/src/ingest.rs:183-195 | and at the end a missing path, table or database, in this order |
| IngestErrors.AsTyped | crates/bqlite-cli/src/ingest.rs:76-182 | any argument list is arguments as they may be typed up to the first one that is wrong by itself, so that these cover all lists |
| IngestArgs.RepeatedIsRejected | crates/bqlite-cli/src/ingest.rs:80-164 | a repeated flag is always rejected, the map flag included |
| IngestArgs.ParseCommandLine | crates/bqlite-cli/src/ingest.rs:68-196 | parsing inverts every rendering, in either spelling |
| IngestArgs.OrderAndSpellingIrrelevant | crates/bqlite-cli/src/ingest.rs:65-67 | reordering or respelling the flags changes no successful result; which error is reported may change |
| InsertStmt.StmtRoundTrip | crates/bqlite-cli/src/ingest.rs:230-267 | table, path, format and map text can be read back from the statement |
| InsertStmt.StmtInjective | crates/bqlite-cli/src/ingest.rs:230-267 | equal statements have equal table, path, format (csv if absent) and map text |
| InsertStmt.StmtText | crates/bqlite-cli/src/ingest.rs:230-267 | the whole text for a path and a format without quotes, csv if none is given, and an error exactly for a backtick in the table name |
| InsertStmt.ParsedIff | crates/bqlite-cli/src/ingest.rs:199-219 | the map parser makes exactly the non-empty lists of trimmed, non-empty names without commas, the source names without an equals sign |
| InsertStmt.DeterminedIff | crates/bqlite-cli/src/ingest.rs:230-267 | the text of such a map determines it among them if and only if no pair's text splits into two acceptable names at another " AS " |
| InsertStmt.StmtDeterminesIff | crates/bqlite-cli/src/ingest.rs:230-267 | and a statement its arguments, up to an absent format and the database path, under the same condition |
| InsertStmt.StmtDeterminesArgs | crates/bqlite-cli/src/ingest.rs:230-267 | in particular if no name has a space or a comma, acceptable or not |
| InsertStmt.SpacesCollide | crates/bqlite-cli/src/ingest.rs:199-267 | any three names, the first two without an equals sign, make two accepted maps with one text |
| LimitInjection.HasExplicitLimit | crates/bqlite-cli/src/format.rs:47-72 | true if and only if a bar is followed by white space and the word "limit" at a word boundary |
| LimitInjection.MaybeInjectLimit | crates/bqlite-cli/src/format.rs:108-119 | the query or its base with the stage for one more row, saturating at 2^64 - 1 |
| LimitInjection.BaseIsPrefix | crates/bqlite-cli/src/format.rs:115-116 | what is cut off is all trailing white space with at most one semicolon |
| LimitInjection.InjectedTwice | crates/bqlite-cli/src/format.rs:108-119 | injecting again changes nothing, whatever the limits |
| LimitInjection.InjectedIff | crates/bqlite-cli/src/format.rs:47-119 | unchanged if and only if a bar, white space and the word limit stand in it, or it starts, after white space, with one of the six keywords in any mix of cases; otherwise the query without white space and at most one semicolon at its end, and a stage with the decimal of the limit plus one, saturating at 2^64 - 1 |
| LimitInjection.OnlyInjectedStage | crates/bqlite-cli/src/format.rs:108-119 | the injected stage is the only one the scanner sees in the result |

## Left out

- Edits of `TASKS.md` during a run: the task table is constant, and a parse error inside `claim_next` is not modelled.
- Git, terminals and files themselves: a push is refused, lands, or finds origin moved; failures after a push was accepted, `git commit` with nothing to commit, and a dirty worktree are not modelled.
- The agent's own work, prompts, `ensure_task_branch`, display, and `list_tasks`: what an agent prints is arbitrary, and the completion of a task is one commit on the head.
- Liveness of the fleet loop and of the needs-input loop, which may go on for ever by design.
- Clock readings, branch dates and log searches that decide whether a lock is stale: arbitrary evidence per examination.
- `raw_output` of a run, which decodes each chunk by itself, and JSON event formatting: the line handler is an arbitrary function.
- Non-ASCII digits in task headers, which Python's `\d` also accepts.
- Floating-point rounding in the Zipf weights: exact reals, with `powers[i]` standing for (i + 1)^alpha.
- Unbounded counters where the source has `usize` or `u64` and no property depends on wrap-around.
- Bounds of Boolean and floating-point columns, and nulls: the two columns of the query have none.
- The shard hash, the FSST library and UTF-8 validation: arbitrary functions; for the hash and the library with their contracts as assumptions.
- `generate_events`, whose counts and order are the simple case of the acceptance fixture.
- The simulator's predicates, bindings, windows, sessions and MATCH ALL mode, and which candidates are dropped beyond the active-state limit: a run ends in `OverLimit` there. The deques are modelled on values, so reuse of the propagation buffer is not captured.
- Rebinding anchors, several tracks and the active-track limit of the fast path, which need windows, bindings or a limit of 0, and the data generators of the matcher benchmark.
- Bytes against characters in the limit scanner: it is modelled on characters, which is the same scan because every byte it looks for is ASCII and no other UTF-8 byte is below 128.
- Paths that are not valid Unicode, and error message texts.
- PatternNfa.GreedyMatch: event types only; the timestamps and poison of the cited loop are in `StepCounter.CountEvent` and the lemmas about it.
- PatternCandidates.Refines: strictly increasing timestamps only. For equal ones `TieConditions.TiesIff` is exact on patterns with one transition per step, and `CandidateSoundness.Sound` has one direction for every automaton; which ties cost a match of an automaton with loops is not treated.
- StepCounter.FastPathIff: strictly increasing timestamps and at most 255 steps. For equal ones `TieConditions.SimulatorsAgreeIff` says when both complete, not which of several anchors they report.
- Spilling and merging in the partitioner, encodings and everything else the segment writer does with a planned group.
- Opening the database, running the statement, and the rest of the storage, planner and engine crates.
