# Verified model of the agf engines

A Dafny 4.11 model of the parts of agf whose behaviour is decided by whole runs or by all inputs at
once: the ant colony driver, the two fuzzy matchers, permission inheritance, the graph tree view,
configuration layers, the session log, the spawn registry, the work-in-progress gate, the MCP bridge,
the skill character budget and the colony overview. `dafny verify dfyconfig.toml` checks everything.

## Modules

- `Prelude`: optional values, ASCII case folding, decimal spelling.
- `FuzzyPalette`: the palette's greedy scan, proved against all embeddings of the query; the palette as
  the unique ranking of the matching commands.
- `FuzzySearch`: the file scorer, and the exact query lengths up to which its tiers stay apart.
- `ColonyGraph`, `PriorityRank`, `Picker`, `PickerLaws`: node rows and leases, the topological ranking, and the task
  picker, proved to need no more of the ranking than its first level; what it picks, told by rows and edges.
- `Colony`, `ColonyTheorems`, `ColonyOrder`, `ColonyLaws`: the driver and the ant cycle as classes and methods proved
  equal to a function `Run` on immutable worlds; the theorems about `Run`; when a run respects dependencies; what a run
  writes, column by column.
- `Chains`, `Permissions`, `PermissionTexts`: walks along single links, profile resolution as such a walk, and what
  becomes of the text of each entry.
- `Forest`, `TreeNav`: the forest grown from parent pointers, its flattening, and the cursor on it.
- `Layers`: deep merge of value trees.
- `Rollout`: session files as encodings of entry sequences.
- `Registry`, `RegistryHistory`, `WipGate`: the two capacity gates as classes and state machines, and where the
  registry's agents and tokens come from.
- `BridgeStore`, `BridgeReads`, `Bridge`: the node table, the reading tools and the dispatcher of the MCP server.
- `BridgeLaws`, `BridgeViews`, `BridgeCache`: what each mutating tool does to the table and each reading tool shows of
  it, column by column; which call makes which cached answer stale, and what cached runs answer.
- `SkillBudget`: the two modes of the character budget.
- `ColonyView`: the overview of ants in flight and overlapping files.

State that the source updates in place is a class or a field a method reassigns; each such method is
proved equal to a specification function, and the promises are lemmas about that function. Laws stated on columns,
texts and edge positions alone say what those functions compute without naming their parts.

## Where the code and what is said about it part ways

The model follows the code. Each point is a lemma.

- `src/swarming/run.ts:62-65` calls a task without a lock a dead ant's task. The lookup uses the bare node
  id, while the other claim paths keep leases under `task:<id>` (`src/core/planner/task-resource-key.ts:19-26`):
  `PrefixedLeaseDoesNotProtect`. `OnlyLeasedRowsStayInProgress` says exactly which rows are spared; it
  also shows that nodes of any kind are recycled, not only tasks.
- `src/swarming/ant-runner.ts:83` promises an atomic pull. The answer of the claim is dropped, so a task leased
  by another agent is executed all the same: `LeasedTaskIsExecuted`. The cycle holds its task's lease exactly
  when nobody else had a live one: `CycleOwnsLeaseIffFree`.
- The picker answers with a task even when all tasks wait for dependencies (`PickFitsTheRows`), and the driver
  does not look at the warning, so a waiting task is executed and closed: `BlockedTaskIsExecuted`. A run that works
  off its queue keeps the order of dependencies exactly when no set of tasks is stuck at its start: `OrderKeptIff`.
- The tiers of the file scorer hold only up to six characters (substring over subsequence) and ten
  (exact over the rest): `SubstringTierUpToSix`, `ExactTierUpToTen`.
- `src/schemas/agent-registry.schema.ts:32` speaks of a global spawn limit. `maxSpawns` limits each role
  by itself. A global cap holds exactly when all four roles are limited and their limits add up to no more
  than it: `GlobalCapIff`; for `maxSpawns` alone that means only zero: `MaxSpawnsIsGlobalIff`.
- Regrouping configuration layers fails when a scalar in the middle replaces an object:
  `RegroupingIsExact`, `RegroupingCanFail`.
- The extends validator and the cycle check disagree on redefined built-ins: `ValidButCyclic`.
- A release that names the wrong role breaks the gate's count: `HonestThroughoutIffMatched`,
  `MismatchOverfillsRole`.
- Alias mode of the character budget reserves three characters per alias: `AliasOverrunIsExact`.
- The overview joins agent and task with a bar, so two ants can share a key and one is lost:
  `BarInNameLosesAnAnt`. Each ant has its own entry exactly when no two keys collide (`ViewIsExact`), and a
  collision takes a bar in an agent name and one in a task id (`KeysCollideIff`, `CollisionNeedsTwoBars`).
  Under a collision the last owned row has the entry, or else the first claim: `AgentsOnAreSurvivors`.
- Forking a damaged log yields an empty session instead of an error: `ForkIsEmptyIff`, `BrokenLineLosesTheLog`.
- A cached tool answer survives a change of the table: `StaleCard`. Every cache stays right exactly under the
  calls that `Harmless` describes (`MutationKeepsCachesIff`), and caching is invisible in a run exactly if no
  read finds another answer than when it was first asked (`CachingIsInvisibleIff`).

## Model

| member | source | states |
|---|---|---|
| FuzzyPalette.FuzzyScore | src/tui/dispatch-parsing.ts:55-72 | the scan computes the length of the shortest matching prefix minus the query length, or null |
| FuzzyPalette.ScoreIsMinimalPenalty | src/tui/dispatch-parsing.ts:50-72 | the score exists exactly for subsequences and is the minimum of first index plus gaps over every embedding |
| FuzzyPalette.ZeroScoreIffPrefix | src/tui/dispatch-parsing.ts:50-72 | the best score is given exactly to texts that start with the query |
| FuzzyPalette.LongerQueryScoresNoBetter | src/tui/dispatch-parsing.ts:55-72 | a longer query never lowers a text's score and never brings back a lost text |
| FuzzyPalette.ScoreCommand | src/tui/dispatch-parsing.ts:82-91 | the result is the least score over name and aliases, null exactly when none matches |
| FuzzyPalette.FuzzyFilter | src/tui/dispatch-parsing.ts:78-95 | blank keeps the catalogue; otherwise exactly the matching commands, best score first, ties in catalogue order |
| FuzzyPalette.RankingIsUnique | src/tui/dispatch-parsing.ts:93-94 | there is only one such ranking, so the sort algorithm does not matter |
| FuzzyPalette.LongerQueryNarrows | src/tui/dispatch-parsing.ts:78-95 | extending the query keeps a subset of the palette with scores no lower |
| FuzzySearch.ConsecutiveCharScore | src/schemas/fuzzy-search.schema.ts:59-76 | the loop computes the streak score, 0 when some query character is left |
| FuzzySearch.PositiveIffSubsequence | src/schemas/fuzzy-search.schema.ts:31-57 | a non-empty query scores above 0 exactly on paths it is a subsequence of |
| FuzzySearch.ScoreByTier | src/schemas/fuzzy-search.schema.ts:31-57 | the score of directory and name, case by case: 1000, 900, 700 and share of the name, 500 and share of the path, or the streaks |
| FuzzySearch.BrokenScore | src/schemas/fuzzy-search.schema.ts:46-56 | a match that is no substring scores at most three times that of one break in a single streak |
| FuzzySearch.SubstringTierUpToSix | src/schemas/fuzzy-search.schema.ts:30-57 | substring matches outrank all others for every query of length n exactly when n is at most 6 |
| FuzzySearch.ExactTierUpToTen | src/schemas/fuzzy-search.schema.ts:30-57 | the exact path outranks all others for every query of length n exactly when n is at most 10 |
| PriorityRank.ComputePriorityRank | src/core/planner/next-task.ts:295-344 | the queue algorithm ranks each id by the number of rounds before the one that takes it off |
| PriorityRank.RankFollowsEdges | src/core/planner/next-task.ts:295-344 | an id is ranked behind every id with priority over it, and right behind one of them, so by the longest chain of edges to it |
| PriorityRank.UnrankedIffBehindCycle | src/core/planner/next-task.ts:290-344 | exactly the ids on a cycle of edges or behind one get no rank |
| Picker.RankPicksLeading | src/core/planner/next-task.ts:168-186 | sorting by that rank first picks the same node as sorting only the candidates no candidate has priority over |
| Picker.ByRankIsWeakOrder | src/core/planner/next-task.ts:182-186 | comparing ranks first and the other keys after keeps a comparator that a sort can rely on |
| Picker.FirstLeastIsStable | src/core/planner/next-task.ts:182-222 | of candidates that tie the earliest row is taken |
| Picker.FindNext | src/core/planner/next-task.ts:76-243 | counting edges, ranking and sorting compute the picker function, without options |
| PickerLaws.PickFitsTheRows | src/core/planner/next-task.ts:76-166 | null exactly when no open unmarked task row is there; a row with every dependency done when there is one, else one with the fewest open dependency edges, with the warning |
| PickerLaws.PickIsBest | src/core/planner/next-task.ts:168-222 | no candidate has priority over the pick unless one has over each; of the same standing none is the target of more dependency edges, then none has a smaller priority number, then larger WSJF, smaller size, shorter estimate, more criteria, greater age, or stands earlier |
| PickerLaws.WsjfIsCostOverMinutes | src/core/planner/wsjf-score.ts:53-75 | score times estimate is six less the priority, plus the MoSCoW weight, plus a hundredth per day of age up to two |
| PickerLaws.WsjfFallsBack | src/core/planner/wsjf-score.ts:56-73 | priorities are clamped to one to five, and without a positive estimate the minutes of the size stand in |
| PickerLaws.WsjfIsMonotone | src/core/planner/wsjf-score.ts:53-75 | a higher MoSCoW weight raises the score, more age never lowers it, a longer positive estimate lowers it |
| Colony.SqliteStore.ReclaimOrphanedTasks | src/swarming/run.ts:66-80 | the walk resets exactly the in-progress rows without a lease and counts them |
| Colony.RunAntCycle | src/swarming/ant-runner.ts:75-137 | one cycle changes rows, leases, meter and ledger, asks the tier and treats a throwing model or apply hook as the specification function says |
| Colony.RunColony | src/swarming/run.ts:103-132 | the loop ends in the world of the run function; the report has its counters and the ledger's cost per task; no report if the model throws |
| Colony.SqliteStore.PerTaskCost | src/swarming/run.ts:83-96 | one entry per task the ledger names, each the sum of tokens and price over its rows |
| ColonyTheorems.LateBreakIsNeverTaken | src/swarming/run.ts:120-128 | after the gate the cycle never reports an empty queue or an exhausted budget |
| ColonyTheorems.RunIsLawful | src/swarming/run.ts:113-131 | every row fares by its own trip, trips take distinct open tasks at their own tier, and only findings are added |
| ColonyTheorems.RunAccounts | src/swarming/run.ts:123-131 | closed plus blocked equals rounds, both counted from the replies; aborted exactly on a throwing call |
| ColonyTheorems.RoundsAreBounded | src/swarming/run.ts:113-129 | no more cycles than the cap and than open tasks at the start |
| ColonyTheorems.StatusIsEarned | src/swarming/ant-runner.ts:125-136 | a row ends done, or blocked, exactly if it began so or its own reply was accepted, or rejected |
| ColonyTheorems.OneFindingPerRejection | src/swarming/ant-runner.ts:126-154 | a rejected task has exactly one new finding under it, any other task none |
| ColonyTheorems.SpendIsCapped | src/swarming/ant-runner.ts:76-100 | spend is the sum over replies, each with its tokens or nothing, and passes the ceiling by less than the last reply |
| ColonyTheorems.CostIsAttributed | src/swarming/run.ts:83-96 | a task's tokens and price grow by exactly its own recorded reply |
| ColonyTheorems.TierByColumns | src/core/colony/task-caste.ts:15-49 | the tier of any row by its kind, priority and number of criteria |
| ColonyTheorems.TierIsMonotone | src/core/colony/task-caste.ts:24-45 | a more urgent priority or more criteria never move a row to a cheaper tier |
| ColonyTheorems.CallsAreRouted | src/swarming/ant-runner.ts:87-99 | over a run each call goes to frontier, build or cheap exactly as priority and criteria of its row at the start ask, in their numbers |
| ColonyTheorems.OnlyLeasedRowsStayInProgress | src/swarming/run.ts:61-80 | after housekeeping a row is in progress exactly if it was and a live lease stands under its bare id |
| ColonyTheorems.PrefixedLeaseDoesNotProtect | src/core/planner/task-resource-key.ts:19-26 | a live lease under the canonical task key does not keep its task from being recycled and picked |
| ColonyTheorems.ThrownTaskReturnsToPool | src/swarming/run.ts:116-118 | a task whose call threw stays leased and is eligible again once the lease has run out |
| ColonyTheorems.QueueIsWorkedOff | src/swarming/run.ts:98-131 | a run that stops below cap and ceiling leaves every initially eligible task done or blocked |
| ColonyTheorems.AntsTakeTurns | src/swarming/run.ts:122 | rounds share an agent name exactly a whole turn apart |
| ColonyTheorems.CycleOwnsLeaseIffFree | src/swarming/ant-runner.ts:79-85 | below the ceiling a cycle works on the picked task regardless, and holds its lease, for five minutes, exactly when no other agent had a live one; other live leases stay |
| ColonyTheorems.LeasedTaskIsExecuted | src/swarming/ant-runner.ts:83-85 | a task under another agent's live lease is executed and closed, the lease still in place |
| ColonyTheorems.BlockedTaskIsExecuted | src/swarming/run.ts:120-126 | a task is executed and closed while the task it depends on is blocked, under the picker's warning |
| ColonyLaws.LedgerIsExact | src/swarming/ant-runner.ts:101-123 | a run adds one ledger row per recorded trip, in order, with its task, tier, tokens and price and the agent whose turn it was |
| ColonyLaws.FindingsAreExact | src/swarming/ant-runner.ts:126-154 | a run adds one finding per rejected trip, in order, a backlog risk of priority 2 under the task |
| ColonyLaws.ReclaimedIsExact | src/swarming/run.ts:113-118 | the reported number of recycled rows is that of the rows in progress without a live lease, round by round |
| ColonyLaws.FailedApplyLeavesTaskInProgress | src/swarming/ant-runner.ts:98-136 | an apply hook that throws leaves the task in progress with its reply paid and booked |
| ColonyOrder.UnstuckRunKeepsOrder | src/swarming/run.ts:113-131 | with nothing stuck after the first housekeeping and no reply rejected, each trip comes after its task's dependencies |
| ColonyOrder.DoomedRunBreaksOrder | src/swarming/run.ts:113-131 | tasks that wait for each other or for what can never be done break the order of every run that works off its queue |
| ColonyOrder.OrderKeptIff | src/swarming/run.ts:113-131 | with no open task held elsewhere, a run that works off its queue with accepted replies keeps the order exactly when nothing is stuck |
| Permissions.ResolveTerminatesIffAcyclic | src/schemas/permissions-profile.schema.ts:162-213 | resolution ends exactly when the extends walk does not cycle, within one frame per profile and one more |
| Permissions.ResolveFlattens | src/schemas/permissions-profile.schema.ts:177-213 | entries are the root-to-leaf concatenation materialised once; other fields come from the leaf or the nearest ancestor |
| PermissionTexts.ResolvedEntriesAppear | src/schemas/permissions-profile.schema.ts:177-201 | entry by entry: below the root token the first root and the rest of the path, other paths and objects unchanged, bare patterns of extending profiles with write access |
| PermissionTexts.CompiledEntriesAppear | src/schemas/permissions-profile.schema.ts:220-224 | compiling a profile keeps its kind and gives its entries one by one in the same way |
| PermissionTexts.LineageFollowsExtends | src/schemas/permissions-profile.schema.ts:177-186 | the lineage follows non-empty extends entries of custom profiles and ends at a built-in, unknown or extend-free name |
| PermissionTexts.BuiltInsResolve | src/schemas/permissions-profile.schema.ts:65-96 | what the three built-in names resolve to, whatever the custom profiles say |
| PermissionTexts.UnknownIsReadOnly | src/schemas/permissions-profile.schema.ts:162-213 | an unknown name resolves to the raw read-only profile |
| Permissions.MaterializedTwice | src/schemas/permissions-profile.schema.ts:236-269 | materialising is idempotent, whatever the roots |
| Permissions.CompileKeepsResolvedIffKnown | src/schemas/permissions-profile.schema.ts:220-224 | compiling a resolved profile changes no entry exactly when its name was known |
| Permissions.ThreeFatesOfAWalk | src/schemas/permissions-profile.schema.ts:132-156 | every name is exactly one of valid, dangling, cyclic |
| Permissions.ValidateExtends | src/schemas/permissions-profile.schema.ts:133-156 | true exactly when the walk reaches a built-in or a profile that extends nothing |
| Permissions.ChainExistsIffCycle | src/schemas/permissions-profile.schema.ts:120-130 | from no visited names the check is true exactly when the custom links cycle |
| Permissions.ValidButCyclic | src/schemas/permissions-profile.schema.ts:119-156 | validator and check disagree on a valid name exactly at a built-in redefined with a cycle; never without redefinition |
| Permissions.RedefinedBuiltInFoolsTheCheck | src/schemas/permissions-profile.schema.ts:120-138 | the disagreement occurs |
| Forest.GroupByParent | src/tui/interactive-app.tsx:145-150 | every bucket holds the rows under its parent pointer in input order |
| Forest.BuildTerminates | src/tui/interactive-app.tsx:151-168 | the recursion ends on dangling and cyclic pointers, one frame per row and one more |
| Forest.ForestIsGrown | src/tui/interactive-app.tsx:145-168 | at every level the trees are exactly the rows under their parent, in input order |
| Forest.ForestHoldsRootedRowsOnce | src/tui/interactive-app.tsx:143-169 | the forest holds each row whose parent chain reaches the top exactly once, and no other row |
| Forest.WalkTrees | src/tui/interactive-app.tsx:174-181 | the recursive push computes the flattening |
| Forest.FlatIsVisiblePreorder | src/tui/interactive-app.tsx:170-183 | the flattening is the preorder restricted to rows without a collapsed proper ancestor |
| Forest.ToggleKeepsRow | src/tui/interactive-app.tsx:539-546 | toggling a visible node moves neither it nor anything above it |
| TreeNav.CursorStaysOnRows | src/tui/vim-nav.ts:34-56 | no run of keys and toggles moves the cursor off the visible rows |
| TreeNav.OpenedViewStaysSynced | src/tui/vim-nav.ts:26-56 | opened at any start cursor, the view stays in step with the tree over any run of keys and toggles |
| TreeNav.EveryRowIsReached | src/tui/vim-nav.ts:34-47 | first and k times down is row k, last and k times up is that many before the last |
| TreeNav.CursorStaysPut | src/tui/vim-nav.ts:26-56 | start cursors are clamped, a click keeps the cursor or puts it on the last row, an empty list ignores keys |
| TreeNav.ClickKeepsSelection | src/tui/interactive-app.tsx:184-194 | toggling the selected node keeps cursor and selection |
| TreeNav.TwoClicksRestore | src/tui/interactive-app.tsx:539-546 | a click flips the clicked node and no other; two restore the collapse set |
| Layers.MergeLoop | src/schemas/config-layers.schema.ts:17-38 | the nested loops compute the recursive merge, in any entry order |
| Layers.SingleLayerIsItself | src/schemas/config-layers.schema.ts:13-38 | merging one layer gives it back |
| Layers.PrefixCanBeMergedFirst | src/schemas/config-layers.schema.ts:13-38 | a merged prefix can stand for its layers, always |
| Layers.RegroupingIsExact | src/schemas/config-layers.schema.ts:20-34 | away from objects over arrays or texts, three layers regroup exactly under a condition on single keys |
| Layers.RegroupingCanFail | src/schemas/config-layers.schema.ts:30-31 | a null between two objects with different keys breaks regrouping |
| Layers.LayersRegroup | src/schemas/config-layers.schema.ts:17-44 | layers of one common shape can be split anywhere and merged on both sides |
| Layers.LastWinsAndArraysAdd | src/schemas/config-layers.schema.ts:13-38 | at a scalar path the last layer wins, at an array path all layers are concatenated in order |
| Layers.ObjectOverScalar | src/schemas/config-layers.schema.ts:20-34 | an object over an array or text takes over its items or characters under their positions; over any other scalar it stands alone |
| Rollout.RolloutStore.Append | src/schemas/rollout-store.schema.ts:46-54 | one stamped line is added to the session's file |
| Rollout.RolloutStore.Validate | src/schemas/rollout-store.schema.ts:99-119 | reports the broken lines and is valid exactly when all parse |
| Rollout.BadLinesAreExact | src/schemas/rollout-store.schema.ts:106-115 | the report names every broken line once, in order |
| Rollout.RolloutStore.Resume | src/schemas/rollout-store.schema.ts:121-136 | null exactly when the loaded log is empty |
| Rollout.WriteThenRead | src/schemas/rollout-store.schema.ts:56-86 | a log written as a whole loads as the same entries, an empty one too |
| Rollout.RunRefines | src/schemas/rollout-store.schema.ts:46-89 | any run of appends and forks keeps every file an encoding of its abstract log |
| Rollout.LoadAfterRun | src/schemas/rollout-store.schema.ts:56-68 | after any run from an empty directory loading gives the abstract log |
| Rollout.SanitizedText | src/schemas/rollout-store.schema.ts:145-147 | same length; letters, digits, underscore and dash stay, anything else becomes an underscore |
| Rollout.SameFileIff | src/schemas/rollout-store.schema.ts:42-44 | two ids share a file exactly if they differ only where each has an underscore or a replaced character |
| Rollout.OtherSessionsAreUntouched | src/schemas/rollout-store.schema.ts:42-97 | no run of appends and forks to other plain ids changes what loading a plain id yields |
| Rollout.AppendsReadBack | src/schemas/rollout-store.schema.ts:46-68 | appended entries read back in order, timestamps kept or set to the time of the append, all else unchanged |
| Rollout.ForkKeepsSuffix | src/schemas/rollout-store.schema.ts:70-78 | a fork keeps the last N entries, or all of them |
| Rollout.ForkReadsBack | src/schemas/rollout-store.schema.ts:56-89 | whatever the files hold, a fork reads back as the kept entries of its source, or as empty when the source is broken |
| Rollout.ForkIsEmptyIff | src/schemas/rollout-store.schema.ts:65-86 | a fork is empty exactly when its source is empty or broken |
| Rollout.BrokenLineLosesTheLog | src/schemas/rollout-store.schema.ts:56-68 | one broken line behind a good log makes all of it unreadable, and its fork empty |
| Registry.AgentRoleRegistry.CountReservedForRole | src/schemas/agent-registry.schema.ts:131-145 | the walks count running agents and outstanding tokens of the role |
| Registry.AgentRoleRegistry.SpawnAgent | src/schemas/agent-registry.schema.ts:70-108 | the new registry state and outcome of every branch |
| Registry.OperationsSucceedIff | src/schemas/agent-registry.schema.ts:49-117 | reserve and spawn succeed exactly for a built-in role under its own limit, or under maxSpawns if it has none; redeeming exactly with an outstanding token of the role; failures change nothing |
| RegistryHistory.AgentsHaveHistory | src/schemas/agent-registry.schema.ts:70-117 | in every reachable state each agent has role, parent and launch number of the spawn that made it, and runs exactly if not killed since |
| RegistryHistory.TokensAreOutstanding | src/schemas/agent-registry.schema.ts:49-83 | in every reachable state each token was reserved for its role and not redeemed since |
| RegistryHistory.NamesAreDistinct | src/schemas/agent-registry.schema.ts:93-153 | over every run agents are numbered in the order of their launch and no two have the same instance name |
| Registry.StepMovesSum | src/schemas/agent-registry.schema.ts:49-117 | redeeming a token leaves the sum; other successes move it by one; failures not at all |
| Registry.LimitsHoldOverRuns | src/schemas/agent-registry.schema.ts:55-94 | in every reachable state no role exceeds its limit and tokens and agents are disjoint |
| Registry.TokenSpawnsOnce | src/schemas/agent-registry.schema.ts:76-83 | a redeemed token is refused ever after |
| Registry.TotalBound | src/schemas/agent-registry.schema.ts:49-94 | when every role is limited the total never passes the sum of the four limits |
| Registry.LimitsAreAttained | src/schemas/agent-registry.schema.ts:49-68 | any numbers of reservations per role within the limits are reached by some run, role by role |
| Registry.GlobalCapIff | src/schemas/agent-registry.schema.ts:25-34 | a global cap holds over all runs exactly when the four limits exist and add up to no more than it |
| Registry.MaxSpawnsIsGlobalIff | src/schemas/agent-registry.schema.ts:25-34 | with maxSpawns alone that number is a global cap exactly if it is zero |
| WipGate.MultiAgentWipGate.ReleaseSlot | src/schemas/wip-gate.schema.ts:46-55 | the new gate state and outcome of every branch |
| WipGate.SlotsAreGivenIff | src/schemas/wip-gate.schema.ts:29-55 | after a matched run a slot is given exactly to an idle agent while fewer are active than the role, or the default, allows |
| WipGate.StepHonestIffMatched | src/schemas/wip-gate.schema.ts:29-55 | one operation keeps counters equal to active agents exactly if a release names the acquired role |
| WipGate.MatchedRunsAreHonest | src/schemas/wip-gate.schema.ts:29-59 | over matched runs every counter is the number of active agents in the role |
| WipGate.FirstMismatchBreaksHonesty | src/schemas/wip-gate.schema.ts:46-55 | the first mismatched release of any run breaks that equality |
| WipGate.HonestThroughoutIffMatched | src/schemas/wip-gate.schema.ts:29-59 | counters agree with the active agents all through a run exactly when every release in it is matched |
| WipGate.CountsStayInRange | src/schemas/wip-gate.schema.ts:34-54 | no counter ever leaves the range from zero to its capacity |
| WipGate.MismatchOverfillsRole | src/schemas/wip-gate.schema.ts:46-55 | for any two roles, one mismatched release leads to two active agents under a capacity of one |
| Bridge.Server.DelegateTool | packages/mcp-server/src/tool-delegates.ts:30-92 | table, cache and answer are those of the dispatch function; mutating tools neither read nor write the cache |
| Bridge.StartsDrainTheBacklog | packages/mcp-server/src/tool-delegates.ts:116-126 | consecutive starts hand out every backlog task once, in order of priority and age |
| BridgeLaws.StartsAnswerTheDrain | packages/mcp-server/src/tool-delegates.ts:116-143 | call by call the drained tasks, each with its criteria and number of children, then none left |
| BridgeLaws.NamedStartIsExact | packages/mcp-server/src/tool-delegates.ts:116-143 | an unknown id changes nothing; a known one puts exactly that row in progress and answers with its id, criteria and number of children |
| BridgeLaws.NextStartIsExact | packages/mcp-server/src/tool-delegates.ts:116-143 | without an id the first backlog task by priority and age goes in progress, and no other row; none left exactly without one |
| BridgeLaws.FinishFailsIff | packages/mcp-server/src/tool-delegates.ts:145-182 | an unknown id or a row without criteria, description or a valid status changes nothing and is answered with its checks |
| BridgeLaws.FinishSucceeds | packages/mcp-server/src/tool-delegates.ts:183-207 | a finishable row alone is done, and its parent announced with its number of children exactly when all are |
| BridgeLaws.AddReadsBack | packages/mcp-server/src/store.ts:94-129 | the new row is last, in the backlog, priority 3 by default, and reads back on its card with the columns it was given |
| BridgeLaws.UpdateStatusIsExact | packages/mcp-server/src/store.ts:131-136 | the status is set on the row with that id and on no other |
| BridgeLaws.UpdateNodeIsExact | packages/mcp-server/src/store.ts:138-192 | each given field replaces its column on that row, everything else stays |
| BridgeStore.FindNextTaskIsLeast | packages/mcp-server/src/store.ts:194-207 | null exactly without backlog tasks, else one no other precedes |
| BridgeReads.NextLookIsNextTask | packages/mcp-server/src/tool-delegates.ts:291-312 | the summary's next task is the one a start would take |
| BridgeReads.SortIsOrdered | packages/mcp-server/src/store.ts:70-92 | query results are in order of age, or priority before age, and hold the selected rows once each |
| BridgeViews.ListingIsExact | packages/mcp-server/src/tool-delegates.ts:339-357 | the rows of the parent, kind or status asked for, once each, by age, or by priority and age under a plain status filter |
| BridgeViews.ContextListsAreExact | packages/mcp-server/src/tool-delegates.ts:313-337 | children by age, and the backlog by priority and age |
| BridgeViews.CardsAreExact | packages/mcp-server/src/tool-delegates.ts:225-238 | the columns of the row with that id and its number of criteria, by any of the three ways to ask |
| BridgeViews.StatsAreExact | packages/mcp-server/src/store.ts:209-229 | each kind and each status that occurs, with the number of its rows |
| BridgeViews.BlockersAreExact | packages/mcp-server/src/tool-delegates.ts:240-247 | the depends_on edges in their order, from source to target |
| BridgeViews.StructureIsExact | packages/mcp-server/src/tool-delegates.ts:248-261 | epics by age, each with its children by age, their number, how many are done and the first ten |
| BridgeViews.FullIsAllThree | packages/mcp-server/src/tool-delegates.ts:262-267 | the full analysis and the snapshot are statistics, structure and blockers |
| BridgeViews.SummaryIsExact | packages/mcp-server/src/tool-delegates.ts:291-312 | statistics and the first backlog task by priority and age |
| Bridge.Server.HandleStructure | packages/mcp-server/src/tool-delegates.ts:248-261 | one line per epic in order of age, with its children, done count and first ten |
| Bridge.FinishIsExact | packages/mcp-server/src/tool-delegates.ts:145-207 | either no change or exactly one qualified row done, promotion announced exactly when all children are then done |
| BridgeCache.CardGoesStaleIff | packages/mcp-server/src/tool-delegates.ts:225-238 | a mutating call changes the answer for one node exactly if it adds that id or rewrites that row in something its card prints |
| BridgeCache.ListingGoesStaleIff | packages/mcp-server/src/tool-delegates.ts:339-357 | a mutating call changes a listing exactly if a wanted row is added or a row enters, leaves or shows another line |
| BridgeCache.MutationKeepsCachesIff | packages/mcp-server/src/tool-delegates.ts:28-92 | a mutating call keeps every coherent cache coherent exactly if it finds nothing, fails its checks or writes nothing a reader prints |
| BridgeCache.CachedRunsAgree | packages/mcp-server/src/tool-delegates.ts:44-92 | from a coherent cache that drops its entries on every mutation not harmless, every answer is the uncached one and the cache stays coherent |
| BridgeCache.CachedAnswersAreFirstReads | packages/mcp-server/src/tool-delegates.ts:44-92 | over any run a read is answered as at its first asking since the last drop |
| BridgeCache.OriginIsEarliest | packages/mcp-server/src/tool-delegates.ts:44-48 | that asking is the earliest same read not separated by a drop |
| BridgeCache.CachingIsInvisibleIff | packages/mcp-server/src/tool-delegates.ts:44-92 | cached and uncached runs agree exactly if no read finds another answer than at its first asking |
| BridgeCache.ReadMutateReadIff | packages/mcp-server/src/tool-delegates.ts:28-48 | read, mutate, read again agrees with the uncached run exactly if the mutation left that answer as it was |
| BridgeCache.StaleCard | packages/mcp-server/src/tool-delegates.ts:45-48 | a concrete run in which the cached answer differs from the uncached one |
| SkillBudget.BudgetSkills | src/tui/skill-budget.ts:46-59 | mode choice; in equal mode a budget of zero or more is kept, texts are prefixes of the equal share, truncated exactly when one is cut |
| SkillBudget.EqualMode | src/tui/skill-budget.ts:88-118 | names in full, each text cut at the share, use before and after the clamp |
| SkillBudget.ShareFits | src/tui/skill-budget.ts:89-101 | in equal mode the sum stays within the budget before the clamp |
| SkillBudget.ShareIsLargest | src/tui/skill-budget.ts:89-91 | the share is the largest that all descriptions can have beside the names |
| SkillBudget.EmittedIsLargest | src/tui/skill-budget.ts:61-67 | as many aliases as skills, or the most with three characters each |
| SkillBudget.AliasMode | src/tui/skill-budget.ts:61-86 | as many aliases as three characters each would allow, and their true use |
| SkillBudget.AliasOverrunIsExact | src/tui/skill-budget.ts:54-77 | the budgets that some skills forced into alias mode overrun are exactly 33, 36, 37 and all from 39 |
| SkillBudget.AliasedUse | src/tui/skill-budget.ts:62-77 | alias mode uses at most the budget plus the digits beyond the first of each alias shown; ten aliases or fewer fit |
| ColonyView.BuildColonyView | src/cli/commands/claims-cmd.ts:40-81 | the loops compute the view; a file overlaps exactly if more than one agent lists it |
| ColonyView.LeaseKeyNamesTask | src/core/planner/task-resource-key.ts:19-31 | a lease key names a task exactly if it is the id behind the task prefix |
| ColonyView.ViewIsExact | src/cli/commands/claims-cmd.ts:46-66 | entries belong to owned or claimed pairs; each pair has its own exactly when no two keys collide, and then a lease shows exactly a claim |
| ColonyView.KeysCollideIff | src/cli/commands/claims-cmd.ts:50-55 | two pairs share a key exactly when one agent name carries on with a bar into the other's task |
| ColonyView.CollisionNeedsTwoBars | src/cli/commands/claims-cmd.ts:50-55 | colliding keys take a bar in an agent name and a bar in a task id |
| ColonyView.BarInNameLosesAnAnt | src/cli/commands/claims-cmd.ts:50-56 | two colliding ants leave one entry, and row order decides which files are seen |
| ColonyView.AgentsOnAreSurvivors | src/cli/commands/claims-cmd.ts:46-76 | for any input the agents on a file are those of the last owned row, or else the first claim, under each key whose task declares it |
| ColonyView.OverlapIffTwoAgents | src/cli/commands/claims-cmd.ts:67-78 | a file is reported exactly if two distinct agents survive with it; never without two in flight, and always without colliding keys |
| ColonyView.OverlapsIgnoreOrder | src/cli/commands/claims-cmd.ts:66-80 | without colliding keys, reordering nodes or claims changes no overlap |

## Left out

- FindNextTask: the options that the colony does not pass are not part of this model. Ratios and ages are exact
  reals, timestamps are numbers of milliseconds, and hooks and logging are absent.
- RunColony: hooks that veto a status change are not modelled; the clock, replies and their price, random ids and
  the outcome of the best-effort ledger write are parameters of each round. Finding ids are required to be
  fresh, node ids unique. The lock and ledger tables are taken to exist. The result parser is a parameter.
- OrderKeptIff: when another lease holds an open task in progress, whether a dependency on it is met in time depends on
  the clock; then only `UnstuckRunKeepsOrder` and `DoomedRunBreaksOrder` apply.
- RunAntCycle: a status change that a hook denies is not modelled, nor is the text of the brief, the reply being a
  parameter anyway; nor are session, provider and model names in the ledger. One driver at a time: mutual exclusion
  between drivers is not claimed, because the code does not provide it.
- FuzzyFilter: the library sort is an insertion into an ordered list; `RankingIsUnique` makes the choice irrelevant.
- ScoreFile: ratios are exact reals; floating-point rounding is not modelled. `fuzzySearch` only filters and sorts
  by this score.
- Lower: folds ASCII letters only; other scripts and UTF-16 units are not modelled. Blank means ASCII white space.
- Resolve: a cycle is a call stack that no depth suffices for. Prototype keys of records are not modelled.
- Build: rows need unique ids, as the table's primary key gives; titles and kinds are carried but play no part.
- RegroupingIsExact: objects laid over arrays or texts are merged by position keys in the model as in the code, but
  are outside the regrouping law.
- MergeLoop: keys of an object are unordered, so the order of keys in the result is not stated; the depth bound
  is ghost.
- RunRefines: JSON is a codec that round-trips and prints no raw line break (section 7 of RFC 8259) and no blank
  line; the file system is a map, and I/O errors do not occur. `list` is not modelled.
- SpawnAgent: the record is a value in the map, so a caller's alias of the returned record is not modelled; ids
  come from outside and are required fresh where a run is reasoned about; the clock is left out.
- DelegateTool: answers are the data their texts are made of, so two answers that differ in data but print alike
  count as different. A cache key is the query itself. Assembler and code-intelligence adapters are absent.
- MutationKeepsCachesIff: node ids are taken to be distinct and not empty.
- ListingIsExact: the same, here and in the other laws about views; the table's key and the id factory give both.
- SortIsOrdered: rows that tie in their sort keys come in row order, which the queries leave open.
- BudgetSkills: the factor 0.6 is exact.
- BuildColonyView: the order of the entries and of the agents of an overlap is not modelled.
- Rendering, routes, provider adapters, command wiring, schema declarations and small lookup tables.
