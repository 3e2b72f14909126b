# Glassrail: plans, schedules and their helpers

Glassrail turns a request into a plan, a directed graph of tool, decision, synthesis and nested
subplan nodes, checks the plan and runs it concurrently. This project models the parts whose
correctness is hardest to see from the code and proves their properties for every input and every
interleaving.

## The parts

- `Graphs`, `Sorting`, `Plans`, `TopologicalSort`, `TieBreaking`, `NodeContracts`, `Validator`: the
  checks of a plan's nodes, the sort of a plan by its data and branch edges, the exact meaning of its
  success and its failures, the order in which it lists ties, and the nesting check that relies on it.
- `Semantics`: what running a plan means, as a pass over its sorted ids, and an order-free
  characterisation of the results (each result is justified by the results of its dependencies)
  with a proof that only one complete result map satisfies it.
- `Outcomes`: the same results read off node by node, and which of them is the answer.
- `Execution`: the scheduler as the program has it, a loop over a pending and an in-flight set with a
  cap, proved to compute that pass whatever finishes first.
- `Interleaving`, `Schedules`: the whole tree of nested runs as a step machine around one shared
  semaphore, with safety, progress, termination and agreement over all schedules.
- `JsonFieldStreamer`, `JsonEscapes`: the incremental extraction of a string field, for every way of
  cutting the text into chunks, and its inverse relation to JSON string encoding (section 7 of RFC 8259).
- `FixtureLocks`: the lock protocol of parallel evaluation workers.
- `GraphBuild`, `GraphLayers`, `DagLayers`, `GraphLayout`: edge normalisation, longest-path layers in
  both views, and the routing of long edges through dummies.
- `StateStores`: two-step and atomic status transitions and the race for a gate.
- `EventBus`: the drop-oldest subscription queue.
- `PlanRepair`, `RepairedPlans`: the repair of planner payloads before validation.
- `PassAtK`: the pass@k estimator over exact arithmetic.

A node's execution (a model call, a tool call) is an oracle: a total function of the request, the
plan, the node and the context assembled from its declared inputs. A decision's result and the skips
it causes are one step, because the in-process event bus never suspends.

## Where the code differs from what it promises

- The docstring of the sort promises ties broken by ascending id (`src/glassrail/validator/validator.py:20`);
  the queue is first in, first out. With edges 1 to 4 and 2 to 3 the order is 1, 2, 4, 3
  (`TieBreaking.TiesNeedNotAscend`); exactly when every layer does ascend is
  `TieBreaking.TiesAscendExactlyWhen`, and exactly then the rows of the text view, read one after the
  other, are the sorted order (`DagLayers.ViewFollowsTheSort`).
- A target listed under two branches of one decision is always skipped once that decision takes a
  branch (`Semantics.SharedTargetIsSkipped`).
- The field streamer has no entry for the short escapes of backspace and form feed and emits the bare
  letter (`JsonEscapes.BackspaceIsLost`); the round trip holds exactly for strings that avoid them.
  The two halves of a surrogate pair are emitted as two units.
- Where the marker without a space precedes one with a space, the output or the final state depends on the
  chunking (`JsonFieldStreamer.ChunkingCanMatter`) unless the text decodes alike behind both
  (`JsonFieldStreamer.ChunkingIsImmaterialExactlyWhen`).
- The split status transition writes the state as it was selected. A plan revised and saved between
  select and update is lost (`StateStores.RevisionIsLost`); exactly when that cannot happen is
  `StateStores.SplitIsAtomicExactlyWhen`. Among clients that only claim, resume and finish, nobody
  changes the plan (`StateStores.StepRefinesAtomic`).
- Repeated edges are removed only where they are neighbours in key order, and captions are not part of
  the key, so an edge can be left twice (`GraphBuild.ReturningCaptionIsLeftTwice`).
- The estimator answers 1 for samples of size 0 when all trials passed, where its formula gives 0
  (`PassAtK.FormulaHoldsExactlyWhen`).
- The appended answer node can close a cycle when a payload already refers to the id it is given
  (`RepairedPlans.DanglingIdClosesACycle`), and a `context_needed` that is a nonzero number or `true`
  raises a type error that the repair does not handle (`PlanRepair.NumbersAreNotIterable`).

## Model

| member | source | states |
|---|---|---|
| TopologicalSort.TopoSort | src/glassrail/validator/validator.py:17-66 | Succeeds if and only if ids are distinct, every reference exists and the data-and-branch graph has no cycle; the result is a fixed order of the graph alone (so the iteration order of the edge set cannot matter); a missing reference and a cycle are told apart, and the error names a reference that is missing. |
| TopologicalSort.MissingMeans | src/glassrail/validator/validator.py:27-43 | The reported node is one of the plan, and the reported id is one it lists as context or under a branch and no node has. |
| TopologicalSort.Visit | src/glassrail/validator/validator.py:48-61 | The in-degree loop with its FIFO queue computes exactly the order that the abstract removal process on the graph gives, for any graph, cyclic or not. |
| TopologicalSort.SettleEdges | src/glassrail/validator/validator.py:57-61 | One visited node lowers exactly the counts of its neighbours and frees exactly those whose last unvisited predecessor it was, in ascending order. |
| TopologicalSort.Tally | src/glassrail/validator/validator.py:45-46 | However the edge set is iterated, neighbour lists and in-degrees describe that edge set. |
| TopologicalSort.CollectEdges | src/glassrail/validator/validator.py:27-43 | A node contributes its context edges and, for a decision, its branch edges; it fails exactly when it refers to an id outside the plan. |
| TopologicalSort.TopoSortIsSound | src/glassrail/validator/validator.py:17-66 | For every plan that can be sorted, the order is a permutation of the ids with every edge pointing forward, and it never decreases in longest-path depth. |
| Graphs.KahnOrderIsForward | src/glassrail/validator/validator.py:48-61 | Whatever is output occurs once, belongs to the graph and comes after all of its predecessors. |
| Graphs.KahnOrderIsComplete | src/glassrail/validator/validator.py:63-64 | The order covers every node if and only if the graph is acyclic, so the length test detects cycles exactly. |
| Graphs.KahnOrderIsLayered | src/glassrail/validator/validator.py:48-61 | The FIFO discipline outputs nodes in nondecreasing longest-path depth. |
| TieBreaking.KahnOrderIsInTurn | src/glassrail/validator/validator.py:48-61 | Whatever the graph, of two nodes the order lists first the one whose last predecessor it lists first, and the smaller id if that is the same one or there is none. |
| TieBreaking.TiesAscendExactlyWhen | src/glassrail/validator/validator.py:20-61 | Every layer is listed by ascending id if and only if, of two nodes on one layer, the greater id has the greater (or the same) greatest predecessor on the layer above. |
| TieBreaking.TiesNeedNotAscend | src/glassrail/validator/validator.py:20-61 | With edges 1 to 4 and 2 to 3 the order is 1, 2, 4, 3: one layer is not ascending. |
| Graphs.StuckSetHasCycle | src/glassrail/validator/validator.py:63-64 | A nonempty set whose members all have a predecessor in the set contains a cycle. |
| Graphs.LevelsAreLongestPaths | clients/tui/src/graph.rs:169-191 | The local rule "one more than the deepest parent, 0 without parents" determines the length of the longest walk ending in a node. |
| Plans.EdgesAre | src/glassrail/validator/validator.py:27-43 | An edge joins a context id to the node that needs it, or a decision to a target of one of its branches, and nothing else is an edge. |
| Plans.RefsExistIffClosed | src/glassrail/validator/validator.py:27-43 | All references exist if and only if every edge joins two ids of the plan. |
| NodeContracts.CheckNodeContracts | src/glassrail/validator/validator.py:96-133 | Passes if and only if every node declares exactly what its kind may: tools a tool, decisions a condition, the branches yes and no and a default among them, subplan nodes a plan. |
| NodeContracts.CheckToolNames | src/glassrail/validator/validator.py:135-139 | Passes if and only if every tool node names a registered tool; otherwise the names listed are unregistered ones. |
| NodeContracts.CheckForcedTiers | src/glassrail/validator/validator.py:141-150 | Passes if and only if every forced tier is in range. |
| Validator.NestingDepth | src/glassrail/validator/validator.py:168-182 | The recursion terminates on a sorted plan (ascent in depth is its measure) and returns the starting depth plus the greatest number of decisions linked below. |
| Validator.DeepestBoundsChains | src/glassrail/validator/validator.py:168-182 | No chain of decisions linked through branches is longer than the computed depth. |
| Validator.DeepestIsReached | src/glassrail/validator/validator.py:168-182 | Some chain of decisions linked through branches has exactly the computed depth. |
| Validator.DeepestAtIsExact | src/glassrail/validator/validator.py:155-182 | The depth at a decision is within a limit if and only if every chain of decisions starting there is. |
| Validator.DecisionChainsAre | src/glassrail/validator/validator.py:168-182 | What counts as a chain: decisions with branches, each but the first a target in some branch of the one before. |
| Validator.CheckDecisionNesting | src/glassrail/validator/validator.py:155-166 | The check passes if and only if every chain of branch-linked decisions in the plan is no longer than the limit; otherwise the reported depth exceeds it. |
| Validator.Validate | src/glassrail/validator/validator.py:76-88 | Succeeds if and only if at every level of the plan tree the node and subplan limits hold, every node meets its contract, names a registered tool and has a tier in range, the graph can be sorted, decisions nest within the limit and every subplan node has a plan; on success every level carries its sorted order, the one of the sort, and nothing else has changed. |
| Validator.WellFormedIs | src/glassrail/validator/validator.py:76-207 | Everything that passing means, spelled out for one level and, in the same words, for the plans nested in it. |
| Validator.LimitsAreKept | src/glassrail/validator/validator.py:90-94 | The limit for plans applies at the top and the limit for subplans below. |
| Validator.SubplansAreCounted | src/glassrail/validator/validator.py:193-197 | The number compared with the cap is the number of subplan nodes. |
| Validator.CheckSubplans | src/glassrail/validator/validator.py:184-207 | Passes if and only if there are few enough subplan nodes and each has a plan that validates under the limits for nested plans; the parent graph is unchanged by it. |
| Semantics.SettleIsLocal | src/glassrail/executor/context.py:28-64 | What a node does is a function of the results of its declared dependencies: two result maps that agree on them give the same context, the same skip decision and the same outcome. |
| Semantics.RecordKeepsConsistent | src/glassrail/executor/executor.py:403-492 | Recording any ready node, together with the skips a decision causes, keeps every recorded result justified by its dependencies. |
| Semantics.ConsistentAgree | src/glassrail/executor/executor.py:299-358 | Any two partial runs of one plan agree wherever both have a result. |
| Semantics.SettledIsUnique | src/glassrail/executor/executor.py:299-358 | There is only one complete justified result map: the results do not depend on the order of completion. |
| Semantics.DenoteIsSettled | src/glassrail/executor/executor.py:299-358 | Walking the sorted ids one at a time yields that complete justified result map. |
| Semantics.ExcludedByIs | src/glassrail/executor/executor.py:1218-1228 | A decision excludes an id if and only if it took a branch and lists the id under another one; without a branch taken it excludes nobody, and targets listed only under the taken branch are spared. |
| Semantics.SkippedExactlyWhen | src/glassrail/executor/executor.py:1282-1318 | At the end a node is skipped if and only if an executed decision that took a branch lists it under another one, or some input of it is not a decision and all such inputs are skipped. |
| Semantics.SkipsExcludeNobody | src/glassrail/executor/executor.py:551-566 | A skipped decision excludes no node. |
| Semantics.FilterKeepsCompleted | src/glassrail/executor/executor.py:1255-1267 | The skipped-content filter on final answers rejects no completed node. |
| Semantics.SharedTargetIsSkipped | src/glassrail/executor/executor.py:1224-1228 | A target listed under two branches of a decision that took a branch is always skipped. |
| Outcomes.ContextSays | src/glassrail/executor/context.py:47-58 | A node is shown, for each input in order, its output if it completed, its error if it failed, that it was empty, or that it is not available. |
| Outcomes.ResultsAreOutcomes | src/glassrail/executor/executor.py:494-527 | In a finished run every node that was not skipped holds what it answers to its own context, and a subplan node what its nested run supplies, with that status and confidence. |
| Outcomes.FinalResultIs | src/glassrail/executor/executor.py:1255-1267 | The answering result is that of the completed answer node latest in the sorted ids; if none completed, of the latest completed synthesis; if none, of the latest completed summary; and there is none if and only if none of these completed. |
| Outcomes.FinalOutputIs | src/glassrail/executor/executor.py:1247-1253 | The final output is the text of that result, and absent if and only if there is no such result. |
| Outcomes.SubplanResultIs | src/glassrail/executor/executor.py:1025-1038 | A nested run that supplies an answer makes its node Completed with the text and the confidence of that answer, and one that does not makes it Empty. |
| Execution.Executor.Run | src/glassrail/executor/executor.py:271-367 | For every accepted plan, every cap and every choice of which in-flight nodes finish first, from a fresh state or from the partial results an earlier run has left, the loop terminates, cannot reach its "no ready nodes remain" error, ends with exactly the results of the sequential pass and the output of the latest completed answer, else synthesis, else summary node, has completed and skipped ids partition the plan and extend what was there, and with a cap of one completes nodes in plan order if they were so far. |
| Execution.Executor.Scan | src/glassrail/executor/executor.py:299-341 | One scan keeps the run invariant, never dispatches beyond the cap or before dependencies have results, decreases twice the pending plus the in-flight nodes whenever it acts, and leaves something in flight unless nothing is pending. |
| Execution.Executor.Harvest | src/glassrail/executor/executor.py:354-357 | Recording any nonempty batch of finished nodes, in any order, keeps the run invariant. |
| Execution.Executor.ExecuteAndRecord | src/glassrail/executor/executor.py:403-492 | A node gets its own result, is listed as completed once, and every untaken target without a result is recorded as skipped in the same step. |
| Execution.Executor.SkipUntaken | src/glassrail/executor/executor.py:482-492 | Exactly the excluded ids of the plan that have no result yet are written as skipped; no existing result is overwritten. |
| Execution.Executor.BranchDecision | src/glassrail/executor/executor.py:1218-1245 | The ids collected are exactly those listed under a branch other than the one taken, and none if no branch was taken. |
| Execution.Executor.ExecuteSubplan | src/glassrail/executor/executor.py:974-1038 | A subplan node contributes what its nested plan denotes on the request and the context it passes down, with the status and the confidence this has, including the empty and the missing-plan cases. |
| Execution.ExecutionState.RecordSkipped | src/glassrail/executor/executor.py:551-566 | A skip writes one result and one entry, and keeps completed and skipped disjoint and in agreement with the results. |
| Execution.DependencyMap | src/glassrail/executor/executor.py:1269-1280 | The readiness map of the scheduler is exactly the predecessor relation of the graph that was sorted. |
| Execution.CompletionKeepsInvariant | src/glassrail/executor/executor.py:354-357 | Completing any in-flight node keeps the run invariant: nothing in flight has been excluded and everything in flight can still run. |
| Execution.ReadyInTurn | src/glassrail/executor/executor.py:299-353 | When nothing is in flight, the first unhandled node of the sorted order has all of its dependencies. |
| Interleaving.StepKeepsInvariant | src/glassrail/executor/executor.py:369-401 | Every atomic step anywhere in a tree of nested runs that share one semaphore keeps the invariant of every run in the tree. |
| Interleaving.OnlyAcquireNeedsAPermit | src/glassrail/executor/executor.py:369-401 | Lack of a permit holds up the start of nodes that are not subplans and nothing else. |
| Interleaving.FinishedTaskRan | src/glassrail/executor/executor.py:403-492 | Whenever a task finishes, however long it was in flight, its outcome is the one its node has on the results present at that moment. |
| Interleaving.DoneMeansDenoted | src/glassrail/executor/executor.py:299-367 | A finished run holds exactly the results of the sequential pass. |
| Schedules.HoldersAreCounted | src/glassrail/executor/executor.py:392-401 | The permits counted over a tree of nested runs are as many as the tasks in it that have acquired the semaphore and not finished. |
| Schedules.StepCounts | src/glassrail/executor/executor.py:369-401 | Every step lowers the total work of the tree, and takes a permit only if one is free. |
| Schedules.Progress | src/glassrail/executor/executor.py:369-401 | While a run is unfinished some step is enabled, provided a permit is free or some task of the tree holds one: subplan nodes hold none, so sharing the semaphore cannot deadlock. |
| Schedules.EverySchedule | docs/specs/parallel-execution.md:22-78 | After any schedule of any accepted plan under any cap: at most cap tasks of the whole tree hold a permit, the schedule is no longer than a bound fixed by the plan, an unfinished run can go on, and a finished one has the results and final output of the sequential pass. |
| Schedules.AtMostCapHolders | src/glassrail/executor/executor.py:369-401 | After any schedule every set of tasks holding a permit, at whatever depth, has at most cap members, and a permit is refused only while exactly cap tasks hold one. |
| Schedules.SchedulesAgree | docs/specs/parallel-execution.md:22-78 | Any two complete schedules, even under different caps, end with the same results. |
| Schedules.InterruptedRunsCanResume | src/glassrail/executor/executor.py:267-367 | After any schedule, cut off anywhere, the recorded results are justified by one another, which is all that the scheduler asks of a state to start from. |
| Schedules.NothingHappensTwice | src/glassrail/executor/executor.py:301-341 | No step recurs in a schedule: no node is dispatched, started, skipped or finished twice. |
| Schedules.ResultsAreFinal | src/glassrail/executor/executor.py:403-492 | A result recorded by any run of the tree is never changed while that run is under way, under any schedule. |
| Schedules.StartIsReady | docs/specs/parallel-execution.md:25-27 | In every run of the tree a node starts only when all its data and control dependencies have results, it has none itself and no executed decision lists it under a branch it did not take. |
| Schedules.ExcludedNeverStarts | src/glassrail/executor/executor.py:482-492 | A node that starts anywhere in a schedule, in whichever run of the tree, is listed by no decision executed there before or after under a branch it did not take. |
| JsonFieldStreamer.FeedsDecodeTheRest | src/glassrail/executor/executor.py:172-241 | Whatever the chunks, the outputs together are the decoding of the text from where the marker was found, and the trimmed buffer loses no occurrence of either marker. |
| JsonFieldStreamer.TrimKeepsLocated | src/glassrail/executor/executor.py:210-228 | Searching the trimmed window finds a marker exactly when searching the whole text does, and continues at the same character. |
| JsonFieldStreamer.DecodeConcat | src/glassrail/executor/executor.py:172-241 | Decoding is the same in one piece or in two, even where an escape is split. |
| JsonFieldStreamer.ChunkingIsImmaterialExactlyWhen | src/glassrail/executor/executor.py:172-241 | All chunkings of a text yield the same output and final state if and only if, should an unspaced marker be complete before the first spaced one, the text decodes alike behind both. |
| JsonFieldStreamer.EveryChunkingFeedsTheSame | src/glassrail/executor/executor.py:172-241 | In particular they do where no unspaced marker is complete before a spaced one: outputs, final state and done flag are those of feeding the whole text at once. |
| JsonFieldStreamer.ChunkingCanMatter | src/glassrail/executor/executor.py:210-228 | A text that yields y when fed at once and x when cut behind its first marker. |
| JsonFieldStreamer.Streamer.Feed | src/glassrail/executor/executor.py:172-208 | The stateful feed, with buffer, position and escape fields, computes one step of the specification, and done means the closing quote was seen. |
| JsonFieldStreamer.Streamer.ScanForMarker | src/glassrail/executor/executor.py:210-228 | The scan prefers the spaced marker, moves behind it, and otherwise keeps just the tail that may still hold the start of a marker. |
| JsonFieldStreamer.Streamer.FeedUnicodeDigit | src/glassrail/executor/executor.py:230-241 | A character that arrives while a unicode escape is pending, in whichever chunk, takes the one step that the decoding of the whole text takes there. |
| JsonEscapes.HexDigitIs | src/glassrail/executor/executor.py:230-241 | The decoder gives a character the value d if and only if it is the digit d of base 16 in either case. |
| JsonEscapes.HexValueOfDigits | src/glassrail/executor/executor.py:230-241 | The four base-16 digits of any number below 65536, in any mixture of cases, are read as that number. |
| JsonEscapes.MarkersAre | src/glassrail/executor/executor.py:160-163 | The two markers are the quoted field name, a colon, a space or none, and a quote. |
| JsonEscapes.DecodeInvertsEncode | src/glassrail/executor/executor.py:188-241 | Decoding the JSON form of a string closes at its quote and returns the string if and only if none of its characters was written as a short backspace or form-feed escape or as a surrogate pair. |
| JsonEscapes.BackspaceIsLost | src/glassrail/executor/executor.py:151-158 | The short backspace escape decodes to the letter b. |
| JsonEscapes.OtherEscapesPass | src/glassrail/executor/executor.py:188-208 | An escaped letter without a meaning of its own stands for itself. |
| JsonEscapes.BadDigitsPass | src/glassrail/executor/executor.py:230-241 | Four characters that are no number are passed through as they were written. |
| JsonEscapes.StreamReturnsTheString | src/glassrail/executor/executor.py:172-241 | Where the encoded value follows the marker that is found in the text, spaced or unspaced, and no unspaced marker is complete before a spaced one, every chunking returns exactly the value and sets done, whatever follows it. |
| FixtureLocks.TaskManagedPaths | eval-framework/run.py:153-166 | The lock list is strictly ascending, hence free of duplicates, and holds exactly the resolved fixture paths. |
| FixtureLocks.LockRegistry.GetLock | eval-framework/run.py:146-150 | Equal resolved paths get one lock and distinct ones distinct locks; known locks never change. |
| FixtureLocks.StepKeepsPool | eval-framework/run.py:188-204 | Acquiring, running and releasing one lock at a time keeps ownership exact. |
| FixtureLocks.ActiveAreCounted | eval-framework/run.py:342-361 | The count that the pool compares with the number of workers is the number of tasks begun and not finished. |
| FixtureLocks.SharedPathsExclude | eval-framework/run.py:181-187 | Two tasks that share a resolved path never run together. |
| FixtureLocks.NoDeadlock | eval-framework/run.py:153-166 | With any number of workers and sorted lock lists, some step is possible in every reachable unfinished state. |
| FixtureLocks.EverySchedule | eval-framework/run.py:342-361 | After every schedule at most as many tasks are begun and unfinished as there are workers; every schedule is bounded, can be continued until all tasks are finished, and finishes them. |
| FixtureLocks.UnsortedCanDeadlock | eval-framework/run.py:156-157 | Without the sort two tasks can block each other for ever. |
| GraphLayers.LayerTable.LayerOf | clients/tui/src/graph.rs:171-191 | On an acyclic graph the memoised recursion returns the level of a node, every stored depth is right, and the cycle guard never fires. |
| GraphLayers.ParentsFromEdges | clients/tui/src/graph.rs:161-167 | The parent lists describe exactly the edges. |
| GraphLayers.BuildLayers | clients/tui/src/graph.rs:100-126 | Every node of an acyclic graph is given the length of the longest path that ends in it. |
| GraphLayers.SortFollowsLayers | clients/tui/src/graph.rs:169-191 | Longest-path layers are levels, and they never decrease along the order in which the validator sorts the same graph. |
| DagLayers.Parents | src/glassrail/gateways/tui/dag.py:406-415 | The parent sets describe exactly the context and branch edges between known ids. |
| DagLayers.Layers | src/glassrail/gateways/tui/dag.py:397-437 | Any payload gets every id in exactly one ascending row; on an acyclic one row l holds exactly the ids whose longest path has l edges. |
| DagLayers.FillRows | src/glassrail/gateways/tui/dag.py:433-436 | Every id is in the row of its depth, rows ascend, and the last row of several is not empty. |
| DagLayers.ViewHasEdges | src/glassrail/gateways/tui/dag.py:406-415 | For a plan whose references exist and whose branches belong to decisions, the view draws exactly the edges by which the validator sorts. |
| DagLayers.ViewFollowsTheSort | src/glassrail/gateways/tui/dag.py:397-437 | For every validated plan and the rows the view computes for it, layers never decrease along the sorted ids, and the rows, read one after the other, are the sorted ids if and only if greater ids have no lesser greatest predecessor on the layer above. |
| GraphBuild.DrawnIs | clients/tui/src/graph.rs:66-74 | Only the wire kind control makes a control edge, and only labels of white space are dropped. |
| GraphBuild.NormalizedIsSortedAndThinned | clients/tui/src/graph.rs:128-159 | Normalised edges are ordered by source, target and data before control, no two neighbours are equal, and they are exactly the wanted edges: none is lost and none invented. |
| GraphBuild.NoDuplicatesAreLeftExactlyWhen | clients/tui/src/graph.rs:128-159 | No edge is left twice if and only if, among the wanted edges of one kind between the same nodes, no caption returns after another; only neighbours are compared. |
| GraphBuild.DependencyEdgesAreLeftOnce | clients/tui/src/graph.rs:128-159 | Edges taken from dependencies never occur twice. |
| GraphBuild.ReturningCaptionIsLeftTwice | clients/tui/src/graph.rs:155-157 | Captions a, b, a between the same nodes leave the edge captioned a twice. |
| GraphBuild.NormalizedPairs | clients/tui/src/graph.rs:128-159 | The drawn pairs are the explicit edges if there are any, else the dependencies, restricted to known nodes; so every drawn edge joins two nodes of the plan. |
| GraphBuild.Build | clients/tui/src/graph.rs:100-126 | Any wire plan, with unknown ids and repeated edges, can be built; nodes keep their order, and on an acyclic plan each gets its longest-path depth. |
| GraphBuild.BuiltGraphsCanBeLaidOut | clients/tui/src/graph.rs:200-224 | What is built from an acyclic plan with distinct positive ids meets the demands of the layout, so no edge is silently left undrawn. |
| GraphLayout.SplitEdge | clients/tui/src/graph.rs:200-279 | An edge becomes a chain through new dummies; each row it skips gets exactly one of them at its end, and nothing placed before moves. |
| GraphLayout.ChainRoutes | clients/tui/src/graph.rs:200-279 | The chain leads from source to target and each segment joins adjacent layers. |
| GraphLayout.NodesOnAre | clients/tui/src/graph.rs:200-205 | Nodes of one layer stand in its row in the order of the plan. |
| GraphLayout.ItemsAreApart | src/glassrail/gateways/tui/dag.py:178-186 | Two items of a row never overlap and keep the column gap. |
| GraphLayout.PlaceItems | src/glassrail/gateways/tui/dag.py:178-194 | Every row is as the left-to-right placement says, shifted to the middle, and the width is that of the widest row. |
| GraphLayout.OffsetCentres | clients/tui/src/graph.rs:257-268 | A row has as much room to its left as to its right, up to one column. |
| GraphLayout.RowWidthIs | clients/tui/src/graph.rs:243-255 | A row is 24 columns wide for each node, 1 for each dummy and 4 between neighbours. |
| GraphLayout.CentresAndHeights | clients/tui/src/graph.rs:243-270 | A box has its centre 12 columns from its left edge and a dummy where it stands; rows take 4 lines with 2 between them. |
| GraphLayout.RowsFit | src/glassrail/gateways/tui/dag.py:188-194 | Rows placed so lie inside the width with their items apart. |
| GraphLayout.LayOut | clients/tui/src/graph.rs:200-279 | Every edge that climbs, on an acyclic graph all of them, is routed by a chain of adjacent-layer segments and the others by none, each row holds its nodes in plan order and then one dummy for each edge that skips it, every item stands in the row of its layer and in no other, rows are centred in the width of the widest, items of a row are disjoint and inside that width, and real nodes keep their layers. |
| GraphLayout.LayersClimb | clients/tui/src/graph.rs:200-279 | Longest-path layers put the target of every edge strictly below its source. |
| StateStores.InMemoryStateStore.TransitionTaskStatus | src/glassrail/state/memory.py:32-46 | The transition happens if and only if the task exists in one of the given states; then only its status changes and the new state is returned, otherwise nothing changes. |
| StateStores.SqliteStateStore.SelectForTransition | src/glassrail/state/sqlite.py:94-115 | The select prepares what the atomic transition would have written at that moment, and nothing where it would refuse. |
| StateStores.SqliteStateStore.UpdateIfStatus | src/glassrail/state/sqlite.py:115-131 | The guarded update writes the prepared state if and only if the stored status still allows it, and keeps the status column equal to the stored status. |
| StateStores.SqliteStateStore.SaveTask | src/glassrail/state/sqlite.py:78-84 | Saving replaces one task and keeps the status column in agreement. |
| StateStores.SplitIsAtomicExactlyWhen | src/glassrail/state/sqlite.py:94-131 | With any saves between select and update, the split transition leaves and returns what the atomic one would at the update if and only if the atomic one refuses there, or the select found a state to leave and the last save kept all but the status. |
| StateStores.RevisionIsLost | src/glassrail/executor/orchestrator.py:199-250 | A resume selects plan A, a revision saves plan B for confirmation, and the update passes: A is stored and executed where the atomic transition executes B. |
| StateStores.StepRefinesAtomic | src/glassrail/state/sqlite.py:94-131 | In a race for one gate every winning update is the atomic transition at that moment and every refusal is one the atomic store would give. |
| StateStores.StatusesAre | src/glassrail/executor/orchestrator.py:156-164 | The states a claim and a resume may leave, and the states an execution may end in. |
| StateStores.StepKeepsClaims | src/glassrail/executor/orchestrator.py:151-197 | Each access by any client keeps the claim invariant. |
| StateStores.AtMostOneExecution | src/glassrail/gateways/rest/app.py:230-253 | Under any interleaving of any number of REST claims, direct resumes and completion saves at most one execution starts, it starts from the state stored at the gate, and the status column equals the stored status. |
| StateStores.LoneClientStarts | src/glassrail/gateways/rest/app.py:230-253 | A single client does get to execute. |
| EventBus.EveryHistoryIsAccounted | src/glassrail/events/bus.py:66-113 | After any mix of publishes and reads the matching events are as many as the read, queued and dropped ones together, the queue is their newest part within its bound, and the consumer has read a subsequence in order. |
| EventBus.OneMorePublish | src/glassrail/events/bus.py:74-83 | After any history, one more event of another task changes nothing; a wanted one is appended, a queue below its bound loses nothing, and a full one loses exactly its first event, which is counted. |
| EventBus.OneMoreRead | src/glassrail/events/bus.py:66-67 | After any history a read takes the head of the queue, if there is one, and changes nothing else. |
| EventBus.LatestSurvives | src/glassrail/events/bus.py:74-83 | The latest matching event is always at the end of the queue or was read last. |
| EventBus.UnboundedDropsNothing | src/glassrail/events/bus.py:74-83 | Without a bound, or while no more than the bound were published, nothing is dropped and every event is read or queued in order. |
| EventBus.Subscription.DeliverEvent | src/glassrail/events/bus.py:74-83 | An event of another task changes nothing; otherwise it is appended, a full queue gives up exactly its first event, and the counter grows by one exactly then. |
| EventBus.Subscription.Receive | src/glassrail/events/bus.py:66-67 | Reading takes the first queued event and leaves the others and the counter. |
| EventBus.Bus.PublishEvent | src/glassrail/events/bus.py:106-113 | Each registered subscription is delivered the event exactly once. |
| PlanRepair.RepairPlanDescriptions | src/glassrail/planner/planner.py:469-488 | The nested loops over nodes and subplans compute the described payload. |
| PlanRepair.FallbackHasText | src/glassrail/planner/planner.py:491-516 | The fallback description is never blank. |
| PlanRepair.SpacesAre | src/glassrail/planner/planner.py:482-483 | Which characters count as white space when a description is stripped. |
| PlanRepair.StripIs | src/glassrail/planner/planner.py:482-483 | Stripping removes white space at both ends and nothing else. |
| PlanRepair.FallbackSays | src/glassrail/planner/planner.py:491-516 | The fallback text for each type of node. |
| PlanRepair.DigitsAreDecimal | src/glassrail/planner/planner.py:494 | Ids are written in base 10 without leading zeros. |
| PlanRepair.NextIdIs | src/glassrail/planner/planner.py:541-546 | The new id is one more than the greatest integer id, and 1 where there is none. |
| PlanRepair.SingleTerminalSynthesis | src/glassrail/planner/planner.py:557-579 | Finds the lone synthesis node that no context list or branch refers to, or raises exactly when a context list is a number or a boolean that is not falsy. |
| PlanRepair.NumbersAreNotIterable | src/glassrail/planner/planner.py:559-562 | A number or boolean for a context list makes the repair fail if and only if it is not zero or false. |
| PlanRepair.EnsureTerminalResult | src/glassrail/planner/planner.py:519-554 | Finishes nested plans first, then its own level, and raises exactly when some searched level cannot be read. |
| PlanRepair.RepairPlanPayload | src/glassrail/planner/planner.py:448-451 | Describing and then finishing computes the repaired payload, with the same error condition as the payload itself. |
| RepairedPlans.RepairDescribesEveryNode | src/glassrail/planner/planner.py:469-488 | Afterwards every node on every level has a description that is not blank. |
| RepairedPlans.RepairIsConservative | src/glassrail/planner/planner.py:448-451 | On every level nodes stay in place with every field but a missing description and the inside of a subplan unchanged, and only the answer node may follow them. |
| RepairedPlans.EndingIsAnswer | src/glassrail/planner/planner.py:541-554 | At most one node is appended to a level, it is a described answer node that needs just the sink, and its id is new there. |
| RepairedPlans.SinksAre | src/glassrail/planner/planner.py:557-576 | A sink is a synthesis node with an integer id that stands in no context list and under no branch of its level. |
| RepairedPlans.LoneSinkIsUnique | src/glassrail/planner/planner.py:570-579 | A sink is chosen if and only if exactly one position of the level holds one. |
| RepairedPlans.RepairIsIdempotent | src/glassrail/planner/planner.py:448-451 | Repairing twice is repairing once, and a payload that could be repaired can be repaired again. |
| RepairedPlans.EndingKeepsAcyclicExactlyWhen | src/glassrail/planner/planner.py:541-554 | The appended node keeps a level acyclic if and only if it was acyclic and its edges do not lead from the new id back to the sink. |
| RepairedPlans.RepairKeepsAcyclicExactlyWhen | src/glassrail/planner/planner.py:448-451 | The same on all levels of a nested payload at once. |
| RepairedPlans.UnusedIdHasNoWayBack | src/glassrail/planner/planner.py:541-554 | If no node of the level refers to the new id there is no way back, so the level stays acyclic. |
| RepairedPlans.DanglingIdClosesACycle | src/glassrail/planner/planner.py:541-554 | A payload on which the appended node closes a cycle. |
| PassAtK.Compute | eval-framework/evalkit/stats.py:20-38 | The guards and the product, with both logarithm arguments positive throughout, compute the closed form for all integers. |
| PassAtK.FormulaHoldsExactlyWhen | eval-framework/evalkit/stats.py:20-38 | For 0 <= c, k <= n the result is 1 - C(n-c, k) / C(n, k) unless k is 0 and all of at least one trials passed, and only then it is not. |
| PassAtK.GuardsSay | eval-framework/evalkit/stats.py:26-36 | What each guard answers, for all integers. |
| PassAtK.EstimateIsTheChanceOfAPass | eval-framework/evalkit/stats.py:20-25 | For 1 <= k <= n the result is the number of k-samples that contain a passing trial over the number of all k-samples. |
| PassAtK.EstimateIsAProbability | eval-framework/evalkit/stats.py:20-38 | The result lies in [0, 1], is 0 exactly when nothing passed and 1 exactly when every k-sample must contain a pass, which are the guards. |
| PassAtK.GrowsWithPasses | eval-framework/evalkit/stats.py:20-38 | The estimate is monotone in the number of passes. |
| PassAtK.GrowsWithSampleSize | eval-framework/evalkit/stats.py:20-38 | The estimate is monotone in the sample size. |
| PassAtK.CountSamples | eval-framework/evalkit/stats.py:20-25 | Pascal binomials count the k-element subsets of a set. |

## Left out

- TopologicalSort.TopoSort: the exception texts; the model keeps the kind of error and the ids in it.
- Validator.Validate: the plan is a value that is returned with its order instead of being written in place.
- Validator.CheckDecisionNesting: which decision is named when several are too deep; the reported depth is only known to exceed the limit.
- Semantics.SettleIsLocal: the prompt text, the truncation of long inputs and the list of consumers, which depend on the plan alone; a node's context is the sequence of its inputs' notices and outputs.
- Execution.Executor.Run: partial results that no run has left; tiers, token counts, flags, timestamps, the branch log, events and telemetry; exceptions out of a node, since the oracle is total.
- Execution.Executor.ExecuteSubplan: the failed result for an exception inside the nested run, which cannot arise from a total oracle on an accepted plan.
- Interleaving.StepKeepsInvariant: the moment between a task's end and its removal from the in-flight table is one step; the order in which waiting tasks get a permit is left open, which allows more schedules than a first-in-first-out semaphore.
- JsonFieldStreamer.Streamer.FeedUnicodeDigit: the digit strings beyond plain hexadecimal that Python's integer parser also accepts are a parameter.
- FixtureLocks.TaskManagedPaths: path resolution is a parameter; a run with one worker takes no locks, and the backup and restore of fixtures is not modelled.
- GraphBuild.Build: node captions and statuses; what counts as white space in a label is a parameter.
- DagLayers.Layers: the parsing of the payload into nodes; the recursion is the one of `GraphLayers`, as both programs have the same; the placement in `dag.py` is the one of `GraphLayout` only on an acyclic payload, as `dag.py` does not pass over an edge that does not climb but draws one segment for it.
- GraphLayout.LayOut: requires distinct positive ids, as dummies are negative, as a repeated id would share one place and an id below zero could be taken for a dummy, and edges with unknown ends, which building has removed; saturating and machine-width arithmetic is not modelled.
- StateStores.AtMostOneExecution: one gate at a time; a revision does not take part in the race (what it can do to a transition is `StateStores.RevisionIsLost`), deletion and listing of tasks are not modelled, and an execution ends in one of the terminal states.
- EventBus.Subscription.Receive: an empty queue makes the consumer wait; the model has no step for it.
- EventBus.Bus.PublishEvent: the throttled warning about dropped events.
- PlanRepair.RepairPlanDescriptions: the payload is a value that is rebuilt instead of updated in place; floating-point numbers in it are reals, without NaN.
- PassAtK.Compute: rounding; a sum of logarithms is read as the product of its arguments.
- Retry, streaming and prompt logic of the model-calling nodes, and all providers, gateways and drawing code.
- The other statistics (`pass_pow_k`, Wilson intervals) and the prose heuristics of the planner.
