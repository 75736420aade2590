# Verified kernels of Batiste

A Dafny model of the algorithms that carry the repository's promises: the concurrent
operation executor, the line differ, the structural chunker, the import-graph walker,
the two breadth-first searches of the knowledge graph, the rate limiter, the bundle
container, LIKE escaping, bottom-up fixing and stream splitting. Each algorithm is
written in the form the program gives it (classes with fields that methods update,
loops over sequences and tables) and is proved against a specification function or
a declarative property; the theorems are then about those specifications.

| file | what it holds |
|---|---|
| `Common`, `Sorting`, `Lines`, `Subsequences` | sequences without repetition, stable sorting, splitting and joining text, longest common subsequences |
| `Plan`, `CycleReport` | the dependency graph, `add`, Kahn's sort, the edge reported on failure and when it lies on a cycle |
| `Semantics` | what a plan means: operations evaluated one by one, uniqueness of that meaning |
| `Scheduler` | the executor as a state machine: dispatch, settle, cascade, drain, loop, await |
| `SchedulerInvariant` | the invariant of the state machine and its preservation by every step |
| `SchedulerTheorems` | theorems over all runs: completion, caps, the lineage log, schedule independence |
| `Limits`, `Executor` | cap resolution, and `Executor.run` with its shared variables and closures |
| `DiffTracker` | the table, the backtrace and the walk that emits an edit script |
| `RecursiveScout`, `ImportPath` | cycle detection by depth-first search, shortest import path |
| `CastChunker`, `ChunkTheorems`, `ChunkCeiling`, `ChunkLaws`, `ChunkSource` | the interval packer, when it is exact, what its line ceiling is worth, what its chunks are, and its imperative form |
| `Neighborhood`, `Retrieval` | `neighbors` and `retrieveWeighted`, and their agreement |
| `RateLimiter`, `Bundle`, `Like`, `FixGenerator`, `LineReader` | the smaller kernels |

`dafny verify dfyconfig.toml` checks the whole project.

## Reading the executor model

A run is a sequence of states. A step is either one synchronous stretch of the
scheduler loop (drain the ready queue, then loop, wait or finish) or the settling of
one running operation, with its cascade inside. Any running operation may settle
at any step, and a woken loop may resume late, so every interleaving is a run. An
operation's body is an arbitrary function from the results of its dependencies to a
value or an error; it may also throw before its first await, in which case it settles
within its own dispatch. `Scheduler` states the steps as functions, the class
`Executors.Run` is the program's own code, and each of its methods is proved equal
to its step.

## Where the code and its documentation differ

* **The edge named by a failed sort** need not lie on a cycle, although the comment
  above `toposort` speaks of the offending back-edge (`packages/parallel/src/plan.ts:76`).
  It always leads out of a place below a cycle or below a missing dependency. For every
  insertion order and every order of the dependency lists it lies on a cycle iff each
  dependency edge below a cycle or a missing dependency lies on a cycle itself
  (`CycleReports.EdgeOnCycleExact`). `add` cannot build a cycle; the repository's own
  test makes one by replacing an operation in the map
  (`packages/parallel/src/__tests__/plan.test.ts:22-52`). After one such replacement the
  edge does lie on a cycle, unless it names a missing dependency
  (`CycleReports.OneReplacedOperation`); after two it may not
  (`CycleReports.SortBelowACycle`).
* **"Every line lands in exactly one chunk"** (`packages/code/src/indexer/cast-chunker.ts:15`)
  holds on all texts of a given length, under any given budget and ceiling, exactly when
  the symbol ranges are pairwise line-disjoint or strictly nested
  (`ChunkTheorems.ExactlyOnceIffLaminar`). In every case each line is in at least one chunk.
* **The "hard ceiling on lines per chunk"** (`packages/code/src/indexer/cast-chunker.ts:46`)
  is not enforced on merged chunks. Given the symbols, it is kept on all texts of n lines
  under all budgets exactly when it is kept on n blank lines (`ChunkCeiling.LineCeilingExact`);
  over all symbols, exactly when the whole text is under it (`ChunkCeiling.CeilingForAllSymbols`).
* **The kind `gap`** is described as module-level code outside any symbol
  (`packages/code/src/indexer/cast-chunker.ts:33`). Code between the methods of a class
  that is decomposed is a `gap` too (`ChunkLaws.PackGapsBeside`), and module-level code
  that fits the budget is merged into a `symbol` chunk.
* **Cycle detection** is exact when `maxDepth` is at least the number of files, and no
  smaller depth is enough for all projects of that size
  (`Scouts.DepthBoundIsTight`). The reports it makes are real cycles at every depth. It does
  not report every cycle, but at least one closing edge of each (`Scouts.ReportsCatchAll`).
* **`neighbors` with a limit below one** still returns one node, because the limit is
  tested after the push (`Neighborhoods.NeighborsExact`).
* **A hop decay above one** becomes one, although the comment says that an out-of-range
  decay becomes the default (`packages/graph/src/retrieval.ts:227`, `Retrieval.ClampDecay`).

## Model

| member | source | states |
|---|---|---|
| Plans.Plan.Add | packages/parallel/src/plan.ts:33-66 | succeeds iff every dependency was issued before, and then adds exactly this operation; otherwise names the first unknown dependency and changes nothing; insertion order stays a valid execution order, so plans built by `add` alone never have cycles |
| Plans.CountDeps | packages/parallel/src/plan.ts:79-89 | counters hold the number of dependency occurrences and the reverse adjacency lists each dependent once per occurrence |
| Plans.ReleaseSpec | packages/parallel/src/plan.ts:100-104 | releasing the dependents of a finished operation lowers each counter by its number of occurrences and queues exactly those that reach zero and are not barred, each once |
| Plans.ReleaseAll | packages/parallel/src/plan.ts:100-104 | the loop computes that release |
| Plans.KahnStep | packages/parallel/src/plan.ts:97-105 | one pop keeps the state of the sort: counters equal the occurrences not yet ordered, and the queue holds exactly the unordered operations with none |
| Plans.LeftOverIsStuck | packages/parallel/src/plan.ts:96-107 | when the queue runs dry the order holds exactly the operations that any dependency-respecting order can hold, and a left-over means a cycle or a dangling dependency |
| Plans.FindCycle | packages/parallel/src/plan.ts:107-124 | a set in which every operation depends on a member of the set contains a cycle |
| Plans.TopoMeansAcyclic | packages/parallel/src/plan.ts:127 | a plan that has an execution order has no cycle and no dangling dependency |
| Plans.BlockedEdge | packages/parallel/src/plan.ts:107-124 | the payload names the first inserted operation outside the order and its first dependency outside the order |
| Plans.Plan.Toposort | packages/parallel/src/plan.ts:78-128 | returns a permutation with every dependency first iff the graph is acyclic and closed; otherwise the edge is a real dependency edge between the first two unschedulable operations; never fails when insertion order is valid |
| CycleReports.UnschedulableIffBelow | packages/parallel/src/plan.ts:96-107 | an operation is left out of the order iff it lies on a cycle or below one, or below a dependency missing from the plan |
| CycleReports.CycleLeadsToEdge | packages/parallel/src/plan.ts:107-124 | in a plan without missing dependencies a cycle leads to the operation from which the reported edge starts, and the edge is real |
| CycleReports.ReportOnCycleIff | packages/parallel/src/plan.ts:107-124 | for fixed dependency lists the reported edge lies on a cycle, whatever the insertion order, iff every unschedulable operation leads back to its own first unschedulable dependency |
| CycleReports.EdgeOnCycleExact | packages/parallel/src/plan.ts:76 | for all insertion orders and all orders of the dependency lists the reported edge lies on a cycle iff every dependency edge below a cycle or a missing dependency does |
| CycleReports.OneReplacedOperation | packages/parallel/src/__tests__/plan.test.ts:22-52 | after one operation of a plan built by `add` is replaced, a failed sort names that operation, and the edge lies on a cycle iff the dependency it names is in the plan |
| CycleReports.EdgeOffCycle | packages/parallel/src/plan.ts:110-124 | a cyclic plan without missing dependencies whose reported edge lies on no cycle |
| CycleReports.SortBelowACycle | packages/parallel/src/plan.ts:110-124 | the sort of a plan that holds this graph returns that edge |
| Semantics.SequentialIsSemantics | packages/parallel/src/executor.ts:106-142 | evaluating one by one in any execution order gives each operation the status its dependencies determine |
| Semantics.SemanticsUnique | packages/parallel/src/executor.ts:106-142 | a plan has only one such assignment of statuses, whatever order is used |
| SchedulerInvariant.StartInv | packages/parallel/src/executor.ts:121-127 | starting an operation that the caps allow keeps the invariant |
| SchedulerInvariant.OkShape | packages/parallel/src/executor.ts:129-138 | after a success the counters again equal the missing dependency occurrences and the ready queue again holds exactly the idle operations with none missing |
| SchedulerInvariant.CascadeInv | packages/parallel/src/executor.ts:93-104 | the whole cascade, from any stack of dependents of a failure, ends with `failed` closed under dependents and the log, counters and statuses still right |
| SchedulerInvariant.SettleInv | packages/parallel/src/executor.ts:128-158 | settling a running operation, with success or error, keeps the invariant |
| SchedulerTheorems.DrainInv | packages/parallel/src/executor.ts:163-185 | draining keeps the invariant, makes progress if it dispatched, and otherwise leaves every ready operation blocked by the caps |
| SchedulerTheorems.NoGuardFires | packages/parallel/src/executor.ts:110-119 | in every reachable state no ready operation is failed or has a failed dependency, so the guards at lines 110 and 167 are never taken |
| SchedulerTheorems.SomethingToDo | packages/parallel/src/executor.ts:187-194 | while an operation has not ended, one is ready or running, so the bail-out is never taken |
| SchedulerTheorems.BlockedMeansBusy | packages/parallel/src/executor.ts:187-195 | when every ready operation is blocked, one is in flight to wake the loop |
| SchedulerTheorems.TickInv | packages/parallel/src/executor.ts:162-197 | an iteration of the loop keeps the invariant and lowers the rank of the state |
| SchedulerTheorems.RunInv | packages/parallel/src/executor.ts:92-204 | the invariant holds in every state of every run, and the rank falls with each step |
| SchedulerTheorems.RunsComplete | packages/parallel/src/executor.ts:162-203 | a run of n operations has at most 4n + 2 states; an unfinished one can always go on; a finished one has every operation ended and nothing running |
| SchedulerTheorems.CapsRespected | packages/parallel/src/executor.ts:85-90 | in every state of every run the counters equal the numbers of running operations, overall and for every tag, capped or not, and stay within the caps; a waiting loop has something in flight and only ready operations that face a full cap |
| SchedulerTheorems.LogCapped | packages/parallel/src/executor.ts:121-125 | at no point of the log of a run are more operations started and not ended than the global cap, nor more of one tag than its cap; at each state of the run those are the running ones |
| SchedulerTheorems.LineageExact | packages/parallel/src/lineage.ts:19-72 | in every state of every run each ended operation has one end entry, each that ran one start entry; starts follow the successes of all dependencies, ends follow their starts, and a skip names a transitive dependency that ran and failed earlier |
| SchedulerTheorems.FailureClosed | packages/parallel/src/executor.ts:49-57 | in every state of every run `failed` is closed under dependents, the pending counters count the dependency occurrences without a result, and whatever started has all its dependencies' results |
| SchedulerTheorems.FinishedFaithful | packages/parallel/src/executor.ts:199-203 | a state with nothing pending holds exactly the results and log of the sequential meaning |
| SchedulerTheorems.ScheduleIndependence | packages/parallel/src/executor.ts:106-197 | every finished run, whatever its interleaving and caps, returns what evaluating the operations one by one returns: same results, same status of each operation, one end entry each |
| SchedulerTheorems.RunsAgree | packages/parallel/src/executor.ts:38-204 | two finished runs of one plan under different caps, orders and interleavings have the same results, failures, and numbers of entries |
| Executors.Run.CascadeSkip | packages/parallel/src/executor.ts:93-104 | the stack loop performs exactly the cascade of the state machine |
| Executors.Run.StartOp | packages/parallel/src/executor.ts:106-128 | the synchronous part of `runOp`, including its guard for failed dependencies, is the start step |
| Executors.Run.Resolved | packages/parallel/src/executor.ts:129-138 | the success branch and the finally clause are the settle step of a success |
| Executors.Run.Rejected | packages/parallel/src/executor.ts:139-158 | the catch branch and the finally clause are the settle step of a failure, the cascade coming before the slot is freed |
| Executors.Run.Continue | packages/parallel/src/executor.ts:126-158 | what follows the await is the settle step |
| Executors.Run.DispatchAt | packages/parallel/src/executor.ts:176-178 | removing a ready operation and calling `runOp` is the dispatch step, a synchronous throw included |
| Executors.Run.DrainReady | packages/parallel/src/executor.ts:163-185 | the splice-or-advance loop over the ready queue is the drain step |
| Executors.Run.AwaitWakeup | packages/parallel/src/executor.ts:195 | whichever running operations settle before the loop resumes, the invariant holds, work has shrunk, the loop is woken, and each settling is a step of the run |
| Executors.Run.Loop | packages/parallel/src/executor.ts:162-201 | the scheduler loop terminates with every operation ended and nothing running, and what it went through is a run of the state machine that ends |
| Executors.RunPlan | packages/parallel/src/executor.ts:38-204 | fails iff the plan is cyclic or has a dangling dependency; otherwise the results and the log are those of a finished run under exactly the caps that the options resolve to, no prefix of the log exceeds those caps, and the results are the sequential meaning of the plan: each is what the function returns on the results of its dependencies in declared order, and each missing one has a missing dependency or failed on them |
| Executors.FaithfulSolves | packages/parallel/src/executor.ts:127-142 | results that are the sequential meaning solve the equations of the plan, stated on the functions and results alone |
| Limits.FixedCap | packages/parallel/src/executor.ts:209-210 | a number is a usable cap iff it is finite and at least one, and then counts as its whole part |
| Limits.GlobalCap | packages/parallel/src/executor.ts:206-211 | always at least one: the whole part of a usable number, one for any other number, half the processors by default |
| Limits.TagCap | packages/parallel/src/executor.ts:217-228 | absent exactly for an unusable number or for `llm-bound` without a published rate; otherwise the whole part of the number, a fifteenth of the rate per minute, or the default global cap |
| Limits.ModelCaps | packages/parallel/src/limits.ts:15-62 | the caps of `llm-bound` for each published tier, and none for any other |
| Limits.TagCaps | packages/parallel/src/executor.ts:213-231 | the map holds exactly the tags whose option resolves to a cap, with that cap |
| Subsequences.LcsIsUpperBound | packages/code/src/autofix/DiffTracker.ts:151-157 | no common subsequence is longer than the value the recurrence computes |
| DiffTrackers.FillTable | packages/code/src/autofix/DiffTracker.ts:145-157 | every cell of the table holds the longest-common-subsequence length of the two prefixes |
| DiffTrackers.LongestCommonSubsequence | packages/code/src/autofix/DiffTracker.ts:145-174 | the backtrace returns a common subsequence, and none is longer |
| DiffTrackers.PairedLinesDiffer | packages/code/src/autofix/DiffTracker.ts:124-132 | by optimality, two lines that the walk pairs as a change differ |
| DiffTrackers.AheadInRange | packages/code/src/autofix/DiffTracker.ts:107-123 | while common lines remain both texts have lines left, so no change reads past either |
| DiffTrackers.CopiedIsCommon | packages/code/src/autofix/DiffTracker.ts:82-89 | the lines any replayable script copies form a common subsequence of source and output |
| DiffTrackers.ScriptsKeepAtMostLcs | packages/code/src/autofix/DiffTracker.ts:82-89 | no script that turns one text into the other keeps more lines than the longest common subsequence has |
| DiffTrackers.ComputeLineDiffs | packages/code/src/autofix/DiffTracker.ts:99-143 | replaying the changes by line number turns `before` into `after` and undoing them does the reverse; no change pairs equal lines; no script leaves more lines unchanged; additions minus deletions is the difference in length; no changes iff the texts are equal; and while no line is kept, changes come first and are followed by removals only or additions only |
| DiffTrackers.StretchCounts | packages/code/src/autofix/DiffTracker.ts:124-139 | in every stretch of the reported changes without a kept line, the number of changes is the lesser of the lines dropped and the lines inserted, and removals and additions do not both occur |
| DiffTrackers.PairStep | packages/code/src/autofix/DiffTracker.ts:107-139 | each branch of the walk keeps the rule that only changes may precede a change, and that removals and additions do not mix |
| Scouts.Resolve | packages/code/src/analysis/RecursiveScout.ts:115-122 | resolved imports without repetitions in order of first occurrence |
| Scouts.DedupSpec | packages/code/src/analysis/RecursiveScout.ts:117-122 | exactly the resolved imports, each once |
| Scouts.DedupOrder | packages/code/src/analysis/RecursiveScout.ts:115-122 | the dependencies come in the order in which they are first imported |
| Scouts.VisitSound | packages/code/src/analysis/RecursiveScout.ts:92-137 | from any state and at any depth, a visit reports only closed walks of import edges reachable from an entry point |
| Scouts.VisitComplete | packages/code/src/analysis/RecursiveScout.ts:92-137 | with enough depth, a visit leaves an order in which every finished file follows all its imports but those whose edges close a reported cycle |
| Scouts.ReportsAreCycles | packages/code/src/analysis/RecursiveScout.ts:102-107 | whatever the depth, every reported list is a closed walk of at least one real import edge that repeats no file but its first |
| Scouts.DetectionExact | packages/code/src/analysis/RecursiveScout.ts:54-137 | with `maxDepth` at least the number of files, something is reported iff the reachable import graph has a cycle, and the nodes are exactly the reachable parsed files |
| Scouts.ReportsCatchAll | packages/code/src/analysis/RecursiveScout.ts:92-137 | with `maxDepth` at least the number of files, every reachable cycle contains an edge that closes a reported one: without those edges the reachable graph has no cycle |
| Scouts.ReportsOnce | packages/code/src/analysis/RecursiveScout.ts:102-110 | whatever the depth, no two reports are closed by the same import edge |
| Scouts.RingMissed | packages/code/src/analysis/RecursiveScout.ts:100 | a ring of n files walked with a depth of n - 1 is not reported |
| Scouts.DepthBoundIsTight | packages/code/src/analysis/RecursiveScout.ts:36-41 | detection is exact on all projects of at most n files iff `maxDepth` is at least n |
| Scouts.Walk.WalkDependencies | packages/code/src/analysis/RecursiveScout.ts:92-137 | the recursive method over shared maps terminates and performs exactly the visit |
| Scouts.Walk.BuildDependencyGraph | packages/code/src/analysis/RecursiveScout.ts:54-65 | reports are sound at every depth and no two are closed by the same edge; with enough depth `circularDeps` is empty iff no cycle is reachable, and every reachable cycle contains the closing edge of a report |
| ImportPaths.Frontier | packages/code/src/analysis/RecursiveScout.ts:245-262 | on any path from the start, each file was visited in time or a queued path is short enough |
| ImportPaths.FoundShortest | packages/code/src/analysis/RecursiveScout.ts:250 | the first dequeued item that names the target carries a shortest path |
| ImportPaths.ExhaustedUnreachable | packages/code/src/analysis/RecursiveScout.ts:264 | an empty queue means that no path to the target exists |
| ImportPaths.FindImportPath | packages/code/src/analysis/RecursiveScout.ts:241-265 | returns a path of real edges of minimum length, null iff the target is unreachable, and terminates although files are queued more than once |
| CastChunker.RootsAscend | packages/code/src/indexer/cast-chunker.ts:131-139 | the top-level symbols of a region lie inside it, their starts and their ends both never decreasing |
| CastChunker.BlocksCover | packages/code/src/indexer/cast-chunker.ts:150-157 | symbol blocks and gap blocks leave no line of the region out, overlaps or not |
| CastChunker.HardSplitGood | packages/code/src/indexer/cast-chunker.ts:206-227 | the line split tiles its region with pieces that are single lines or within both limits |
| CastChunker.PackGood | packages/code/src/indexer/cast-chunker.ts:121-203 | for arbitrary overlapping symbols the mutual recursion terminates, every line of the region is in a piece, and every piece is within the budget or a single line and lies in the region |
| CastChunker.PackTiles | packages/code/src/indexer/cast-chunker.ts:121-203 | for line-disjoint or strictly nested symbols the pieces are consecutive intervals tiling the region |
| ChunkTheorems.ClashHeldTwice | packages/code/src/indexer/cast-chunker.ts:147-157 | on a text whose every line exceeds the budget, two symbols that share a line without strict nesting put some line in two pieces, whatever the line ceiling |
| ChunkTheorems.PackSeen | packages/code/src/indexer/cast-chunker.ts:131-139 | the packing depends only on the roots of the region and the symbols inside them, not on symbols that leave the region or that only such symbols hold |
| ChunkTheorems.ExactlyOnceIffLaminar | packages/code/src/indexer/cast-chunker.ts:13-15 | for any given budget and ceiling, each line of every text of n lines is in exactly one chunk iff the ranges of the symbols the packing looks at are pairwise line-disjoint or strictly nested; when all symbols end inside the file, it looks at all of them |
| ChunkTheorems.PackClean | packages/code/src/indexer/cast-chunker.ts:4-9 | for such symbols, every chunk lies beside, inside or around each symbol, never across one of its ends |
| ChunkLaws.TotalInk | packages/code/src/indexer/cast-chunker.ts:58-67 | the size the packing computes for some lines is the number of non-whitespace characters of their joined text |
| ChunkLaws.FittingSymbolWhole | packages/code/src/indexer/cast-chunker.ts:131-203 | whatever the other symbols, one that fits the budget and the ceiling lies in one chunk |
| ChunkLaws.SplitFull | packages/code/src/indexer/cast-chunker.ts:217-223 | no piece of a line split stops before the next line would exceed a limit |
| ChunkLaws.MergesFill | packages/code/src/indexer/cast-chunker.ts:195-200 | among blocks that fit, two neighbouring merged chunks would exceed the budget together |
| ChunkLaws.SplitsAreOfLeaves | packages/code/src/indexer/cast-chunker.ts:30-35 | a `split` chunk is a part of a symbol with no symbol strictly inside |
| ChunkLaws.PackGapsBeside | packages/code/src/indexer/cast-chunker.ts:30-35 | for disjoint or nested symbols a `gap` chunk meets no symbol except one around it that has others inside |
| ChunkCeiling.LongBufferStays | packages/code/src/indexer/cast-chunker.ts:195-202 | over blank text a merged run that is over the ceiling leaves as a chunk over the ceiling |
| ChunkCeiling.BlankIsLongest | packages/code/src/indexer/cast-chunker.ts:121-203 | if any text and budget give a chunk over a ceiling of at least one line, blank text of any length gives one for the same region and symbols |
| ChunkCeiling.LineCeilingExact | packages/code/src/indexer/cast-chunker.ts:46-47 | for given symbols, file length and ceiling: the ceiling is kept on every text and budget iff it is kept on blank lines with no budget |
| ChunkCeiling.MergePassesCeiling | packages/code/src/indexer/cast-chunker.ts:195-200 | for every ceiling below the number of lines there are two symbols whose merged chunk is above it |
| ChunkCeiling.CeilingForAllSymbols | packages/code/src/indexer/cast-chunker.ts:46-47 | over all symbol lists in a file of n lines the ceiling is kept iff it is at least n |
| ChunkSource.CountNonWs | packages/code/src/indexer/cast-chunker.ts:59-67 | the counting loop gives the number of non-whitespace characters in the text of the region, lines outside the file counting nothing |
| ChunkSource.PrepareSpec | packages/code/src/indexer/cast-chunker.ts:87-97 | keeps one symbol for every range and name of a well-formed function, method or class and nothing else, in order of start with the longer range first |
| ChunkSource.NamesExact | packages/code/src/indexer/cast-chunker.ts:107 | the names of a chunk are those of the symbols in its range |
| ChunkSource.NamesCount | packages/code/src/indexer/cast-chunker.ts:107 | a chunk carries as many names as symbols lie in it |
| ChunkSource.BuildBlocks | packages/code/src/indexer/cast-chunker.ts:150-157 | the cursor loop builds the cover of the region |
| ChunkSource.Chunker.Emit | packages/code/src/indexer/cast-chunker.ts:100-110 | appends one piece, or nothing for an empty interval |
| ChunkSource.Chunker.HardSplitLoop | packages/code/src/indexer/cast-chunker.ts:206-227 | the two nested loops append exactly the line split |
| ChunkSource.Chunker.PackRegion | packages/code/src/indexer/cast-chunker.ts:121-203 | appends exactly the packing of the region |
| ChunkSource.Chunker.MergeBlocks | packages/code/src/indexer/cast-chunker.ts:161-202 | the loop with its buffer appends exactly the greedy merge |
| ChunkSource.Chunker.DecomposeBlock | packages/code/src/indexer/cast-chunker.ts:175-192 | an oversized block is flushed, recursed into or split as specified |
| ChunkSource.ChunksCoverInBudget | packages/code/src/indexer/cast-chunker.ts:80-114 | for every source, symbols and limits: each line of the file is in a chunk, and each chunk is within the budget or a single line |
| ChunkSource.ChunksRoundTrip | packages/code/src/indexer/cast-chunker.ts:69-114 | for disjoint or nested symbols the chunks tile lines 1 to n and joining their texts with newlines gives back the source |
| ChunkSource.ChunkAll | packages/code/src/indexer/cast-chunker.ts:80-114 | the entry point returns the specified chunks: each line is in one; each holds the text of its lines, names exactly the structural symbols in its range, and has at most `maxNonWs` non-whitespace characters or a single line; a symbol that fits is in one chunk; without structural symbols no chunk stops before it is full; for disjoint or nested symbols the texts join to the source |
| Lines.JoinSplit | packages/code/src/indexer/cast-chunker.ts:83 | joining the lines of a text gives the text back |
| Lines.SplitUnique | packages/code/src/indexer/cast-chunker.ts:83 | the only list of lines without line breaks that joins to a text is its split |
| Lines.SplitNoBreaks | packages/code/src/indexer/cast-chunker.ts:83 | no piece of a split text holds a line break |
| Neighborhoods.LevelsExact | packages/graph/src/graph-impl.ts:195-223 | the level-by-level traversal discovers exactly the nodes within the hop bound, each once |
| Neighborhoods.ScanAdjacent | packages/graph/src/graph-impl.ts:205-219 | one adjacency list is scanned up to the limit, filters not affecting what counts as seen |
| Neighborhoods.ScanLevel | packages/graph/src/graph-impl.ts:200-221 | one pass over the sorted frontier does the same for a level |
| Neighborhoods.Neighbors | packages/graph/src/graph-impl.ts:180-226 | the method with its early return computes the filtered discovery sequence cut at the limit |
| Neighborhoods.NeighborsExact | packages/graph/src/graph-impl.ts:180-226 | unlimited, the result is exactly the filtered ball without its centre; a limit of k gives its first k nodes, and a limit below one its first node |
| Neighborhoods.LevelNextOrder | packages/graph/src/graph-impl.ts:201-219 | a pass discovers nodes by the position of their first discoverer in the frontier, then by id |
| Neighborhoods.LevelsOrder | packages/graph/src/graph-impl.ts:199-223 | discovery goes by distance from the seed, then by the least node of the level before that links to it, then by id |
| Neighborhoods.NeighborsOrdered | packages/graph/src/graph-impl.ts:199-225 | the result of `neighbors` is in that order, so it does not depend on the order in which edges are stored, and a limit keeps the nearest nodes |
| Retrieval.SearchStep | packages/graph/src/retrieval.ts:134-147 | expanding a frontier keeps every recorded hop the minimum distance from any existing seed |
| Retrieval.ExpandNode | packages/graph/src/retrieval.ts:138-144 | single-hop expansion through `neighbors` records exactly the nodes not reached before |
| Retrieval.Search | packages/graph/src/retrieval.ts:123-147 | the recorded nodes are exactly the ball around the existing seeds and the recorded hops are minimum distances |
| Retrieval.ScoreAll | packages/graph/src/retrieval.ts:150-170 | exactly the nodes that pass the filters are scored, each once, with its exact distance |
| Retrieval.RankedStillAll | packages/graph/src/retrieval.ts:173-176 | ranking sorts by falling score, then by id, and loses and adds nothing |
| Retrieval.TakeIsBest | packages/graph/src/retrieval.ts:178 | cutting a ranked list at the limit keeps its best entries |
| Retrieval.ScoredEntries | packages/graph/src/retrieval.ts:150-170 | the scored nodes are exactly those of the ball that pass the seed, kind and weight filters, with the right distance, source, weight and score |
| Retrieval.PowLaw | packages/graph/src/retrieval.ts:161 | powers of the decay start at one and multiply over distances |
| Retrieval.ScoreFallsByDecay | packages/graph/src/retrieval.ts:161-164 | a seed scores its weight, and one hop more multiplies the score by the decay |
| Retrieval.RetrieveWeighted | packages/graph/src/retrieval.ts:111-179 | the result is ranked, has as many entries as the limit allows, each node once, and no scored node left out ranks higher; each entry has its exact distance, the source and weight of its node, and weight times decay to the power of the distance as score, and passes the filters; without a limit it holds exactly the nodes of the ball that pass; when ids collate apart it is determined by the graph and the query |
| Retrieval.RankingUnique | packages/graph/src/retrieval.ts:172-176 | an identical graph and query have only one ranked list of the wanted nodes when ids collate apart |
| Retrieval.AgreesWithNeighbors | packages/graph/src/graph-impl.ts:180-226 | with one seed left out of the result and no filters, weighted retrieval finds exactly the nodes that `neighbors` finds |
| Retrieval.ScoreIsMonotone | packages/graph/src/retrieval.ts:35-38 | a node as close and of a source as heavy never scores less |
| Retrieval.WeightForSource | packages/graph/src/retrieval.ts:89-96 | a weight is never negative; a positive one is the configured weight, its default or one, and zero stands for a configured zero, a negative or an unusable number |
| Retrieval.ClampDecay | packages/graph/src/retrieval.ts:228-231 | the decay lies in (0, 1]: a positive one is kept or lowered to one, anything else becomes a half |
| RateLimiters.RateLimiter.Consume | packages/transport/src/rate-limiter.ts:31-54 | accepts iff the refilled level is at least one token, and charges this key's bucket only |
| RateLimiters.RateLimiter.Remaining | packages/transport/src/rate-limiter.ts:59-68 | returns the refilled level, never above the burst size, and changes nothing |
| RateLimiters.RateLimiter.Reset | packages/transport/src/rate-limiter.ts:73-75 | only this key is forgotten, and its level is full again at any time |
| RateLimiters.LevelExact | packages/transport/src/rate-limiter.ts:41-50 | after any sequence of requests the level of a key is exactly the least, over all windows that start at one of its requests, of burst plus refill minus what was served |
| RateLimiters.AcceptedIffFits | packages/transport/src/rate-limiter.ts:31-54 | a request is accepted iff accepting it keeps every window ending now within burst plus refill |
| RateLimiters.WindowBound | packages/transport/src/rate-limiter.ts:31-54 | with a monotone clock, what is served between two requests of a key is at most burst plus refill over that time |
| RateLimiters.IntervalBound | packages/transport/src/rate-limiter.ts:31-54 | with a monotone clock, what is served in any time interval is at most the burst plus the requests per minute times the length in milliseconds divided by 60000 |
| Bundles.LeRoundTrip | packages/atrium/src/utils/bundle.ts:121-130 | reading a little-endian number of any width gives what was written |
| Bundles.LeValueRoundTrip | packages/atrium/src/utils/bundle.ts:162-173 | writing what was read gives the same bytes back |
| Bundles.LeIsLittleEndian | packages/atrium/src/utils/bundle.ts:121-130 | the i-th byte written is the i-th digit to the base 256, lowest first |
| Bundles.PackContainer | packages/atrium/src/utils/bundle.ts:109-136 | the loop over headers and bodies writes the specified container, or rejects the first name that is too long or a count that does not fit |
| Bundles.ContainerLayout | packages/atrium/src/utils/bundle.ts:109-136 | an encoding begins with the eight magic bytes and the four bytes of the count, and each entry stands at its offset as name length, name, content size and content |
| Bundles.EncodeErrors | packages/atrium/src/utils/bundle.ts:117-119 | encoding fails exactly for the first name over 65535 bytes or, if there is none, for a count over 32 bits |
| Bundles.UnpackEntry | packages/atrium/src/utils/bundle.ts:165-181 | one pass of the offset loop reads one entry, with the same error in the same place as the specification |
| Bundles.EntryErrors | packages/atrium/src/utils/bundle.ts:166-177 | an entry is refused for exactly the reason given, told by positions in the input |
| Bundles.Unpack | packages/atrium/src/utils/bundle.ts:150-183 | the decoding loop computes the specified decoder |
| Bundles.BundleRoundTrip | packages/atrium/src/utils/bundle.ts:146-183 | decoding an encoding gives the same files in the same order, whatever bytes follow |
| Bundles.DecodeExact | packages/atrium/src/utils/bundle.ts:109-183 | the decoder accepts a byte string with a list of files iff it begins with their encoding |
| Bundles.PrefixRejected | packages/atrium/src/utils/bundle.ts:152-177 | every strict prefix of an encoding is rejected |
| Like.EscapedIsLiteral | packages/atrium/src/utils/cockpit-data.ts:257-260 | an escaped query matches itself and only itself, up to ASCII case, for every query including wildcards and backslashes |
| Like.BrowsePatternExact | packages/atrium/src/utils/cockpit-data.ts:282-287 | the browse pattern matches a text iff the query occurs in it as a substring, up to ASCII case |
| FixGenerator.SpliceStep | packages/code/src/autofix/FixGenerator.ts:249-273 | splicing the next lower fix finds its original line in place and rewrites it alone |
| FixGenerator.BottomUpIsSimultaneous | packages/code/src/autofix/FixGenerator.ts:247-274 | for fixes on distinct lines, the descending splices give the original lines all rewritten at once, and a fix fails iff its line is not a line of the original file |
| FixGenerator.ApplyFix | packages/code/src/autofix/FixGenerator.ts:250-273 | a fix outside the file counts as failed; otherwise the line is replaced, removed or followed by the given text and counts as applied, or nothing happens if the text is missing |
| Sorting.SortStable | packages/code/src/autofix/FixGenerator.ts:247 | elements that the order does not separate keep their places among each other |
| FixGenerator.SameLineKeepsOrder | packages/code/src/autofix/FixGenerator.ts:247 | fixes of one line are applied in the order in which they were given |
| FixGenerator.ApplyFixes | packages/code/src/autofix/FixGenerator.ts:247-274 | the loop applies all fixes, sorted by falling line; on distinct lines that is the simultaneous rewriting with the right counts |
| LineReaders.SplitConcat | packages/atrium/src/ui/server.ts:265-269 | splitting a concatenation glues the last piece of the first split to the first piece of the second |
| LineReaders.RunHandle.Emit | packages/atrium/src/ui/server.ts:250-253 | the replay buffer is the suffix of the events so far of length min(500, n) |
| LineReaders.LineReader.OnData | packages/atrium/src/ui/server.ts:264-276 | after any chunk, what was handed over is exactly the non-empty complete lines of the stream so far, and the rest is pending |
| LineReaders.LineReader.OnEnd | packages/atrium/src/ui/server.ts:277-282 | at the end, what was handed over is exactly the non-empty lines of the whole stream |
| LineReaders.NonEmptyPicks | packages/atrium/src/ui/server.ts:270 | the lines handed over stand at exactly the positions of the non-empty pieces, in order |
| LineReaders.ReadStream | packages/atrium/src/ui/server.ts:261-283 | whatever the division into chunks, the buffer ends as the parsed last 500 non-empty lines of the whole stream, or all if there are fewer |

## Left out

- Operation weights, generated ids, timestamps and the lineage sink; a log entry names its operation by id where the program prints the name.
- The order in which ready operations are started is modelled, but no first-come-first-served claim is made about it.
- An in-flight promise that has settled but not yet left the program's `inFlight` list is counted as gone; the bail-out test is only weaker in the program.
- Executors.RunPlan: an operation that never settles is not modelled; every running operation can settle.
- Scouts.Walk.BuildDependencyGraph: the parser, import resolution and file system are a fixed map from file to resolved imports; dependents, roots, leaves and the symbol queries of the walker are not modelled.
- The differ's snapshots, file reads and textual summary.
- ChunkSource.ChunkAll: the library sort is modelled by a stable insertion sort, and text is a sequence of Unicode scalar values, so unpaired surrogates are not modelled.
- Rounding of floating-point scores, weights, refill rates and hop powers: exact reals are used.
- Retrieval.RetrieveWeighted: the locale-dependent comparison of ids is an arbitrary integer key, and adjacency lists are assumed to be no longer than the largest safe integer that the program passes as a limit.
- `rankBySource`, `findSymbol`, `summarize`, clustering and the graph builder.
- RateLimiters.IntervalBound: clearing all buckets and resets between requests are outside the bound; a clock that runs backwards is covered by `RateLimiters.LevelExact` and `RateLimiters.AcceptedIffFits` only.
- Compression, directory walking, writing the unpacked files, and UTF-8 decoding of names: the container is modelled on bytes.
- Page arithmetic of the browser, tag parsing and the SQL around the pattern.
- FixGenerator.BottomUpIsSimultaneous: fixes that share a line are applied in list order and only the fold over them is stated; grouping by file and file errors are not modelled.
- Line parsing, subscribers, and the interleaving of the two output streams of one process.
- The promise limiter, hook configuration, redaction, the audit event tables, the performance tracker and the encrypted framing.
