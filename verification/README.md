# XBT: the build tool's core, modelled and proved

XBT is the engine's build tool. This project models its action graph and parallel executor, the
history and dependency archives with the staleness test they feed, the `.Build.expr` language, and
the text and byte encodings the other parts rely on, and proves what they are for. `dafny verify
dfyconfig.toml` checks everything.

| part | modules |
|---|---|
| sequences and result types | `Sequences`, `Wrappers`, `Bytes` |
| linking, cycle detection, sorting, subsets | `Graphs`, `LinkSpec`, `CycleSearch`, `Kahn`, `SortOrder`, `Sorting`, `InputOrder`, `Subset`, `ActionGraphs` |
| parallel execution | `Execution` (transition system and invariant), `Schedules` (whole runs), `Executors` (the object) |
| `.Build.expr` lexer | `Lexing`, `Lexers`, `Layouts` (the texts it accepts) |
| `.Build.expr` parser | `Syntax`, `Decimal`, `Grammar`, `Parsers`, `Phrases`, `Rendering` and `Recognition` (the token lists it accepts), `Diagnostics` (the errors) |
| `.Build.expr` interpreter | `Values`, `Evaluation`, `MeaningLaws`, `Costs`, `Interpreters`, `Sources` (text to value) |
| archives | `LittleEndian`, `Ordinal`, `ArchiveFormat`, `ArchiveLaws`, `ArchiveLayouts` (the bytes a load accepts), `Archives` |
| staleness | `Staleness`, `Builds` (whole builds), `NullBuilds` (what is out of date after them), `ExecutedBuilds` (builds of linked graphs by executor runs), `BuildLimits` (what does not hold) |
| depfiles, keys, contract surface | `Depfile`, `DepfileLayouts` (how any file is read), `KeyStreams`, `Keys`, `SurfaceText`, `SurfaceWriter` |

How the source is represented:

- An action is named by its position in the input list; edges are lists of positions, so repeated
  edges stay repeated. Object graphs are classes with the same lists as fields.
- The locked section of the executor is one atomic step, taking an action another one; the outcome of
  running an action is an arbitrary function of the action. Any number of workers and any order of
  steps are covered.
- Paths and hashed texts are byte sequences, in their UTF-8 form (section 3 of RFC 3629). Digests are 32 bytes; the hash
  function is an arbitrary parameter, and results that need it to be injective name the colliding
  streams instead.
- A file system is a map from paths to the digests of the current contents.
- A thrown exception is an error value with the condition that raises it; token positions and message
  texts are left out.

Conditions the code needs, found while proving:

- `Sort` drops a ready action whose digest equals that of another ready one, and then fails even on an
  acyclic graph. `SortOrder.CanonicalExistsExactly` says exactly when it succeeds, and
  `CanonicalExistsIfOrdered` gives a condition on the input alone.
- With no actions the executor sets its completion event but never closes the queue.
- A depfile target with a colon in front of a tab or line break is cut short, and a colon with a line
  continuation right behind it is not taken for the separator, so that paths are lost although the
  continuation counts as white space everywhere else. `Depfile.RoundTrip` is an equivalence with both
  conditions, `Depfile.ContinuationHidesColon` the smallest case of the second.
- A successful build can leave actions out of date. `NullBuilds.OutdatedAfterBuild` says exactly when,
  from any starting memory: an old hash is wrong, or that of a header missing, and no event has taken it
  again. The null build follows, if discovered headers exist, for each action whose recording refreshes
  what it lists (`Refreshes`, which `RefreshesExactly` shows to be exact), from a memory whose header
  lists name raw files and products of ancestors (`Tidy`, kept by a recording exactly as
  `TidyAfterRecord` says). `BuildLimits` has a witness for each way to fall short.

Where the source's comments and its code disagree, the code is modelled:

- The comments at ParallelExecutor.cs lines 519-524 and 537-542 say that a missing content hash, or a
  missing header list, makes the next check run the action again. Rules 4 and 5 of the check skip such
  entries (ActionHistory.cs lines 296-299 and 325-328), so the action counts as current
  (`BuildLimits.UnhashedSourceIsNotSeen`).
- The comment at StarlarkEvaluator.cs lines 60-63 charges an instruction for a short-circuit decision;
  the code charges visited nodes only.
- The grammar comment at StarlarkEvaluator.cs lines 22-36 has no top-level calls, no trailing comma in a
  list and no field of a parenthesised reference, `(target).platform`; the parser accepts all three. `None.f(x)` and
  `f(x)` give the same tree.
- The exception of `Sort` (ActionGraph.cs lines 557-565) always blames a cycle; a digest clash raises it too.
- The layout comment of `Save` (ActionHistory.cs lines 421-432) leaves out the content-hash map that
  format 2 writes.

## Model

| member | source | states |
|---|---|---|
| `ActionGraphs.LinkedAction.AddPrerequisite` | Engine/Source/Programs/XBT/XBT.ActionGraph/LinkedAction.cs:60-64 | appends the edge to both of its ends and changes nothing else |
| `ActionGraphs.ActionGraph.ClaimProducers` | Engine/Source/Programs/XBT/XBT.ActionGraph/ActionGraph.cs:152-205 | the producer map ends as first-producer-wins; success exactly if every later producer of a path has the version, the prerequisites and the directory of the first; otherwise the report names the first conflicting action, its first conflicting output, the producer that had claimed it, and the version if the versions differ, the prerequisites if these are the first to differ, and the directory if only it does |
| `ActionGraphs.ActionGraph.ClaimOutputs` | Engine/Source/Programs/XBT/XBT.ActionGraph/ActionGraph.cs:157-200 | the outputs of one action are claimed in order, up to the first that an earlier, differing producer holds |
| `ActionGraphs.ActionGraph.AddEdges` | Engine/Source/Programs/XBT/XBT.ActionGraph/ActionGraph.cs:207-222 | both edge lists of every node grow by exactly the resolved prerequisite items, in input order |
| `ActionGraphs.ActionGraph.Link` | Engine/Source/Programs/XBT/XBT.ActionGraph/ActionGraph.cs:148-223 | on a fresh graph it succeeds exactly if any two producers of one path have equal versions, prerequisites and directories; a conflict leaves the edges alone and is reported with action, output and the first field that differs; success leaves first producers in the map and the resolved multigraph in the edge lists |
| `LinkSpec.ProducerIsFirst` | Engine/Source/Programs/XBT/XBT.ActionGraph/ActionGraph.cs:152-201 | the producer of a path is the first action, in input order, that lists it among its outputs |
| `LinkSpec.EdgeMultiplicity` | Engine/Source/Programs/XBT/XBT.ActionGraph/ActionGraph.cs:210-222 | an action has p as prerequisite as often as p produces one of its prerequisite items, and itself never |
| `LinkSpec.ResolveInOrder` | Engine/Source/Programs/XBT/XBT.ActionGraph/ActionGraph.cs:210-222 | the prerequisite list of an action is, in the order of its items, the producer of each item that another action makes |
| `LinkSpec.DependentsInOrder` | Engine/Source/Programs/XBT/XBT.ActionGraph/ActionGraph.cs:207-222 | the dependents of an action stand in the input order of the actions that need it |
| `LinkSpec.ConverseMultiplicity` | Engine/Source/Programs/XBT/XBT.ActionGraph/LinkedAction.cs:60-64 | the dependent lists hold each edge exactly as often as the prerequisite lists do |
| `LinkSpec.LinkedGraphValid` | Engine/Source/Programs/XBT/XBT.ActionGraph/ActionGraph.cs:148-223 | the linked graph is a multigraph whose two sides are exact converses, with one edge per produced prerequisite item |
| `LinkSpec.LinkedFromScratch` | Engine/Source/Programs/XBT/XBT.ActionGraph/ActionGraph.cs:207-222 | linking a freshly constructed graph leaves the linked graph and no other edge |
| `Kahn.Drain` | Engine/Source/Programs/XBT/XBT.ActionGraph/ActionGraph.cs:343-381 | the drain processes exactly the safe nodes, those with no cycle among their ancestors, and leaves every counter at the number of edges from the others, an answer that does not depend on the queue order |
| `Kahn.UnsafeHasCounter` | Engine/Source/Programs/XBT/XBT.ActionGraph/ActionGraph.cs:394-408 | a counter left above zero marks exactly the nodes that are not safe |
| `Graphs.FinishCounters` | Engine/Source/Programs/XBT/XBT.ActionGraph/ActionGraph.cs:363-378 | processing one more ready node keeps every counter equal to the edge occurrences from nodes not yet processed, whatever the queue order |
| `Graphs.NothingReadyIsUnsafe` | Engine/Source/Programs/XBT/XBT.ActionGraph/ActionGraph.cs:380-391 | once nothing is ready, each node that is left has infinitely long prerequisite walks, so the graph has a cycle |
| `CycleSearch.WeightAfterPush` | Engine/Source/Programs/XBT/XBT.ActionGraph/ActionGraph.cs:477-503 | entering a child lowers the termination measure over simple paths, although popped nodes may be entered again |
| `CycleSearch.TrailCloses` | Engine/Source/Programs/XBT/XBT.ActionGraph/ActionGraph.cs:486-498 | meeting a node of the current path again closes a cycle of otherwise distinct nodes |
| `Kahn.DfsForCycle` | Engine/Source/Programs/XBT/XBT.ActionGraph/ActionGraph.cs:439-507 | terminates; an empty path means the start is safe, any other path is a cycle of prerequisite edges with distinct inner nodes |
| `Kahn.FindOneCycle` | Engine/Source/Programs/XBT/XBT.ActionGraph/ActionGraph.cs:394-418 | on a graph with a cycle the search from the first leftover node returns a nonempty simple cycle |
| `Kahn.DetectCycles` | Engine/Source/Programs/XBT/XBT.ActionGraph/ActionGraph.cs:343-392 | reports a cycle exactly when the multigraph has one; what it reports is a simple cycle |
| `ActionGraphs.ActionGraph.DetectCycles` | Engine/Source/Programs/XBT/XBT.ActionGraph/ActionGraph.cs:343-392 | the same for the linked object graph, which it leaves unchanged |
| `Bytes.CompareDigests` | Engine/Source/Programs/XBT/XBT.ActionGraph/ActionGraph.cs:40-54 | negative exactly if at the first byte where the digests differ the first one has the smaller, positive the other way round, and 0 exactly for equal digests |
| `Bytes.BelowExactly` | Engine/Source/Programs/XBT/XBT.ActionGraph/ActionGraph.cs:40-54 | one byte string is below another exactly if they agree up to some position and there the first one ends or has the smaller byte |
| `SortOrder.CanonicalIsTopological` | Engine/Source/Programs/XBT/XBT.ActionGraph/ActionGraph.cs:514-569 | taking the least ready action at each turn gives a permutation that respects every edge |
| `SortOrder.CanonicalIsLeast` | Engine/Source/Programs/XBT/XBT.ActionGraph/ActionGraph.cs:540-555 | that order is the lexicographically least topological order by digests: where another one first departs from it, the digest here comes first by the first differing byte |
| `SortOrder.CanonicalIgnoresInputOrder` | Engine/Source/Programs/XBT/XBT.ActionGraph/ActionGraph.cs:500-514 | two graphs that differ in the numbering of the actions only have the same canonical order of actions |
| `InputOrder.NoConflictExactly` | Engine/Source/Programs/XBT/XBT.ActionGraph/ActionGraph.cs:165-196 | comparing each producer with the first one finds exactly whether all producers of every path agree |
| `InputOrder.ConflictIgnoresInputOrder` | Engine/Source/Programs/XBT/XBT.ActionGraph/ActionGraph.cs:148-205 | so whether linking fails does not depend on the input order |
| `InputOrder.DistinctVersionsShareNothing` | Engine/Source/Programs/XBT/XBT.ActionGraph/ActionGraph.cs:112-133 | actions with distinct command versions that link without a conflict have no output in common |
| `InputOrder.SortedShareNothing` | Engine/Source/Programs/XBT/XBT.ActionGraph/ActionGraph.cs:148-223 | nor have actions that link and sort, as long as none lists an output of its own: sharers would be twins |
| `InputOrder.OwnPrerequisiteHidesSharing` | Engine/Source/Programs/XBT/XBT.ActionGraph/ActionGraph.cs:207-222 | without that proviso two copies of one action can link and sort |
| `InputOrder.LinkedRenaming` | Engine/Source/Programs/XBT/XBT.ActionGraph/ActionGraph.cs:148-223 | without common outputs, linking the actions in another input order gives the same graph under other handles |
| `InputOrder.SortIgnoresInputOrder` | Engine/Source/Programs/XBT/XBT.ActionGraph/ActionGraph.cs:500-514 | and sorting it gives the same actions in the same order |
| `SortOrder.TwinsBlock` | Engine/Source/Programs/XBT/XBT.ActionGraph/ActionGraph.cs:527-565 | two actions with one digest that wait for the same things make any complete order impossible |
| `SortOrder.CanonicalExistsExactly` | Engine/Source/Programs/XBT/XBT.ActionGraph/ActionGraph.cs:514-569 | a canonical order exists exactly if the graph is acyclic and no two actions with one digest are ever ready together, with no assumption on the digests |
| `SortOrder.CanonicalExistsIfOrdered` | Engine/Source/Programs/XBT/XBT.ActionGraph/ActionGraph.cs:514-569 | if only actions of which one is an ancestor of the other share a digest, in particular if digests are distinct, a canonical order exists exactly for the acyclic graphs |
| `SortOrder.CanonicalExistsForTwins` | Engine/Source/Programs/XBT/XBT.ActionGraph/ActionGraph.cs:527-565 | if equal digests mean equal prerequisites, it exists exactly for acyclic graphs with distinct digests |
| `Sorting.AddReady` | Engine/Source/Programs/XBT/XBT.ActionGraph/ActionGraph.cs:531-537 | the sorted set takes an action in at its place in digest order, and drops it if an equal digest is there |
| `Sorting.Sort` | Engine/Source/Programs/XBT/XBT.ActionGraph/ActionGraph.cs:514-569 | returns the canonical order if there is one, by the order CompareDigests decides, and otherwise reports failure, which means a cycle or a digest clash |
| `ActionGraphs.ActionGraph.Sort` | Engine/Source/Programs/XBT/XBT.ActionGraph/ActionGraph.cs:514-569 | the first call computes that answer and keeps it, later calls return it unchanged |
| `Subset.Closure` | Engine/Source/Programs/XBT/XBT.ActionGraph/ActionGraph.cs:596-621 | the walk visits exactly the seeds and their ancestors, on graphs with shared ancestors too |
| `Subset.KeepTopological` | Engine/Source/Programs/XBT/XBT.ActionGraph/ActionGraph.cs:623-628 | filtering a topological order by a prerequisite-closed set lists each kept action once, behind its prerequisites |
| `Subset.KeepIsSubsequence` | Engine/Source/Programs/XBT/XBT.ActionGraph/ActionGraph.cs:623-628 | and it keeps their order |
| `ActionGraphs.ActionGraph.GetActionsForSubset` | Engine/Source/Programs/XBT/XBT.ActionGraph/ActionGraph.cs:591-629 | holds exactly the actions that are, or are ancestors of, some action whose module is among the given names; each once, as a subsequence of the sorted order, prerequisites first |
| `Executors.Executor.constructor` | Engine/Source/Programs/XBT/XBT.ActionGraph/ParallelExecutor.cs:151-198 | counters start at the edge counts, the queue at the sources in sorted order |
| `Execution.SourcesInOrder` | Engine/Source/Programs/XBT/XBT.ActionGraph/ParallelExecutor.cs:168-198 | the queue is seeded with exactly the actions without prerequisites, in sorted order |
| `Executors.Executor.TryTake` | Engine/Source/Programs/XBT/XBT.ActionGraph/ParallelExecutor.cs:214-230 | a worker takes the oldest queued action, and nothing else changes |
| `Executors.Executor.ReleaseDependents` | Engine/Source/Programs/XBT/XBT.ActionGraph/ParallelExecutor.cs:244-256 | every dependent's counter drops once per edge; those that reach zero without a result are queued, in edge order |
| `Graphs.ReleaseOrder` | Engine/Source/Programs/XBT/XBT.ActionGraph/ParallelExecutor.cs:244-256 | the actions a success releases are queued in the order of their last occurrences in the dependent list |
| `Executors.SkipDependents` | Engine/Source/Programs/XBT/XBT.ActionGraph/ParallelExecutor.cs:624-654 | terminates; adds exactly the unresolved actions reached from the failure through unresolved ones, sets their counters to -1 and returns how many there are |
| `Executors.SkippedAreDescendants` | Engine/Source/Programs/XBT/XBT.ActionGraph/ParallelExecutor.cs:624-654 | while unsuccessful results are closed under dependents, those are exactly the unresolved descendants of the failure |
| `Executors.SkippingRestoresClosure` | Engine/Source/Programs/XBT/XBT.ActionGraph/ParallelExecutor.cs:624-654 | skipping changes no earlier result and closes the unsuccessful results under dependents again |
| `Executors.Executor.Complete` | Engine/Source/Programs/XBT/XBT.ActionGraph/ParallelExecutor.cs:236-275 | the whole locked section is one step of the transition system: count, release or skip, close the queue at the end |
| `Executors.Executor.Execute` | Engine/Source/Programs/XBT/XBT.ActionGraph/ParallelExecutor.cs:208-278 | for any choice of worker and running action the loop ends with a result for every action, each the one its ancestors' outcomes call for, and with the queue closed once, after all adds |
| `Execution.StartInv` | Engine/Source/Programs/XBT/XBT.ActionGraph/ParallelExecutor.cs:151-198 | the seeded state satisfies the invariant |
| `Execution.TakeInv` | Engine/Source/Programs/XBT/XBT.ActionGraph/ParallelExecutor.cs:214-230 | taking an action keeps the invariant |
| `Execution.SuccessInv` | Engine/Source/Programs/XBT/XBT.ActionGraph/ParallelExecutor.cs:236-256 | a success keeps the invariant: right counters, right places, right counts, each action queued at most once |
| `Execution.FailureInv` | Engine/Source/Programs/XBT/XBT.ActionGraph/ParallelExecutor.cs:236-268 | so does a failure with its cascade of skips |
| `Execution.StepInv` | Engine/Source/Programs/XBT/XBT.ActionGraph/ParallelExecutor.cs:208-278 | every step of every worker keeps the invariant |
| `Schedules.Safety` | Engine/Source/Programs/XBT/XBT.ActionGraph/ParallelExecutor.cs:208-275 | in every reachable state no action has been queued twice, whatever has been queued has only successful ancestors, and the two counters are the sizes of the result sets |
| `Schedules.FirstInFirstOut` | Engine/Source/Programs/XBT/XBT.ActionGraph/ParallelExecutor.cs:214-256 | in every reachable state the queue holds the actions added last, in the order of their additions |
| `Schedules.WorkersBound` | Engine/Source/Programs/XBT/XBT.ActionGraph/ParallelExecutor.cs:208-230 | and no more actions are running than there are workers |
| `Schedules.Progress` | Engine/Source/Programs/XBT/XBT.ActionGraph/ParallelExecutor.cs:168-198 | on an acyclic graph, while an action lacks a result, one is queued or running |
| `Schedules.WorkDecreases` | Engine/Source/Programs/XBT/XBT.ActionGraph/ParallelExecutor.cs:208-278 | each step uses up a bounded amount of work |
| `Schedules.EveryRunCompletes` | Engine/Source/Programs/XBT/XBT.ActionGraph/ParallelExecutor.cs:168-275 | a run has at most two steps per action, and one that cannot go on has completed everything and closed the queue once, as its last call |
| `Schedules.EmptyGraphNeverCloses` | Engine/Source/Programs/XBT/XBT.ActionGraph/ParallelExecutor.cs:183-184 | with no actions there is no step, so the queue is never closed |
| `Schedules.ResultsDeserved` | Engine/Source/Programs/XBT/XBT.ActionGraph/ParallelExecutor.cs:236-275 | an action succeeds or fails by its own outcome only if all its ancestors succeed, and is skipped exactly behind a failed ancestor |
| `Schedules.ScheduleIndependence` | Engine/Source/Programs/XBT/XBT.ActionGraph/ParallelExecutor.cs:208-278 | two complete runs with the same outcomes, any worker counts and any interleavings, give every action the same status |
| `Schedules.FailureSkipsDescendants` | Engine/Source/Programs/XBT/XBT.ActionGraph/ParallelExecutor.cs:258-268 | in a complete run every descendant of a failed action is skipped |
| `Lexers.Lexer.SkipWhitespaceAndComments` | Engine/Source/Programs/XBT/XBT.Configuration/StarlarkEvaluator.cs:255-282 | leaves the position behind all white space and comments, and not further |
| `Lexers.Lexer.LexStringToken` | Engine/Source/Programs/XBT/XBT.Configuration/StarlarkEvaluator.cs:284-335 | reads one string literal with its escapes, or fails as the language does |
| `Lexers.Lexer.TryMatch` | Engine/Source/Programs/XBT/XBT.Configuration/StarlarkEvaluator.cs:370-388 | steps over the operator exactly if it is next |
| `Lexers.Lexer.NextToken` | Engine/Source/Programs/XBT/XBT.Configuration/StarlarkEvaluator.cs:209-251 | literal, number, word or operator, longest first, or an unexpected character |
| `Lexers.Lexer.Tokenize` | Engine/Source/Programs/XBT/XBT.Configuration/StarlarkEvaluator.cs:197-253 | the whole token list with Eof behind it, or the first error |
| `Lexing.EofIsLast` | Engine/Source/Programs/XBT/XBT.Configuration/StarlarkEvaluator.cs:203-207 | the token list of any text ends in its only Eof |
| `Layouts.LexSpelled` | Engine/Source/Programs/XBT/XBT.Configuration/StarlarkEvaluator.cs:209-251 | any spellable token is read back from its spelling if what follows does not run on from it |
| `Layouts.LexRunOn` | Engine/Source/Programs/XBT/XBT.Configuration/StarlarkEvaluator.cs:209-251 | and if it does run on, another token is read |
| `Layouts.RoundTrip` | Engine/Source/Programs/XBT/XBT.Configuration/StarlarkEvaluator.cs:197-253 | a text made of tokens, string literals in either quote with any of the escapes, white space and comments, is read as those tokens exactly if no two adjacent ones run into each other |
| `Layouts.TokensExactly` | Engine/Source/Programs/XBT/XBT.Configuration/StarlarkEvaluator.cs:197-253 | a text is read as a token list if and only if it is such a text for that list: nothing else is accepted, and nothing else is returned |
| `Layouts.LexMarks` | Engine/Source/Programs/XBT/XBT.Configuration/StarlarkEvaluator.cs:284-335 | a literal in either quote has the value its raw characters and escapes spell |
| `Layouts.BrokenLiteral` | Engine/Source/Programs/XBT/XBT.Configuration/StarlarkEvaluator.cs:284-335 | a literal cut short at its end, at an escape, or by a line break, and one with an unknown escape, each has its own error |
| `Diagnostics.UnexpectedCharacter` | Engine/Source/Programs/XBT/XBT.Configuration/StarlarkEvaluator.cs:209-251 | which characters no token can begin with |
| `Sources.EvaluateExpression` | Engine/Source/Programs/XBT/XBT.Configuration/StarlarkEvaluator.cs:132-145 | lexer, parser and interpreter objects together compute the composition of the three semantics |
| `Sources.SourceExactly` | Engine/Source/Programs/XBT/XBT.Configuration/StarlarkEvaluator.cs:132-145 | a text is read as a tree if and only if it is a legible text of a well-formed phrase for that tree |
| `Sources.SourceImage` | Engine/Source/Programs/XBT/XBT.Configuration/StarlarkEvaluator.cs:132-145 | the trees some text is read as are exactly those with 64-bit literals whose names are lexical names |
| `Sources.WordsWritable` | Engine/Source/Programs/XBT/XBT.Configuration/StarlarkEvaluator.cs:446-716 | a rendering consists of tokens a text can spell exactly if the names of the tree are lexical names |
| `Sources.SourceRoundTrip` | Engine/Source/Programs/XBT/XBT.Configuration/StarlarkEvaluator.cs:132-145 | the rendering of a tree, in any legible layout from single-spaced to as tight as it can be, is read as exactly that tree |
| `Sources.SourceMeaning` | Engine/Source/Programs/XBT/XBT.Configuration/StarlarkEvaluator.cs:132-145 | within the limits, evaluating such a text gives the limit-free meaning of the tree |
| `Parsers.Parser.Consume` | Engine/Source/Programs/XBT/XBT.Configuration/StarlarkEvaluator.cs:718-718 | moves the position by one token and never off the end of the list |
| `Parsers.Parser.ParseConditional` | Engine/Source/Programs/XBT/XBT.Configuration/StarlarkEvaluator.cs:446-465 | reads what the conditional rule of the grammar reads, leaves the position behind it, and fails as the rule fails |
| `Parsers.Parser.ParseOr` | Engine/Source/Programs/XBT/XBT.Configuration/StarlarkEvaluator.cs:467-477 | the same for `or` chains, which associate to the left |
| `Parsers.Parser.ParseAnd` | Engine/Source/Programs/XBT/XBT.Configuration/StarlarkEvaluator.cs:479-489 | the same for `and` chains |
| `Parsers.Parser.ParseNot` | Engine/Source/Programs/XBT/XBT.Configuration/StarlarkEvaluator.cs:491-510 | the same for `not`, with `not in` refused as a prefix |
| `Parsers.Parser.ParseComparison` | Engine/Source/Programs/XBT/XBT.Configuration/StarlarkEvaluator.cs:512-547 | the same for comparison, `in` and `not in` chains |
| `Parsers.Parser.ExtendComparison` | Engine/Source/Programs/XBT/XBT.Configuration/StarlarkEvaluator.cs:519-545 | one turn of that loop: an operator and its operand, or nothing when no operator comes next |
| `Parsers.Parser.ParseUnary` | Engine/Source/Programs/XBT/XBT.Configuration/StarlarkEvaluator.cs:549-558 | the same for signs |
| `Parsers.Parser.ParseCall` | Engine/Source/Programs/XBT/XBT.Configuration/StarlarkEvaluator.cs:560-615 | the same for method calls and dotted references |
| `Parsers.Parser.ParseMember` | Engine/Source/Programs/XBT/XBT.Configuration/StarlarkEvaluator.cs:564-611 | one turn of that loop: a dot, the name and the arguments of a method call |
| `Parsers.Parser.ParseArguments` | Engine/Source/Programs/XBT/XBT.Configuration/StarlarkEvaluator.cs:577-594 | the same for argument lists |
| `Parsers.Parser.ParseItems` | Engine/Source/Programs/XBT/XBT.Configuration/StarlarkEvaluator.cs:684-708 | the same for list literals, one trailing comma tolerated |
| `Parsers.Parser.ParseAtom` | Engine/Source/Programs/XBT/XBT.Configuration/StarlarkEvaluator.cs:617-716 | the same for atoms and top-level calls |
| `Parsers.ParseExpression` | Engine/Source/Programs/XBT/XBT.Configuration/StarlarkEvaluator.cs:433-444 | on any token list that ends in Eof: the tree of the whole list, or the first error, with trailing tokens refused |
| `Rendering.ReadsAt` | Engine/Source/Programs/XBT/XBT.Configuration/StarlarkEvaluator.cs:446-716 | at every precedence level, parsing the words of any phrase of at least that strength reads exactly its tree and goes on with what follows |
| `Rendering.RoundTrip` | Engine/Source/Programs/XBT/XBT.Configuration/StarlarkEvaluator.cs:22-36 | parsing the rendering of any tree, with Eof behind it, gives the tree back |
| `Recognition.ParsesExactly` | Engine/Source/Programs/XBT/XBT.Configuration/StarlarkEvaluator.cs:433-716 | a token list is accepted with a tree if and only if it is the words of a well-formed phrase for that tree, redundant parentheses and a trailing comma in a list included, with Eof behind them |
| `Recognition.SoundConditional` | Engine/Source/Programs/XBT/XBT.Configuration/StarlarkEvaluator.cs:446-465 | whatever is read from the front of a token list is the words of a phrase, and what is left is what stands behind them |
| `Rendering.ParserImage` | Engine/Source/Programs/XBT/XBT.Configuration/StarlarkEvaluator.cs:22-36 | the trees the parser can produce are exactly those whose integer literals are 64-bit digit strings |
| `Diagnostics.TrailingTokens` | Engine/Source/Programs/XBT/XBT.Configuration/StarlarkEvaluator.cs:433-444 | a complete expression followed by anything but the end is refused as such |
| `Diagnostics.MissingElse` | Engine/Source/Programs/XBT/XBT.Configuration/StarlarkEvaluator.cs:449-461 | a condition without its else |
| `Diagnostics.NotInWithoutOperand` | Engine/Source/Programs/XBT/XBT.Configuration/StarlarkEvaluator.cs:491-508 | a `not in` with nothing in front of it |
| `Diagnostics.UnclosedGroup` | Engine/Source/Programs/XBT/XBT.Configuration/StarlarkEvaluator.cs:671-683 | a group that is not closed |
| `Diagnostics.UnclosedList` | Engine/Source/Programs/XBT/XBT.Configuration/StarlarkEvaluator.cs:684-708 | a list that is neither continued nor closed |
| `Diagnostics.UnclosedArguments` | Engine/Source/Programs/XBT/XBT.Configuration/StarlarkEvaluator.cs:640-662 | arguments that are neither continued nor closed |
| `Diagnostics.BadDots` | Engine/Source/Programs/XBT/XBT.Configuration/StarlarkEvaluator.cs:564-611 | a dot without a name behind it, and one behind a value that is no reference and without a call |
| `Diagnostics.UnexpectedTokens` | Engine/Source/Programs/XBT/XBT.Configuration/StarlarkEvaluator.cs:709-714 | the tokens no operand begins with |
| `Diagnostics.HugeInteger` | Engine/Source/Programs/XBT/XBT.Configuration/StarlarkEvaluator.cs:626-634 | an integer token is a literal exactly below 2^63, and out of range from there on |
| `Decimal.ValueOfDigits` | Engine/Source/Programs/XBT/XBT.Configuration/StarlarkEvaluator.cs:626-634 | the decimal digits of a number read as that number |
| `Decimal.DigitNames` | Engine/Source/Programs/XBT/XBT.Configuration/StarlarkEvaluator.cs:337-347 | the ten digits and their values |
| `Decimal.ValueByPlace` | Engine/Source/Programs/XBT/XBT.Configuration/StarlarkEvaluator.cs:626-634 | each further digit makes a number ten times as large |
| `Interpreters.Interpreter.Eval` | Engine/Source/Programs/XBT/XBT.Configuration/StarlarkEvaluator.cs:759-822 | result and instruction count are those of the limited semantics, and the nesting counter is restored on values and errors alike |
| `Interpreters.Interpreter.EvalList` | Engine/Source/Programs/XBT/XBT.Configuration/StarlarkEvaluator.cs:794-802 | agrees with the limited semantics of its node: items in order, up to the first error |
| `Interpreters.Interpreter.EvalUnary` | Engine/Source/Programs/XBT/XBT.Configuration/StarlarkEvaluator.cs:867-883 | agrees with the limited semantics of its node: operand, then operator |
| `Interpreters.Interpreter.EvalBinary` | Engine/Source/Programs/XBT/XBT.Configuration/StarlarkEvaluator.cs:885-917 | agrees with the limited semantics of its node: `and`/`or` decide on the left operand alone where they can; comparisons take both |
| `Interpreters.Interpreter.EvalIn` | Engine/Source/Programs/XBT/XBT.Configuration/StarlarkEvaluator.cs:919-946 | agrees with the limited semantics of its node: both operands, then membership |
| `Interpreters.Interpreter.EvalConditional` | Engine/Source/Programs/XBT/XBT.Configuration/StarlarkEvaluator.cs:806-810 | agrees with the limited semantics of its node: the condition and one branch only |
| `Interpreters.Interpreter.EvalCall` | Engine/Source/Programs/XBT/XBT.Configuration/StarlarkEvaluator.cs:948-989 | agrees with the limited semantics of its node: `len`, or a string method whose argument is visited only if the method takes one |
| `Interpreters.Membership` | Engine/Source/Programs/XBT/XBT.Configuration/StarlarkEvaluator.cs:924-945 | membership in a list by scalar equality, or of a text in a text, else an error |
| `Interpreters.EvaluateExpression` | Engine/Source/Programs/XBT/XBT.Configuration/StarlarkEvaluator.cs:128-145 | the outcome is the limit-free meaning unless the evaluation visits more than 100,000 nodes or nests deeper than 32, both counted by recursion on the tree, and then it is a limit error |
| `Evaluation.LimitedIsExact` | Engine/Source/Programs/XBT/XBT.Configuration/StarlarkEvaluator.cs:759-822 | from any counter values the limited evaluation gives the limit-free outcome and its exact node count if that fits both limits, else a limit error |
| `Evaluation.IdealMeans` | Engine/Source/Programs/XBT/XBT.Configuration/StarlarkEvaluator.cs:785-989 | the node-by-node evaluation computes the recursive short-circuit semantics |
| `Evaluation.CostIsBounded` | Engine/Source/Programs/XBT/XBT.Configuration/StarlarkEvaluator.cs:759-822 | visited nodes never exceed the tree size, nor nesting the tree height |
| `Evaluation.LimitedRefinesMeaning` | Engine/Source/Programs/XBT/XBT.Configuration/StarlarkEvaluator.cs:759-784 | a limit error comes exactly when a limit is exceeded; any other outcome is the limit-free one |
| `Evaluation.SmallTreesAgree` | Engine/Source/Programs/XBT/XBT.Configuration/StarlarkEvaluator.cs:738-738 | trees of height at most 32 and at most 100,000 nodes have the same outcome with and without limits |
| `Costs.IdealCosts` | Engine/Source/Programs/XBT/XBT.Configuration/StarlarkEvaluator.cs:759-989 | what an evaluation visits and how deep it nests, by recursion on the tree: skipped operands, branches and arguments cost nothing |
| `Costs.LimitsExactly` | Engine/Source/Programs/XBT/XBT.Configuration/StarlarkEvaluator.cs:759-784 | a limit error comes if and only if that count is above 100,000 or that depth above 32 |
| `MeaningLaws.Literals` | Engine/Source/Programs/XBT/XBT.Configuration/StarlarkEvaluator.cs:785-793 | literals have their own values |
| `MeaningLaws.ListLaw` | Engine/Source/Programs/XBT/XBT.Configuration/StarlarkEvaluator.cs:794-802 | a list has the values of all its items |
| `MeaningLaws.ListError` | Engine/Source/Programs/XBT/XBT.Configuration/StarlarkEvaluator.cs:794-802 | or the first error among them |
| `MeaningLaws.Bound` | Engine/Source/Programs/XBT/XBT.Configuration/StarlarkEvaluator.cs:842-852 | the eight bindings, one by one |
| `MeaningLaws.Unbound` | Engine/Source/Programs/XBT/XBT.Configuration/StarlarkEvaluator.cs:824-865 | no other name has a value, and nothing is more than two deep |
| `MeaningLaws.Prefixes` | Engine/Source/Programs/XBT/XBT.Configuration/StarlarkEvaluator.cs:867-883 | `not` negates truth values, signs take integers, and the least 64-bit integer is its own negation |
| `MeaningLaws.IntegerComparisons` | Engine/Source/Programs/XBT/XBT.Configuration/StarlarkEvaluator.cs:902-911 | integers compare as numbers |
| `MeaningLaws.TextComparisons` | Engine/Source/Programs/XBT/XBT.Configuration/StarlarkEvaluator.cs:902-911 | texts compare by their first difference, a proper prefix coming first |
| `MeaningLaws.MixedComparisons` | Engine/Source/Programs/XBT/XBT.Configuration/StarlarkEvaluator.cs:902-911 | nothing else is ordered |
| `MeaningLaws.Equality` | Engine/Source/Programs/XBT/XBT.Configuration/StarlarkEvaluator.cs:902-911 | two values are equal exactly if they are one text, one integer or one truth value; a list is not equal to itself |
| `MeaningLaws.ListMembership` | Engine/Source/Programs/XBT/XBT.Configuration/StarlarkEvaluator.cs:919-946 | `in` and `not in` a list, by that equality |
| `MeaningLaws.TextMembership` | Engine/Source/Programs/XBT/XBT.Configuration/StarlarkEvaluator.cs:919-946 | `in` a text: some text in front and behind makes it up |
| `MeaningLaws.NoContainer` | Engine/Source/Programs/XBT/XBT.Configuration/StarlarkEvaluator.cs:919-946 | and in nothing else |
| `MeaningLaws.Conditional` | Engine/Source/Programs/XBT/XBT.Configuration/StarlarkEvaluator.cs:806-810 | the branch the condition selects, and only that one |
| `MeaningLaws.Connectives` | Engine/Source/Programs/XBT/XBT.Configuration/StarlarkEvaluator.cs:885-900 | `and` and `or` on truth values; the right operand does not matter when the left one decides |
| `MeaningLaws.OperandErrors` | Engine/Source/Programs/XBT/XBT.Configuration/StarlarkEvaluator.cs:885-946 | an error of an operand is that of the whole, the left operand's first |
| `MeaningLaws.LenLaw` | Engine/Source/Programs/XBT/XBT.Configuration/StarlarkEvaluator.cs:948-969 | `len` counts the characters of a text or the items of a list, and takes nothing else |
| `MeaningLaws.OtherFunctions` | Engine/Source/Programs/XBT/XBT.Configuration/StarlarkEvaluator.cs:948-974 | no other function is known, and `len` takes one argument |
| `MeaningLaws.TextTests` | Engine/Source/Programs/XBT/XBT.Configuration/StarlarkEvaluator.cs:976-982 | `startswith`, `endswith` and `contains`, in terms of concatenation |
| `MeaningLaws.CaseMappings` | Engine/Source/Programs/XBT/XBT.Configuration/StarlarkEvaluator.cs:983-984 | `lower` and `upper` are the two case mappings |
| `MeaningLaws.OtherMethods` | Engine/Source/Programs/XBT/XBT.Configuration/StarlarkEvaluator.cs:976-989 | every other call on a value is refused, without a look at its arguments |
| `Evaluation.IntegersStayInRange` | Engine/Source/Programs/XBT/XBT.Configuration/StarlarkEvaluator.cs:867-989 | every integer an expression can evaluate to lies within plus or minus 2^63-1 |
| `Evaluation.NegationIsExact` | Engine/Source/Programs/XBT/XBT.Configuration/StarlarkEvaluator.cs:876-878 | so unary minus always yields the mathematical negation |
| `Archives.BinaryReader.ReadInt32` | Engine/Source/Programs/XBT/XBT.ActionGraph/ActionHistory.cs:687-687 | four little-endian bytes, or failure at the end of the stream |
| `Archives.BinaryReader.ReadBytes` | Engine/Source/Programs/XBT/XBT.ActionGraph/ActionHistory.cs:699-703 | the next n bytes, or failure if there are fewer |
| `Archives.ReadPathMap` | Engine/Source/Programs/XBT/XBT.ActionGraph/ActionHistory.cs:685-714 | reads the map the layout describes, or fails on a negative count, an oversized path or a short stream |
| `Archives.ReadHeaders` | Engine/Source/Programs/XBT/XBT.ActionGraph/CppDependencyCache.cs:854-876 | reads the counted header list, or fails on an oversized header or a short stream |
| `Archives.ReadHeader` | Engine/Source/Programs/XBT/XBT.ActionGraph/ActionHistory.cs:576-608 | accepts exactly the known magic, an accepted format, the current version and 256 partitions |
| `Archives.ReadStaged` | Engine/Source/Programs/XBT/XBT.ActionGraph/ActionHistory.cs:610-637 | stages all partitions or nothing |
| `Archives.WriteMap` | Engine/Source/Programs/XBT/XBT.ActionGraph/ActionHistory.cs:484-499 | the bytes depend on the map's contents alone: whatever the enumeration order, entries go out in ordinal order |
| `Archives.Archive.LoadFromDisk` | Engine/Source/Programs/XBT/XBT.ActionGraph/ActionHistory.cs:558-668 | memory afterwards is the whole archive or empty, never part of it |
| `Archives.Archive.Save` | Engine/Source/Programs/XBT/XBT.ActionGraph/ActionHistory.cs:419-530 | writes exactly the bytes the layout assigns to the state |
| `Archives.SaveAndReopen` | Engine/Source/Programs/XBT/XBT.ActionGraph/ActionHistory.cs:102-130 | a reopened archive equals the saved one exactly if no path or header list is over the load limits; otherwise it is empty |
| `ArchiveLaws.RoundTrip` | Engine/Source/Programs/XBT/XBT.ActionGraph/ActionHistory.cs:558-714 | loading the saved bytes gives the state back exactly when it is within the limits the load checks |
| `ArchiveLaws.PrefixLoadsAsNothing` | Engine/Source/Programs/XBT/XBT.ActionGraph/ActionHistory.cs:652-662 | every strict prefix of a saved archive loads as empty |
| `ArchiveLaws.TrailingBytesAreIgnored` | Engine/Source/Programs/XBT/XBT.ActionGraph/ActionHistory.cs:619-650 | bytes behind a saved archive change nothing |
| `ArchiveLaws.LoadIsGood` | Engine/Source/Programs/XBT/XBT.ActionGraph/ActionHistory.cs:685-714 | whatever the bytes, the loaded state is complete and within every limit |
| `ArchiveLaws.LoadSaveLoad` | Engine/Source/Programs/XBT/XBT.ActionGraph/CppDependencyCache.cs:784-962 | loading any bytes, saving and loading again gives the same state |
| `ArchiveLaws.FirstFormatLoads` | Engine/Source/Programs/XBT/XBT.ActionGraph/ActionHistory.cs:582-590 | a format 1 history loads with its action keys and an empty content-hash map |
| `ArchiveLaws.OtherVersionLoadsAsNothing` | Engine/Source/Programs/XBT/XBT.ActionGraph/CppDependencyCache.cs:814-823 | an archive of another schema version loads as empty |
| `LittleEndian.Int32RoundTrip` | Engine/Source/Programs/XBT/XBT.ActionGraph/ActionHistory.cs:469-480 | a 32-bit integer reads back as written |
| `LittleEndian.Int32Exactly` | Engine/Source/Programs/XBT/XBT.ActionGraph/ActionHistory.cs:469-480 | it is written as its digits to base 256, lowest first, a negative one as its sum with 2^32 |
| `ArchiveLayouts.HeaderExactly` | Engine/Source/Programs/XBT/XBT.ActionGraph/ActionHistory.cs:576-608 | a header is accepted exactly with the magic, an accepted format, the current version and the number 256 at their byte positions |
| `ArchiveLayouts.MapExactly` | Engine/Source/Programs/XBT/XBT.ActionGraph/ActionHistory.cs:685-714 | a map is read if and only if the bytes are a count and as many entries within the limits, in any order; of several entries for one path the last counts |
| `ArchiveLayouts.LoadsExactly` | Engine/Source/Programs/XBT/XBT.ActionGraph/ActionHistory.cs:558-668 | a load leaves exactly what the bytes say: a header, 256 partitions of such maps and anything behind them; if they say nothing, it leaves 256 empty partitions |
| `ArchiveLayouts.SaveLayout` | Engine/Source/Programs/XBT/XBT.ActionGraph/ActionHistory.cs:471-482 | a save writes magic, format, version, the number 256 and the partitions |
| `ArchiveLayouts.PartitionsInOrder` | Engine/Source/Programs/XBT/XBT.ActionGraph/ActionHistory.cs:481-513 | the partitions in order, each with its main map first |
| `ArchiveLayouts.MapLayout` | Engine/Source/Programs/XBT/XBT.ActionGraph/ActionHistory.cs:484-499 | a map as its size and each of its entries once, the paths increasing by their first differing byte |
| `ArchiveLayouts.EntryLayout` | Engine/Source/Programs/XBT/XBT.ActionGraph/CppDependencyCache.cs:941-954 | an entry as the path behind its length, and the digest, or the counted headers each behind its length |
| `Ordinal.Sort` | Engine/Source/Programs/XBT/XBT.ActionGraph/CppDependencyCache.cs:719-729 | holds exactly the paths of the input, increasing by the first differing byte, whatever the order and the repetitions |
| `Ordinal.IncreasingPrecedes` | Engine/Source/Programs/XBT/XBT.ActionGraph/CppDependencyCache.cs:723-729 | what an increasing list is, by first differing bytes |
| `Ordinal.SortedUnique` | Engine/Source/Programs/XBT/XBT.ActionGraph/CppDependencyCache.cs:723-729 | there is one increasing list of a set of paths |
| `Staleness.BuildMemory.IsActionOutdated` | Engine/Source/Programs/XBT/XBT.ActionGraph/ActionHistory.cs:256-360 | the early-return loops compute the disjunction of the five rules |
| `Staleness.OutdatedRules` | Engine/Source/Programs/XBT/XBT.ActionGraph/ActionHistory.cs:256-360 | the five rules over the three maps: an output missing or without this key, a prerequisite off its recorded hash, a recorded header without a hash or off it |
| `Staleness.BuildMemory.RecordSuccess` | Engine/Source/Programs/XBT/XBT.ActionGraph/ParallelExecutor.cs:475-591 | records the key of every output, the hash of every existing raw prerequisite and header, and for every raw prerequisite the discovered headers, each once and in increasing order; nothing else |
| `Builds.RecordedEntry` | Engine/Source/Programs/XBT/XBT.ActionGraph/ParallelExecutor.cs:475-591 | what such a recording does to the key, the hash and the header list of any one path |
| `Staleness.BuildMemory.RecordDependencies` | Engine/Source/Programs/XBT/XBT.ActionGraph/CppDependencyCache.cs:714-733 | the list of every source is increasing by the first differing byte and holds exactly the discovered headers; other lists are kept |
| `Builds.RecordInv` | Engine/Source/Programs/XBT/XBT.ActionGraph/ParallelExecutor.cs:475-583 | a recording keeps the build invariant and every hash that was right and settled, from any starting memory |
| `Builds.SkipInv` | Engine/Source/Programs/XBT/XBT.ActionGraph/ParallelExecutor.cs:332-337 | so does skipping an action that is not outdated |
| `Builds.WriteInv` | Engine/Source/Programs/XBT/XBT.ActionGraph/ParallelExecutor.cs:425-472 | so does an action that writes its own outputs |
| `Builds.HashedStaysAccurate` | Engine/Source/Programs/XBT/XBT.ActionGraph/ParallelExecutor.cs:497-528 | a hash taken at any event is that of the file for the rest of the build |
| `Builds.ListAtEvent` | Engine/Source/Programs/XBT/XBT.ActionGraph/ParallelExecutor.cs:543-583 | a header list is the one from before the build until an event replaces it, and from then on what some event has discovered |
| `NullBuilds.OutdatedAfterBuild` | Engine/Source/Programs/XBT/XBT.ActionGraph/ActionHistory.cs:256-360 | whatever the starting memory and the order of events, an action that has succeeded is outdated exactly if a file it lists has an old hash that is wrong, or a header in its list an old hash that is wrong or missing, old meaning taken by no event of the build |
| `NullBuilds.FreshBuild` | Engine/Source/Programs/XBT/XBT.ActionGraph/ActionHistory.cs:88-102 | a build that starts without hashes and header lists, and discovers existing headers, leaves nothing outdated |
| `NullBuilds.RefreshesExactly` | Engine/Source/Programs/XBT/XBT.ActionGraph/ParallelExecutor.cs:475-583 | right after its recording an action is up to date exactly if the recording hashed again each listed file whose hash was wrong and each changed header of its lists |
| `NullBuilds.NullBuild` | Engine/Source/Programs/XBT/XBT.ActionGraph/ActionHistory.cs:256-360 | from a tidy memory, with discovered headers that exist, in any order the prerequisites allow: an action that was skipped, or whose recording refreshed what it lists, stays up to date to the end |
| `NullBuilds.SteadyActionRefreshes` | Engine/Source/Programs/XBT/XBT.ActionGraph/ParallelExecutor.cs:475-583 | told from the starting memory: a recording refreshes if each listed file with a hash is an existing raw file or a discovered one, and each with a header list is a source whose list is replaced |
| `NullBuilds.TidyAfterRecord` | Engine/Source/Programs/XBT/XBT.ActionGraph/ParallelExecutor.cs:543-583 | a recording keeps the memory tidy exactly if the discovered headers are raw or made by ancestors of every action that lists the source |
| `NullBuilds.EveryBuildIsNull` | Engine/Source/Programs/XBT/XBT.ActionGraph/ActionHistory.cs:256-360 | over any number of consecutive builds, with edits of files and commands in between, each starting from the memory of the one before: the null build holds after every one |
| `NullBuilds.OutdatedExactly` | Engine/Source/Programs/XBT/XBT.ActionGraph/ActionHistory.cs:256-360 | an up-to-date action is outdated on another file system exactly if one of its outputs is missing there or a file it tracks is missing or different |
| `NullBuilds.EditedSourceIsSeen` | Engine/Source/Programs/XBT/XBT.ActionGraph/ActionHistory.cs:293-309 | editing or deleting a raw prerequisite of an action that has run in the build makes every action that lists it outdated, whatever else changes and whatever the starting memory |
| `NullBuilds.EditedSourceIsSeenLater` | Engine/Source/Programs/XBT/XBT.ActionGraph/ActionHistory.cs:256-309 | over any number of consecutive builds from a memory without keys: if an action with an output is done in the last one, recorded or skipped, editing or deleting a raw prerequisite that was there all the time makes every action that lists it outdated |
| `NullBuilds.EditedHeaderIsSeen` | Engine/Source/Programs/XBT/XBT.ActionGraph/ActionHistory.cs:321-355 | editing or deleting a header makes every action outdated whose prerequisites have it in their list, if the build hashed the header or left the action up to date |
| `ExecutedBuilds.LinkedPlanIsValid` | Engine/Source/Programs/XBT/XBT.ActionGraph/ActionGraph.cs:148-223 | linking gives the plan of these theorems its edges: the plan is valid exactly if no output is shared and no key is zero |
| `ExecutedBuilds.RunningIsSupplied` | Engine/Source/Programs/XBT/XBT.ActionGraph/ParallelExecutor.cs:208-256 | an action that a worker runs has the successes of all its prerequisites behind it |
| `ExecutedBuilds.ExecutedIsBuild` | Engine/Source/Programs/XBT/XBT.ActionGraph/ParallelExecutor.cs:208-278 | what the actions do to files and memory along any executor run is a build |
| `ExecutedBuilds.ExecutedNullBuild` | Engine/Source/Programs/XBT/XBT.ActionGraph/ParallelExecutor.cs:208-278 | so the null build holds for linked actions under any schedule and any number of workers |
| `ExecutedBuilds.SuccessfulRunLeavesNothing` | Engine/Source/Programs/XBT/XBT.ActionGraph/ParallelExecutor.cs:168-278 | and when a run of an acyclic graph without failures can go no further, no action at all is outdated |
| `ExecutedBuilds.SortedBuildLeavesNothing` | Engine/Source/Programs/XBT/XBT.ActionGraph/ParallelExecutor.cs:151-278 | the same with nothing assumed about cycles or shared outputs: actions that link, sort and all succeed leave nothing outdated |
| `BuildLimits.SecondConsumerIsMissed` | Engine/Source/Programs/XBT/XBT.ActionGraph/ParallelExecutor.cs:497-528 | the hash map is keyed by path: once one consumer of an edited file has recorded it again, another one is taken to be current |
| `BuildLimits.StaleHashOfProductPersists` | Engine/Source/Programs/XBT/XBT.ActionGraph/ParallelExecutor.cs:499-502 | a content hash left over on a path that is now produced keeps its consumer outdated after every success |
| `BuildLimits.HashOfDeletedSourcePersists` | Engine/Source/Programs/XBT/XBT.ActionGraph/ParallelExecutor.cs:497-528 | so does the hash of a listed source that no longer exists |
| `BuildLimits.UntidyHeaderIsMissed` | Engine/Source/Programs/XBT/XBT.ActionGraph/ParallelExecutor.cs:332-337 | a header in the list of an action, made by another one that need not come first: the action can be skipped before the header is made again, and is outdated afterwards |
| `BuildLimits.MissingHeaderPersists` | Engine/Source/Programs/XBT/XBT.ActionGraph/ParallelExecutor.cs:574-579 | a discovered header that does not exist gets no hash and keeps its action outdated |
| `BuildLimits.OrphanedHeaderListPersists` | Engine/Source/Programs/XBT/XBT.ActionGraph/ParallelExecutor.cs:543-567 | a header list without a dependency file to replace it keeps its consumer outdated once a header is gone |
| `BuildLimits.NothingProducedIsNeverRun` | Engine/Source/Programs/XBT/XBT.ActionGraph/ActionHistory.cs:256-360 | an action without outputs is up to date over a memory that knows none of its prerequisites, whatever the files |
| `BuildLimits.UnhashedSourceIsNotSeen` | Engine/Source/Programs/XBT/XBT.ActionGraph/ActionHistory.cs:293-299 | a file without a recorded hash is not looked at, so its edits do not force a rebuild |
| `Depfile.FindTargetSeparator` | Engine/Source/Programs/XBT/XBT.ActionGraph/CppDependencyCache.cs:491-520 | the first unescaped colon in front of white space or the end |
| `DepfileLayouts.SeparatorExactly` | Engine/Source/Programs/XBT/XBT.ActionGraph/CppDependencyCache.cs:491-520 | that is the first colon with an even number of backslashes directly in front of it and with a blank, tab, CR, LF or nothing behind it |
| `DepfileLayouts.ParsesExactly` | Engine/Source/Programs/XBT/XBT.ActionGraph/CppDependencyCache.cs:355-520 | a file is read as a list of tokens if and only if the text behind that colon is made of gaps, escaped blanks and backslashes, and other characters that stand for themselves, raw backslashes included, with these tokens between the gaps; without such a colon it is read as none |
| `Depfile.ParseClangMakefileDepfile` | Engine/Source/Programs/XBT/XBT.ActionGraph/CppDependencyCache.cs:355-470 | the index-driven tokeniser computes the tokens of the prerequisite region |
| `Depfile.ParseYieldsTokens` | Engine/Source/Programs/XBT/XBT.ActionGraph/CppDependencyCache.cs:355-470 | on any text every token is nonempty and free of tab, CR and LF |
| `Depfile.RoundTrip` | Engine/Source/Programs/XBT/XBT.ActionGraph/CppDependencyCache.cs:345-353 | a rendering with the documented escapes and any gaps parses back to exactly its paths if and only if the target has no colon in front of a tab or line break and, unless there is no path, the first gap does not begin with a line continuation |
| `Depfile.BodyAloneLoses` | Engine/Source/Programs/XBT/XBT.ActionGraph/CppDependencyCache.cs:491-520 | when the search passes over the colon of the target, it finds at most a later colon at the end of a path, and fewer tokens than paths come back |
| `Depfile.ContinuationHidesColon` | Engine/Source/Programs/XBT/XBT.ActionGraph/CppDependencyCache.cs:508-517 | a concrete file with a line continuation right behind its colon, for which no token comes back |
| `Depfile.SeparatorOfDirty` | Engine/Source/Programs/XBT/XBT.ActionGraph/CppDependencyCache.cs:491-520 | in such a target the search stops early, at a colon inside |
| `Depfile.Canonicalises` | Engine/Source/Programs/XBT/XBT.ActionGraph/CppDependencyCache.cs:355-470 | rendering the tokens of any text gives a text with the same tokens under that same condition, and only then |
| `Keys.Hasher.UpdateUtf8` | Engine/Source/Programs/XBT/XBT.ActionGraph/ExternalAction.cs:318-351 | feeds the length and the bytes, for empty texts too |
| `Keys.ExternalAction.ComputeCommandVersion` | Engine/Source/Programs/XBT/XBT.ActionGraph/ExternalAction.cs:257-316 | the digest of exactly the command stream |
| `Keys.ExternalAction.GetCommandVersion` | Engine/Source/Programs/XBT/XBT.ActionGraph/ExternalAction.cs:136-151 | cached or not, the value is that digest |
| `Keys.ExternalAction.ComputeActionKey` | Engine/Source/Programs/XBT/XBT.ActionGraph/ActionHistory.cs:139-195 | the digest of exactly the action-key stream |
| `Keys.ValidateSorted` | Engine/Source/Programs/XBT/XBT.ActionGraph/ExternalAction.cs:227-248 | accepts exactly the lists in which every entry precedes the later ones at the first differing byte, and otherwise names the first bad entry and whether it is a duplicate |
| `KeyStreams.CommandLayout` | Engine/Source/Programs/XBT/XBT.ActionGraph/ExternalAction.cs:257-351 | the command stream field by field: counts, lengths, the -1 of a missing response file and the flag byte |
| `KeyStreams.ActionLayout` | Engine/Source/Programs/XBT/XBT.ActionGraph/ActionHistory.cs:139-195 | the action-key stream part by part |
| `KeyStreams.CommandStreamInjective` | Engine/Source/Programs/XBT/XBT.ActionGraph/ExternalAction.cs:257-351 | two streams are equal exactly if all hashed fields are |
| `KeyStreams.ActionStreamInjective` | Engine/Source/Programs/XBT/XBT.ActionGraph/ActionHistory.cs:139-195 | the action-key stream gives back each of its parts |
| `KeyStreams.NullablePrefixFree` | Engine/Source/Programs/XBT/XBT.ActionGraph/ExternalAction.cs:278-287 | a missing response file, an empty one and any other are told apart, whatever follows |
| `KeyStreams.EqualKeysMeanEqualCommands` | Engine/Source/Programs/XBT/XBT.ActionGraph/ActionHistory.cs:139-195 | two actions with one key have equal hashed fields, or exhibit a hash collision |
| `KeyStreams.NewToolMeansNewKey` | Engine/Source/Programs/XBT/XBT.ActionGraph/ActionHistory.cs:145-166 | another schema or contract version changes every key, short of a collision |
| `SurfaceWriter.WriteCanonicalSurface` | Engine/Source/Programs/XBT/XBT.Manifest/ContractVersion.cs:126-230 | writes exactly the lines of the surface, exit codes in ascending order |
| `SurfaceWriter.TextsTellSurfacesApart` | Engine/Source/Programs/XBT/XBT.Manifest/ContractVersion.cs:95-120 | so two written texts are equal exactly if the surfaces are, up to the order of the exit codes |
| `SurfaceWriter.SortByCode` | Engine/Source/Programs/XBT/XBT.Manifest/ContractVersion.cs:177-182 | a permutation in ascending order of codes |
| `SurfaceText.SurfaceLayout` | Engine/Source/Programs/XBT/XBT.Manifest/ContractVersion.cs:126-230 | the lines of the surface in their order, with the tag of each section |
| `SurfaceText.UnlinesInjective` | Engine/Source/Programs/XBT/XBT.Manifest/ContractVersion.cs:126-230 | newline-free lines can be read back from the text |
| `SurfaceText.LinesInjective` | Engine/Source/Programs/XBT/XBT.Manifest/ContractVersion.cs:126-230 | the lines determine every section: enums, tagged rows and single lines cannot run into each other |
| `SurfaceText.TextDeterminesSurface` | Engine/Source/Programs/XBT/XBT.Manifest/ContractVersion.cs:126-230 | two surfaces have equal texts exactly if they are equal up to the order of the exit codes |
| `Decimal.IntTextInjective` | Engine/Source/Programs/XBT/XBT.Manifest/ContractVersion.cs:143-143 | different integers have different decimal texts |
| `Decimal.LeadingDigit` | Engine/Source/Programs/XBT/XBT.Manifest/ContractVersion.cs:143-143 | and no number but zero begins with a zero digit |

## Left out

- Token positions, lines and columns, and the wording of error messages.
- Unicode tables: which characters are letters or digits is a parameter that agrees with ASCII; so are the two case mappings.
- Exceptions that escape a worker: the oracle takes it that running an action returns. The staleness check and the creation of output directories (ParallelExecutor.cs lines 332-360) stand in front of the `try`; if one of them throws, the action gets no result, the queue is never closed, and `Schedules.EveryRunCompletes` and `Executors.Executor.Execute` do not apply.
- Cancellation, grace periods and the accounting of a queue closed early.
- Process spawning, job objects, response files, temporary files and their renaming, file-system retries and locks.
- The duplicate-producer warning of `Link`, and the conversion of a cycle from actions to descriptions.
- The MSVC JSON dependency files; path-length checks; validation of action types other than the sorted lists.
- TOML, JSON and descriptor parsing, the tier matrix, plugins, versions, the logger and the command line.
- The mapping from a path to its partition: the archives keep 256 maps, the staleness model one map of each kind.
- Decoding of byte strings that are not well-formed UTF-8, and the difference between UTF-16 and byte order for texts beyond the basic plane; in expressions a character counts as one unit.
- `Diagnostics.MissingElse`: this and the other laws on parse errors are about a fault at the front of the input; deeper inside an expression the parser's functions alone say which fault is reported first.
- `KeyStreams.CommandLayout`: spelled out for two arguments and one component; for other lists the count and the texts follow in the same way.
- `SurfaceText.SurfaceLayout`: spelled out for two exit codes and one entry in every other section.
- `ArchiveLayouts.EntryLayout`: spelled out for two headers.
- `FileItem` memoisation: a content hash is always that of the current content.
- `Staleness.BuildMemory.RecordSuccess`: one step, without other workers in between, and without read failures while hashing.
- `NullBuilds.NullBuild`: every action uses the history, no file has two producers, no action writes outside its outputs, and a dependency file lists files that are raw or made by the action or its ancestors.
- `ExecutedBuilds.ExecutedIsBuild`: the commands of an action are two events, the writing and the recording, or one, the skip; what it reads meanwhile is not an event.
- `SurfaceWriter.WriteCanonicalSurface`: distinct exit codes only, since the library sort leaves the order of equal codes open, and integers in invariant-culture text.
- `SurfaceWriter.SortByCode`: an insertion sort in place of the library's array sort.
- `Executors.Executor.Execute`: the workers' turns are chosen by a nondeterministic loop, not by threads.
- `Archives.Archive.Save`: the bytes written, not the temporary file, the flush and the rename around them.
- `Ordinal.Sort`: an insertion in place of the library's distinct and order-by chain.
