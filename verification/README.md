# Verified model of the agent runtime's hard core

The project models five parts of the runtime that share no state and proves
what each is meant to guarantee, for all inputs, all graphs, all interleavings
and all runs.

**Causal search** (`CausalStore`, `CausalWeights`, `Graphs`, `CausalSearch`,
`PathLikelihood`, `BoundedSearch`). A mutable store counts observations and propagations; four
searches run over the weights it derives. The pruned depth-first search is
proved to return the best product over *all* walks, which is sound only because
the store keeps every weight in (0,1]; the two unbounded breadth-first searches
and the depth-limited one are proved against walks in the same graph. How likely the
reported paths are, against other walks and against the depth-first value, is
characterised exactly.

**Transcript compression** (`ToolResults`, `ContextWindow`). One deque of tool
results serves all concurrent sessions; it is proved to behave like one private
compressor per session, and exactly which entries are summarised is stated on
the history of calls. The window manager is proved to cut a transcript only
between tool-call groups and to leave no orphaned tool message; where it does
not, the exact condition is given.

**Checkpoints** (`CheckpointState`, `Retention`, `CheckpointStore`,
`CheckpointRuns`, `CheckpointEviction`, `CheckpointInterleaving`). The manager is a transition system over a durable store.
An invariant over every run of creates, deletes and registrations gives the
retention bound, the provenance of every receipt, and what a restore finds; a
second one does so for agents that interleave between reading, writing and
pruning.

**Scanners** (`Text`, `JsonExtract`, `PythonCalls`, `PythonOpen`). Two
hand-written character machines with quote, escape and nesting state are proved
to invert printing, the argument splitter to accept printed calls only; the
classification of Python `open(` calls is proved exact.

**Leases and bounded arithmetic** (`WorkspacePaths`, `Leases`,
`StructuralEmbedding`). Leases that
do not conflict isolate the writes they authorise; the structural embedding
stays strictly inside the unit ball and ignores the order of its features.

`Options`, `Products`, `Sums` and `Sorting` hold what several parts share.

## Conventions

* Single-precision and double-precision numbers are `real`, counters are `nat`.
* Texts are sequences of characters, and offsets are character offsets. The
  byte scanners of the code look for ASCII delimiters only, so they stop at the
  same characters. Only the contents of tool results stand for bytes, one
  character each, because their length is compared in bytes.
* Hash maps yield their entries in any order. A vector filled from one is
  modelled as a map or a set; where the order is then fixed by a sort, the
  sorted sequence is modelled.
* Time is a counter that grows with every checkpoint, and identifiers of new
  records are fresh. Summary texts, the keep ratio, the hash and the square
  root are parameters: the theorems hold for every choice.
* A mutable reference handed down a recursion or a loop is passed in and handed
  back.
* Methods that update state carry their whole effect in `ensures`, as a function
  of the old state; the lemmas are about those functions.

## Where the code differs from its documentation

* `extract_candidates` says it walks the graph backwards. It follows edges from
  source to target, and the scoring search follows them in that direction too.
  `CausalSearch.CausalEngine.ExtractCandidates` states what it does: forward
  reachability. `BoundedSearch.CauseIsNoCandidate` is an input on which a skill
  that leads to the observed one is no candidate, and
  `BoundedSearch.CandidatesAreCausesExactlyWhen` says that the two sets agree,
  for all observations, exactly when every dependency edge has a way back.
* Path reconstruction promises the most likely path. It takes one with the
  fewest edges. `PathLikelihood.DetourIsLikelier` is an input on which a detour
  has weight 1 and the reported path one half;
  `PathLikelihood.ReportsMostLikelyExactlyWhen` says that the promise holds,
  whatever has been recorded, exactly when there is only one way.
* The two searches follow different edge kinds, so a reported path can be more
  confident than the depth-first value (`CausalSearch.ConfidenceCanExceedBest`).
  `PathLikelihood.ConfidenceBoundedExactlyWhen` says when it never is.
* The adjustment of a compression boundary can move it in front of a system
  message that itself carries tool calls, and the slice of the middle part then
  fails: `ContextWindow.SystemCallFails` is an input,
  `ContextWindow.FailsExactlyWhen` the exact condition.
* The tail behind an immutable prefix is said to be kept unchanged. A prefix
  that ends inside a tool-call group costs answers their role:
  `ContextWindow.AnswerLosesItsRole` with `ContextWindow.CallAndAnswer` is an
  input, `ContextWindow.TailIsKeptExactlyWhen` the exact condition and effect.
* The results of one turn are meant to be summarised together. When a turn
  number comes back they are not: `ToolResults.ReturningTurnIsSplit` is an input,
  `ToolResults.NeverSplitExactlyWhen` the exact condition on the calls.
* Retention keeps the newest records, commits or not: twenty newer in-flight
  records evict the newest commit, and the task then has no base at all.
  `CheckpointEviction.CommitCanBeEvicted` is such a run,
  `CheckpointRuns.SiblingsShareTheCommit` the exact condition.

## Model

| member | source | states |
|---|---|---|
| `CausalStore.CausalModelStore.RecordObservation` | src/causal/store.rs:50-80 | keeps the error index, the profiles and the edge counts equal to the occurrences in the history, extended by this observation and its propagation |
| `CausalStore.CausalModelStore.RecordPropagation` | src/causal/store.rs:82-87 | counts one more propagation; nothing else changes |
| `CausalStore.CausalModelStore.BumpIndex` | src/causal/store.rs:50-80 | raises one skill's count under one signature, appending it only if absent; all other counts stay and no skill is listed twice |
| `CausalStore.CausalModelStore.SetPrior` | src/causal/store.rs:91-94 | stores the value in [0.001, 0.999] closest to the given one; no other prior changes |
| `CausalStore.CausalModelStore.UpdatePriorsFromSuccessRates` | src/causal/store.rs:98-107 | priors are the clamped shares of the failure mass, a later entry for a skill winning |
| `CausalStore.LastRateDecides` | src/causal/store.rs:98-107 | the last rate of a skill decides: its prior is closest in the range to its share of the failure mass |
| `CausalStore.NoRateKeepsPrior` | src/causal/store.rs:98-107 | a skill without a rate keeps its prior |
| `CausalStore.CausalModelStore.Clear` | src/causal/store.rs:218-223 | empties the index, the profiles, the edges, the priors and the history |
| `CausalStore.CausalModelStore.FindSkillsByError` | src/causal/store.rs:113-118 | a skill is listed with a count exactly if it was seen with the signature, that many times; each once, by falling count |
| `CausalStore.CausalModelStore.PropagationProbability` | src/causal/store.rs:131-147 | the share of the source's recorded propagations that go to the target, 0 when there are none |
| `CausalStore.CausalModelStore.OutgoingEdges` | src/causal/store.rs:150-179 | one entry per recorded edge of the source, its probability equal to the single query's |
| `CausalStore.CausalModelStore.AllPropagationEdges` | src/causal/store.rs:192-206 | every recorded edge with the probability the single query gives |
| `CausalStore.CausalModelStore.Prior` | src/causal/store.rs:182-184 | the stored prior, else 0.001 |
| `CausalStore.CausalModelStore.TotalObservations` | src/causal/store.rs:209-215 | the number of observations recorded since the last clear |
| `CausalStore.CausalModelStore.IndexesAgree` | src/causal/store.rs:50-80 | in every reachable state the index and the profiles hold the same count for every skill and signature, and no skill is listed twice |
| `CausalStore.ProbabilityInUnit` | src/causal/store.rs:131-147 | a propagation probability lies in [0,1], and is positive exactly for recorded propagations |
| `CausalStore.ProbabilitiesSumToOne` | src/causal/store.rs:150-206 | the probabilities of a source with recorded edges sum to 1 |
| `CausalStore.TotalsFollowLog` | src/causal/store.rs:131-147 | the total of a skill's edges is how often the history propagates out of it |
| `Graphs.BuildAdjacency` | src/causal/engine.rs:109-135 | the adjacency list of the edges of the chosen kinds, in input order |
| `Graphs.ArcsAreEdges` | src/causal/engine.rs:109-135 | the lists hold an arc from one node to another exactly when a kept edge says so |
| `Graphs.KindsFollowed` | src/causal/engine.rs:109-216 | which edge kinds the candidate search follows, which the depth-first search, and which both |
| `Graphs.KindsParsed` | src/causal/engine.rs:383-399 | known kinds are told apart, every other name counts as `Related` |
| `Graphs.CutCycle` | src/causal/engine.rs:226-263 | cutting a cycle out of a walk leaves a walk with the same ends |
| `Graphs.ShortestIsSimple` | src/causal/engine.rs:305-344 | a walk no longer than any other between its ends repeats no node |
| `Graphs.ReachWithinUniverse` | src/causal/fused.rs:288-320 | whatever can be reached can be reached in fewer steps than there are nodes, or in none |
| `CausalWeights.SimpleDominates` | src/causal/engine.rs:226-263 | for every walk there is one without repeated nodes that weighs at least as much: why `visited` loses nothing |
| `CausalWeights.EffectiveIsShare` | src/causal/engine.rs:248-249 | times the total recorded out of its source, the weight of a recorded edge is its count; an unrecorded edge weighs one half |
| `CausalWeights.EffectiveFollowsLog` | src/causal/engine.rs:248-249 | the same on the history the store has seen |
| `CausalWeights.WeightFollowsLog` | src/causal/engine.rs:226-263 | the weight of every walk is the product of how often its steps were taken over the product of how often its nodes were left, an unrecorded step counting as 1 of 2 |
| `CausalWeights.SuffixWeighsMore` | src/causal/engine.rs:226-236 | dropping the front of a walk never lowers its weight: why a prefix product bounds what follows |
| `CausalWeights.BestWeightUnique` | src/causal/engine.rs:196-224 | there is at most one best product between two nodes |
| `CausalWeights.BestWeightExists` | src/causal/engine.rs:196-224 | and there is one, although there may be infinitely many walks |
| `CausalSearch.PruningIsSound` | src/causal/engine.rs:226-236 | when the product so far does not beat the best, nothing beyond it can |
| `CausalSearch.FollowedArc` | src/causal/engine.rs:240-258 | searching one neighbour covers all walks through it and loses none covered before |
| `CausalSearch.CausalEngine.Propagate` | src/causal/engine.rs:226-263 | restores `visited`; the new best covers every walk that avoids `visited`, and is the old one or attained; terminates on the unvisited nodes |
| `CausalSearch.CausalEngine.MaxPropagationProbability` | src/causal/engine.rs:196-224 | exactly the maximum over all walks of the product of effective weights; 1 for equal ends, 0 for unregistered or unconnected ones |
| `CausalSearch.CausalEngine.BfsShortestPath` | src/causal/engine.rs:305-344 | none exactly when the target is unreachable; else a chain of real edges with their kinds and weights that repeats no node and is no longer than any other |
| `CausalSearch.FirstSightIsShortest` | src/causal/engine.rs:320-340 | the chain on which the breadth-first search first meets the target is a shortest one |
| `CausalSearch.ChainIsWalk` | src/causal/engine.rs:305-344 | a chain of hops is a walk of the graph whose arcs exist with the recorded kind |
| `CausalSearch.ConfidenceIsWeight` | src/causal/engine.rs:288-300 | the confidence of a chain is the weight of its walk |
| `CausalSearch.ConfidenceWithinBest` | src/causal/engine.rs:196-303 | on graphs of propagating kinds between registered nodes, no chain at all, shortest or not, is more confident than the depth-first value |
| `CausalSearch.ConfidenceCanExceedBest` | src/causal/engine.rs:196-303 | with a `Generalization` edge that bound fails: the concrete input |
| `PathLikelihood.MostLikelyExactlyWhen` | src/causal/engine.rs:27-28 | a way without repeats weighs the most under all recordings exactly when it is the only one between its ends |
| `PathLikelihood.OtherWayIsLikelier` | src/causal/engine.rs:27-28 | with the steps of another way recorded, that way has weight 1 and the first at most one half |
| `PathLikelihood.ReportsMostLikelyExactlyWhen` | src/causal/engine.rs:266-344 | every chain the path search may report is as likely as any walk, whatever has been recorded, exactly when there is one way without repeats |
| `PathLikelihood.DetourIsLikelier` | src/causal/engine.rs:266-344 | an input on which the reported path has confidence one half and a detour weight 1 |
| `PathLikelihood.ConfidenceBoundedExactlyWhen` | src/causal/engine.rs:196-303 | no reported path ever exceeds the depth-first value exactly when every edge between two nodes joins registered ones and has a propagating edge beside it |
| `CausalSearch.CausalEngine.ExtractCandidates` | src/causal/engine.rs:109-156 | exactly the nodes reachable from an observed one over dependency edges, minus the observed ones |
| `CausalSearch.CausalEngine.ReconstructPaths` | src/causal/engine.rs:266-303 | one shortest chain for every reachable observation other than the candidate, in order, with its confidence |
| `CausalSearch.CausalEngine.ComputePosterior` | src/causal/engine.rs:159-192 | prior times the product of the best products to the observations, 0.01 for each unreachable one |
| `CausalSearch.ObservationScales` | src/causal/engine.rs:159-192 | one more observation multiplies the likelihood by the best product to it, by 0.01 when nothing propagates there, and not at all for the candidate itself |
| `CausalSearch.CausalEngine.InferRootCause` | src/causal/engine.rs:48-103 | the `topK` most confident of the scored candidates, by falling confidence: each result is scored as stated, roots are distinct, and no candidate left out beats one returned |
| `CausalSearch.TopRanked` | src/causal/engine.rs:85-103 | cutting the sorted scores keeps the best, without repeats |
| `BoundedSearch.BfsFrom` | src/causal/fused.rs:288-320 | the level loops compute the level-by-level specification |
| `BoundedSearch.SweepIsExact` | src/causal/fused.rs:301-318 | after each level, the frontier is exactly the nodes at that distance and `visited` the ones within it |
| `BoundedSearch.WithinIsExact` | src/causal/fused.rs:288-320 | the result lists exactly the nodes at shortest distance 1 to depth, each once |
| `BoundedSearch.WithinIsOrdered` | src/causal/fused.rs:288-320 | in non-decreasing distance |
| `BoundedSearch.DeeperExtends` | src/causal/fused.rs:288-320 | a deeper traversal starts with the shallower one |
| `BoundedSearch.DeepEnoughFindsAll` | src/causal/fused.rs:288-320 | from a depth of the node count on, all reachable nodes are found |
| `BoundedSearch.CandidatesAreDeepTraversal` | src/causal/engine.rs:109-156 | for one observation and dependency edges only, the candidates are the deep bounded traversal |
| `BoundedSearch.CandidatesAreCausesExactlyWhen` | src/causal/engine.rs:105-156 | the candidates are the skills that lead to an observed one, for all observations, exactly when every dependency edge has a way back |
| `BoundedSearch.CauseIsNoCandidate` | src/causal/engine.rs:105-156 | an input on which they are not: one prerequisite edge, its target observed |
| `ToolResults.ToolResultCompressor.AddResult` | src/core/context_compressor.rs:85-114 | appends the entry and compacts its session once it has reached the trigger |
| `ToolResults.ToolResultCompressor.CompressOldResults` | src/core/context_compressor.rs:116-162 | summarises exactly the session's oversized, uncompressed entries outside the protected turns; everything else stays |
| `ToolResults.ToolResultCompressor.ProtectedTurns` | src/core/context_compressor.rs:135-143 | the turns the backward scan protects |
| `ToolResults.ToolResultCompressor.RemoveSession` | src/core/context_compressor.rs:167-171 | afterwards the session has no entries and every other session has the ones it had, in order |
| `ToolResults.ProjectShrink` | src/core/context_compressor.rs:116-162 | compaction of one session is invisible in every other and commutes with projection in its own |
| `ToolResults.ProjectWithout` | src/core/context_compressor.rs:167-171 | removing a session empties it and leaves every other as it is |
| `ToolResults.SessionsAreIsolated` | src/core/context_compressor.rs:85-171 | for every interleaving of adds and removals, a session's part of the shared deque is the state of a compressor that saw only its calls |
| `ToolResults.SessionMirrorsRecordings` | src/core/context_compressor.rs:85-162 | a session's entries are its recordings in order, each as recorded or summarised once from the original content |
| `ToolResults.ScanFindsNewest` | src/core/context_compressor.rs:135-143 | with non-decreasing turns, the backward scan finds the newest distinct turns |
| `ToolResults.FellBehindNow` | src/core/context_compressor.rs:103-142 | with non-decreasing turns, an entry was outside the protected turns at some compaction exactly when it is now |
| `ToolResults.CompressedExactlyWhen` | src/core/context_compressor.rs:85-162 | an entry is compressed exactly when its session reached the trigger, its turn is not among the newest, and its original content is too long |
| `ToolResults.SiblingsStayTogether` | src/core/context_compressor.rs:116-162 | of two oversized results of one turn, both are compressed or neither |
| `ToolResults.CallSplitsExactlyWhen` | src/core/context_compressor.rs:85-142 | in any run, whatever the order of turns, a call splits a turn exactly when it adds a long result to a turn its session has summarised |
| `ToolResults.NeverSplitExactlyWhen` | src/core/context_compressor.rs:85-142 | so no turn is split at any point of a run exactly when no call returns to a summarised turn |
| `ToolResults.ReturningTurnIsSplit` | src/core/context_compressor.rs:85-142 | with turns 1, 2, 1, one protected turn and long results, the first is a summary and its late sibling is not |
| `ContextWindow.AdjustedIsBoundary` | src/core/context_compressor.rs:853-872 | in a well-grouped transcript the adjusted cut splits no tool-call group |
| `ContextWindow.AdjustedIsLastBoundary` | src/core/context_compressor.rs:853-872 | it is the last group boundary at or before the cut |
| `ContextWindow.NamelessBoundaryStays` | src/core/context_compressor.rs:853-872 | a cut before a tool message without a call id, or with the empty one, stays |
| `ContextWindow.RemoveOrphanedToolMessages` | src/core/context_compressor.rs:877-911 | the loop computes the repair, message by message |
| `ContextWindow.RepairedAt` | src/core/context_compressor.rs:877-911 | a tool message becomes a user message exactly when no earlier assistant message carries its call; all others stay |
| `ContextWindow.RepairedExactlyWhen` | src/core/context_compressor.rs:877-911 | a tool message becomes a plain user message with its content exactly when no earlier assistant message has a call with its non-empty id |
| `ContextWindow.RepairIsSafe` | src/core/context_compressor.rs:877-911 | for every transcript: no orphans remain, every message stays or is a tool message turned into a user message, and the repair is the identity exactly when there was no orphan |
| `ContextWindow.FailsExactlyWhen` | src/core/context_compressor.rs:760-820 | the slice error occurs exactly when the boundary tool message answers a call carried by the leading system message alone |
| `ContextWindow.SystemCallFails` | src/core/context_compressor.rs:760-820 | an input on which it occurs: a system message with a call, a question, the answer to the call |
| `ContextWindow.CompressedHasNoOrphans` | src/core/context_compressor.rs:760-820 | whatever the transcript, a compressed one has no orphaned tool message |
| `ContextWindow.KeptFromIsBoundary` | src/core/context_compressor.rs:760-820 | both cuts fall between groups, and the recent messages lie behind them |
| `ContextWindow.CompressionCutsAtBoundary` | src/core/context_compressor.rs:760-872 | a well-grouped transcript becomes optional system, optional summary of exactly the dropped part, and an untouched suffix from a group boundary; never longer than before, repair changes nothing |
| `ContextWindow.CutFallsExactly` | src/core/context_compressor.rs:760-820 | where it cuts: the recent part starts at the last group boundary that leaves it enough messages; of the middle, the ratio, rounded down, is kept from the last boundary before it, none when that is 0 and all when it is everything |
| `ContextWindow.PrefixIsVerbatim` | src/core/context_compressor.rs:831-848 | for every transcript and length, the result is the prefix verbatim and then the compressed tail, and it fails exactly when the tail does |
| `ContextWindow.PrefixIsPreserved` | src/core/context_compressor.rs:831-848 | if the prefix ends at a group boundary, compression succeeds, adds no orphan and does not lengthen the transcript |
| `ContextWindow.TailIsKeptExactlyWhen` | src/core/context_compressor.rs:826-848 | behind a prefix of any length, the tail is kept unchanged exactly when what is kept starts at a group boundary; otherwise exactly the rest of the cut group comes back as user messages |
| `ContextWindow.AnswerLosesItsRole` | src/core/context_compressor.rs:826-848 | a prefix that ends with a call: the answer right behind it comes back as a user message |
| `ContextWindow.CallAndAnswer` | src/core/context_compressor.rs:826-848 | a transcript of that kind, which is well grouped |
| `JsonExtract.ExtractJson` | src/batch/extractor.rs:222-260 | the fenced block when it yields one, else the brace scan |
| `JsonExtract.ExtractedExactlyWhen` | src/batch/extractor.rs:222-236 | the text between the first opening fence and the next fence comes back, trimmed, exactly when it is an object or an array; in all other cases, opened fences included, the brace scan decides |
| `JsonExtract.MatchBraces` | src/batch/extractor.rs:233-258 | the character loop computes the brace scan |
| `JsonExtract.BareStartsAtFirstBrace` | src/batch/extractor.rs:233-258 | whatever is extracted starts at the first opening brace and ends at a closing one |
| `JsonExtract.SkipsValue` | src/batch/extractor.rs:236-256 | at any depth the scanner walks over any printed JSON value and is back in the state it was in |
| `JsonExtract.ScanItems` | src/batch/extractor.rs:238-249 | inside a string it walks over every character and every escape of section 7 of RFC 8259 |
| `JsonExtract.BareRoundTrip` | src/batch/extractor.rs:222-260 | text without brace, a printed JSON object, any text, and no fenced block in all of it: exactly the object comes back |
| `JsonExtract.FencedRoundTrip` | src/batch/extractor.rs:222-232 | a printed object or array in a fenced block comes back exactly |
| `PythonCalls.ParsePythonCallArguments` | src/core/effect.rs:717-817 | the byte loop computes the splitter, end of text and unbalanced closers included |
| `PythonCalls.SplitStep` | src/core/effect.rs:740-812 | one round of the loop is one move of the splitter |
| `PythonCalls.PassesPiece` | src/core/effect.rs:740-812 | the splitter walks over any nested group, quoted string, escape and comment without cutting it |
| `PythonCalls.SplittingInvertsPrinting` | src/core/effect.rs:717-817 | the printed call gives back its trimmed non-blank top-level arguments and the index past its parenthesis, whatever follows |
| `PythonCalls.SplitsExactlyCalls` | src/core/effect.rs:717-817 | it accepts exactly the texts that are a printed call, in every source and at every position, and answers exactly with what was printed |
| `PythonOpen.StringLiteralExact` | src/core/effect.rs:914-954 | an expression parses as a literal with a body exactly when it is prefix letters, a quote, that body without backslashes, and the quote |
| `PythonOpen.ReadModeExactlyWhen` | src/core/effect.rs:891-908 | a mode reads exactly when it is a literal of `r`, `b` and `t` in either case with at least one `r` |
| `PythonOpen.WritingTextIsNoRead` | src/core/effect.rs:891-908 | a literal with a `w`, `a`, `x` or `+` anywhere is no read mode |
| `PythonOpen.ClassifyPythonOpenArguments` | src/core/effect.rs:819-874 | read-only exactly when no argument expands or opens differently, keywords come last, and the mode is absent or a read literal given once |
| `PythonOpen.OnlyReadsExactlyWhen` | src/core/effect.rs:819-874 | the same condition on the printed texts of the arguments alone |
| `PythonOpen.PythonOpenSignature` | src/core/effect.rs:640-666 | the mode comes second exactly in a call with no dot or a module name before it, and first exactly on a path object |
| `PythonOpen.SignatureExactlyWhen` | src/core/effect.rs:640-666 | the same of the backward scan: what stands before the call is split into white space, dot, white space and last word in one way only |
| `PythonOpen.KeywordArgumentExact` | src/core/effect.rs:876-889 | the keyword parser accepts exactly the texts `name = value`, with any white space around the sign and the value, and gives back both parts |
| `PythonOpen.IsPathConstructorReceiver` | src/core/effect.rs:668-712 | true exactly when some `Path(` call ends right before the receiver's end |
| `PythonOpen.NothingSkipped` | src/core/effect.rs:584-634 | advancing past a hit skips no occurrence |
| `PythonOpen.ClassifyPythonOpenEffect` | src/core/effect.rs:584-634 | read-only exactly when there is an identifier-bounded `open(` and every one, nested ones too, parses and can only read; one that fails decides against |
| `PythonOpen.CallExactlyWhen` | src/core/effect.rs:584-634 | a call is seen exactly where the name stands, no identifier character touches it, and a parenthesis follows after ASCII white space |
| `PythonOpen.WritingOpenIsUnsafe` | src/core/effect.rs:584-634 | an `open(` call whose mode, by position or by name, is a literal that asks to write is never safe, so the source is not read-only |
| `WorkspacePaths.NormalizedIsNormal` | src/core/effect.rs:193-216 | an accepted text becomes a path of names, and the text of that path normalises to itself |
| `WorkspacePaths.RenderedNormalizes` | src/core/effect.rs:193-216 | every path of names comes back from its text |
| `WorkspacePaths.DotsMatter` | src/core/effect.rs:193-216 | a `.` behind the first component changes nothing; in front, and `..` anywhere, the text is refused |
| `WorkspacePaths.SeparatorsMatter` | src/core/effect.rs:193-216 | repeated separators count as one; the empty text and absolute paths are refused |
| `WorkspacePaths.DeclaredExactlyWhen` | src/core/effect.rs:273-286 | a declared text is refused exactly for a wildcard, a separator at its end, or what a relative path is refused for |
| `WorkspacePaths.RenderInjective` | src/core/effect.rs:74-84 | different paths have different texts, so merging by text is merging by path |
| `Leases.NewLease` | src/core/effect.rs:41-92 | refused exactly for a blank id, an unusable root, no paths, or a path that is no exact path below the root; else every declared path once, with its strongest access, sorted by text |
| `Leases.MergePath` | src/core/effect.rs:66-84 | strengthens the entry of a path or appends one |
| `Leases.CanonicalIsSorted` | src/core/effect.rs:66-92 | the paths of a lease come in the lexicographic order of their texts |
| `Leases.GrantsExactlyDeclared` | src/core/effect.rs:66-191 | a new lease authorises the file tools on exactly the paths that some declaration asks to write or to hold exclusively |
| `Leases.AuthorizationLimits` | src/core/effect.rs:94-156 | file tools are refused under an incomplete lease or without a path; other tools pass untouched |
| `Leases.CanonicalUnique` | src/core/effect.rs:66-92 | one set of declared accesses has one sorted listing |
| `Leases.DeclarationOrderIrrelevant` | src/core/effect.rs:66-92 | every permutation of the declared texts gives the same lease |
| `Leases.ConflictIsSymmetric` | src/core/effect.rs:167-178 | conflict does not depend on the side |
| `Leases.ConflictExactlyWhen` | src/core/effect.rs:167-178 | two complete leases conflict exactly when their roots differ or something one authorises can be seen at a path the other declares, read ones included |
| `Leases.NoConflictHidesWrites` | src/core/effect.rs:167-178 | without a conflict, no sequence of operations of one lease changes content, existence or reachability of any path the other declares |
| `Leases.ReadsUntouched` | src/core/effect.rs:312-316 | an operation on a path that does not overlap changes nothing another one reads |
| `Leases.OperationsCommute` | src/core/effect.rs:312-316 | two operations on paths that do not overlap commute on every workspace |
| `Leases.InterleavingIsSequential` | src/core/effect.rs:124-178 | every interleaving of two sides on separate paths leaves the workspace, and gives the outcomes, of one side after the other |
| `Leases.NoConflictMeansIsolation` | src/core/effect.rs:124-178 | the same for any operations authorised by two leases that do not conflict |
| `Leases.OverlappingWritesClash` | src/core/effect.rs:312-316 | writes to overlapping paths depend on their order, also when one path lies inside the other |
| `Leases.CommuteExactlyWhenApart` | src/core/effect.rs:167-191 | authorised operations commute on all workspaces exactly when no writable paths overlap |
| `StructuralEmbedding.FallbackStructuralEmbeddingService.Accumulate` | src/ontology_bridge.rs:202-228 | adds each feature's weight to its bucket in place |
| `StructuralEmbedding.FallbackStructuralEmbeddingService.Rescale` | src/ontology_bridge.rs:226-232 | multiplies the vector in place |
| `StructuralEmbedding.FallbackStructuralEmbeddingService.EmbedStructural` | src/ontology_bridge.rs:202-233 | the in-place computation yields the embedding specified bucket by bucket |
| `StructuralEmbedding.FeatureAdds` | src/ontology_bridge.rs:202-222 | one more tag, type or graph adds 0.15, 0.25 or 0.20 to its own bucket and nothing elsewhere |
| `StructuralEmbedding.NoFeatures` | src/ontology_bridge.rs:202-206 | without features there is 0.01 in the first bucket alone |
| `StructuralEmbedding.ScaledExactlyWhen` | src/ontology_bridge.rs:223-232 | a vector well inside the ball stays; any other is shortened in its direction to just under 0.99 |
| `StructuralEmbedding.ScaledNorm` | src/ontology_bridge.rs:224-232 | scaling a vector scales its squared norm by the square |
| `StructuralEmbedding.InsideUnitBall` | src/ontology_bridge.rs:202-233 | the norm is below 1 for all features, every hash and every dimension |
| `StructuralEmbedding.OrderIrrelevant` | src/ontology_bridge.rs:202-233 | permuting tags or types changes nothing |
| `CheckpointState.MergeActions` | src/core/checkpoint.rs:1285-1308 | the loop over the caller's receipts computes the merge |
| `CheckpointState.MergedIsExact` | src/core/checkpoint.rs:1285-1308 | base in front untouched, exactly the ids of both, none twice |
| `CheckpointState.BuildState` | src/core/checkpoint.rs:1203-1334 | derivation and refusal of a resume state |
| `CheckpointState.AcceptedExactlyWhen` | src/core/checkpoint.rs:1203-1443 | on a committed base, a state is accepted exactly when what the caller hands in parses, suits the boundary, fits the transcript and names nodes of a valid plan |
| `CheckpointState.AcceptedTakesParts` | src/core/checkpoint.rs:1203-1334 | an accepted state takes DAG and summary from the caller first and else from the base, role, continuation and contract from the caller, counters, commitments and receipts as its boundary demands |
| `CheckpointState.ValidExactlyWhen` | src/core/checkpoint.rs:1336-1410 | what a stored state must be to be read back |
| `CheckpointState.InFlightInheritsBase` | src/core/checkpoint.rs:1203-1334 | an accepted in-flight state holds the base's receipts and then its own new ones; commitments, counters and DAG are the base's |
| `CheckpointState.CommitAcceptsItsReceipts` | src/core/checkpoint.rs:1203-1334 | an accepted commit holds exactly the caller's receipts, all committed, and can be resumed from |
| `CheckpointState.InFlightResumable` | src/core/checkpoint.rs:1445-1457 | an in-flight state can be resumed from exactly when none of its own new receipts is substantive |
| `Retention.NewestSize` | src/core/checkpoint.rs:727-739 | the newest within a limit are as many as the limit and the set allow |
| `Retention.NewestIsUpward` | src/core/checkpoint.rs:727-739 | what is newer than something kept is kept |
| `CheckpointStore.CheckpointManager.LatestCommittedRuntimeState` | src/core/checkpoint.rs:314-336 | the state of the newest stored commit of the task that can be restored, none exactly when there is none |
| `CheckpointStore.CommitExactlyWhen` | src/core/checkpoint.rs:314-336 | which records count as commits of a task |
| `CheckpointStore.RestoredExactlyWhen` | src/core/checkpoint.rs:1522-1563 | a record gives back its state exactly when it fits itself and its transcript and leaves no substantive effect open |
| `CheckpointStore.ListedExactlyWhen` | src/core/checkpoint.rs:606-633 | which records are candidates |
| `CheckpointStore.IriReads` | src/core/checkpoint.rs:433-439 | how a record's identifier is made of task, kind and unique part |
| `CheckpointStore.CheckpointManager.CreateCheckpoint` | src/core/checkpoint.rs:413-543 | one transition: the record built on the newest commit, stored, its kind pruned; refusals change nothing |
| `CheckpointStore.CheckpointManager.PruneOldest` | src/core/checkpoint.rs:682-739 | removes exactly the matching records with twenty or more newer matching ones |
| `CheckpointStore.CheckpointManager.ListByKind` | src/core/checkpoint.rs:606-654 | the newest listed records of the kind up to the limit, strictly newest first |
| `CheckpointStore.CheckpointManager.RestoreTask` | src/core/checkpoint.rs:572-588 | the newest of those that can be resumed from, none exactly when none can |
| `CheckpointStore.CheckpointManager.DeleteCheckpoint` | src/core/checkpoint.rs:656-672 | removes one record; fails exactly when it is not stored |
| `CheckpointStore.CheckpointManager.RegisterTaskContract` | src/core/checkpoint.rs:252-277 | stores a valid contract for a named task, refuses others |
| `CheckpointRuns.PrefixGivesTask` | src/core/checkpoint.rs:716-731 | for tasks that do not nest, an identifier's prefix gives away its task |
| `CheckpointRuns.NextKeepsInv` | src/core/checkpoint.rs:413-543 | every operation keeps the invariant: keys, clock, soundness, retention bound, provenance |
| `CheckpointRuns.RunsKeepInv` | src/core/checkpoint.rs:413-543 | it holds at every point of every run |
| `CheckpointRuns.InFlightCarriesNewestCommit` | src/core/checkpoint.rs:1203-1334 | at every step of every run, an accepted in-flight record carries exactly the receipts of the newest commit then stored and its own, none twice, and that commit's commitments and counters |
| `CheckpointRuns.StoredWasCreated` | src/core/checkpoint.rs:413-543 | every stored record was created at some step, of that step's fields and contract and the newest commit then stored |
| `CheckpointRuns.InFlightCarriesHandedDag` | src/core/checkpoint.rs:1258-1279 | in every run, an in-flight record without a DAG carries the one handed in with the newest stored commit, and the empty one when there is none |
| `CheckpointRuns.NoSiblingLeak` | src/core/checkpoint.rs:310-336 | at every point of a run, a receipt in an in-flight record is its own or was committed earlier by its task: never a sibling's uncommitted one |
| `CheckpointRuns.PruneKeepsNewest` | src/core/checkpoint.rs:682-739 | pruning keeps exactly the newest records of the task and kind and touches no other |
| `CheckpointRuns.CreateKeepsNewest` | src/core/checkpoint.rs:413-543 | after a create the store holds exactly the newest records of the task and kind, at most twenty, the new one among them |
| `CheckpointRuns.RestoreFindsNewest` | src/core/checkpoint.rs:572-654 | despite its limit, a restore returns the newest resumable record of the whole store, none exactly when there is none, and never one with an uncommitted substantive action |
| `CheckpointRuns.OthersDoNotInterfere` | src/core/checkpoint.rs:682-739 | creating a record of another task or of the other kind leaves a task's runtime records as they are |
| `CheckpointRuns.RestoreUnaffectedByOthers` | src/core/checkpoint.rs:572-654 | so a restore finds the same record before and after |
| `CheckpointRuns.SiblingsShareTheCommit` | src/core/checkpoint.rs:314-336 | an in-flight create leaves its siblings' base as it is, unless the newest commit has twenty newer records: then no commit is left |
| `CheckpointEviction.CommitCanBeEvicted` | src/core/checkpoint.rs:682-739 | a run of one commit and twenty in-flight records, after which no base is left |
| `CheckpointInterleaving.InterleavingsAreSafe` | src/core/checkpoint.rs:473-540 | with any number of agents between reading the base, writing and pruning: keys, clock, soundness and provenance hold, what an agent has read was committed, and a task holds at most twenty records of a kind and one for each agent that has yet to prune |
| `CheckpointInterleaving.NoLeakBetweenAgents` | src/core/checkpoint.rs:310-336 | at every point of every interleaving, a receipt in an in-flight record is its own or was committed earlier by its task |
| `CheckpointInterleaving.WriteCarriesWhatWasRead` | src/core/checkpoint.rs:473-540 | an accepted in-flight record carries exactly its own receipts and those of the commit that was newest when its agent read the store |
| `CheckpointInterleaving.BoundedAtRest` | src/core/checkpoint.rs:682-739 | once no agent has its pruning outstanding, no task holds more than twenty records of a kind |

## Left out

- SPARQL, the RDF store, the graph library behind the backend, persistence, the model gateway and asynchronous tasks: input and output; the backend's nodes and edges are parameters.
- Rounding of machine floats and wrap-around of 32-bit counters: the model computes with `real` and `nat`.
- The text of summaries, the token estimates and the budgets built on them: no claim is made that compression lowers the token count.
- `compress_tool_messages`, routing identities and the content digest of a tool result: they rest on code that is not part of this model; the routing key and the session scope are given fields.
- The validation inside `TaskResumeContract` and the digests: a valid flag and an uninterpreted digest.
- `CheckpointRuns.RunsKeepInv`: assumes that no task's path is a path prefix of another's; the prefix scan of `prune_oldest` would otherwise count another task's records.
- `CheckpointStore.CheckpointManager.ListByKind`: filters the kind before it sorts and cuts; the code lists without a cut first and filters then, with the same result.
- The manager's in-memory index per task, its contract cache and the branch without a store: the durable store is the authority.
- `CheckpointInterleaving.InterleavingsAreSafe`: building and storing a record is one step, and so are the scan and the deletions of one pruning; agents interleave between these steps, not within them.
- Scan limits of the durable store (100000 entries): taken as not reached.
- The diagnostic fields of a checkpoint (sizes, tags, nodes, anomalies): copied through, never read by the modelled code.
- `Leases.NewLease`: following links below the root is a parameter; the text of a declared path is normalised as the code does, for the separator `/`.
- Resolution of requested paths: authorisation starts from the components they resolve to.
- `Leases.OperationsCommute`: the file tools are modelled by what they read and write below the root; a call that fails may still have created directories, as the tools do.
- `CausalSearch.CausalEngine.InferRootCause`: the field that counts explained observations is always the number of observations in the code and is modelled so.
- `StructuralEmbedding.FallbackStructuralEmbeddingService.EmbedStructural`: requires a positive dimension; the code divides by it and fails on 0.
- `JsonExtract.BareRoundTrip`: the depth of the scan is an unbounded integer.
- The shell redirection scanner and the word lists around it: heuristics without a stated law.
- The fused report that combines the searches, the trace chain and the confidence formula: easy members.
