# Conformance evaluator of the HeuristicLab log-modelling problem

The log-modelling problem asks genetic programming to evolve a *process tree* that explains an event log. A process tree is a tree of control-flow operators over activity names:

- `seq` — the children in order;
- `xor` — exactly one child;
- `and` — the children in some order;
- `loop` — the children repeated as a sequence;
- `optional` — the single child or nothing.

Every other symbol name is an activity leaf.

This project models the evaluator that scores one candidate tree against the log. It proves properties of that model:

- **Trace extraction.** The three log columns (case id, timestamp, activity) are zipped into rows. The rows are grouped by case id, with groups in order of first appearance. Each group is ordered by timestamp with a stable sort, and only the activities are kept (`traces.dfy`).
- **Conformance matching.** A recursive descent over the tree consumes the case's activity trace from the front. Each call returns three things: whether the subtree is satisfied, the unconsumed suffix, and a processed-node count, which serves as a cost signal.
  - `conformance.dfy` states the matcher as functions.
  - `conformance_laws.dfy` proves its laws.
  - `evaluator.dfy` holds the methods `ValidateRec`, `ValidateSeq`, `ValidateLoop`, `ValidateOptional`, `ValidateXor`, `ValidateAnd`. Each is proved to compute exactly the matching function. `ValidateSeq`, `ValidateLoop` and `ValidateAnd` keep the program's loops and accumulators. `ValidateRec`, `ValidateOptional`, `ValidateXor` and the helper `ValidateEach` have no loop of their own. They repeat their matching functions and exist to carry the method-level descent to the loop methods.
- **Orderings for `and`.** The permutation enumerator yields orderings in blocks by first element, in input-index order (`permutations.dfy`).
- **Case verdicts and statistics.** A case validates when the match succeeds and consumes the whole trace. The statistics record counts the cases, the validating cases and the processed nodes. The fitness is the validating share plus `0.01 / processedNodes` (`statistics.dfy`, `evaluator.dfy`).

The process tree is `Node(name, children)`, and the matcher dispatches on the name as the program's `switch` does (`process_tree.dfy`). Timestamps are integers. Integers are unbounded. The fitness is computed over `real`.

## Model

| member | source | states |
|---|---|---|
| Conformance.Match | HeuristicLab.GeneticProgramming.Problems.LogModelling/Problem.cs:107-140 | Every match costs at least one node; EmptyTraceFails, LeafConsumesOne and MatchSuffix state the rest of its meaning |
| Conformance.MatchSeq | HeuristicLab.GeneticProgramming.Problems.LogModelling/Problem.cs:142-156 | A sequence costs at least one node (its own) |
| Conformance.MatchEach | HeuristicLab.GeneticProgramming.Problems.LogModelling/Problem.cs:190 | One result per child, result i being child i matched on the same suffix |
| Conformance.Positives | HeuristicLab.GeneticProgramming.Problems.LogModelling/Problem.cs:191 | The kept results are all valid and no more than the inputs |
| Conformance.SumProcessed | HeuristicLab.GeneticProgramming.Problems.LogModelling/Problem.cs:192 | No contract; the `Sum` of the results' costs, which MatchEachCosts equates with the children's costs on the shared suffix |
| Conformance.MatchXor | HeuristicLab.GeneticProgramming.Problems.LogModelling/Problem.cs:187-200 | An exclusive choice costs at least one node |
| Conformance.MatchAnd | HeuristicLab.GeneticProgramming.Problems.LogModelling/Problem.cs:202-217 | A parallel composition costs at least one node |
| Conformance.TryOrderings | HeuristicLab.GeneticProgramming.Problems.LogModelling/Problem.cs:208-216 | Trying orderings in turn costs at least one node |
| Conformance.MatchLoop | HeuristicLab.GeneticProgramming.Problems.LogModelling/Problem.cs:158-173 | A loop is always valid and costs at least one node |
| Conformance.MatchOptional | HeuristicLab.GeneticProgramming.Problems.LogModelling/Problem.cs:175-185 | An optional node is always valid and costs at least two nodes (the child's and its own) |
| ConformanceLaws.EmptyTraceFails | HeuristicLab.GeneticProgramming.Problems.LogModelling/Problem.cs:110 | On an empty suffix every node is invalid, leaves the empty suffix and costs 1 |
| ConformanceLaws.LeafConsumesOne | HeuristicLab.GeneticProgramming.Problems.LogModelling/Problem.cs:134-138 | A leaf is valid iff the head of the suffix is its name; it drops exactly one activity either way, at cost 1 |
| ConformanceLaws.MatchSuffix | HeuristicLab.GeneticProgramming.Problems.LogModelling/Problem.cs:107-140 | Every match leaves a suffix of its input |
| ConformanceLaws.SeqSuffix | HeuristicLab.GeneticProgramming.Problems.LogModelling/Problem.cs:142-156 | A sequence leaves a suffix of its input |
| ConformanceLaws.XorSuffix | HeuristicLab.GeneticProgramming.Problems.LogModelling/Problem.cs:187-200 | An exclusive choice leaves a suffix of its input |
| ConformanceLaws.AndSuffix | HeuristicLab.GeneticProgramming.Problems.LogModelling/Problem.cs:202-217 | A parallel composition leaves a suffix of its input |
| ConformanceLaws.TryOrderingsSuffix | HeuristicLab.GeneticProgramming.Problems.LogModelling/Problem.cs:208-216 | Trying orderings leaves a suffix of the input |
| ConformanceLaws.LoopSuffix | HeuristicLab.GeneticProgramming.Problems.LogModelling/Problem.cs:158-173 | A loop leaves a suffix of its input |
| ConformanceLaws.OptionalSuffix | HeuristicLab.GeneticProgramming.Problems.LogModelling/Problem.cs:175-185 | An optional node leaves a suffix of its input |
| ConformanceLaws.SeqAppend | HeuristicLab.GeneticProgramming.Problems.LogModelling/Problem.cs:142-156 | Matching children `a + b` in sequence is matching `a`, then, if `a` succeeded, `b` on what `a` left, the costs adding up with one own node |
| ConformanceLaws.SeqSingleton | HeuristicLab.GeneticProgramming.Problems.LogModelling/Problem.cs:142-156 | A one-child sequence matches like its child at one more node |
| ConformanceLaws.SeqEmptyAccepts | HeuristicLab.GeneticProgramming.Problems.LogModelling/Problem.cs:145-147 | A sequence without children is valid, consumes nothing and costs 1 |
| ConformanceLaws.SeqStopsAtFailure | HeuristicLab.GeneticProgramming.Problems.LogModelling/Problem.cs:148-154 | The first failing child ends the sequence: later children are not visited, and the result is the failing child's suffix at 1 plus the visited children's costs |
| ConformanceLaws.PositivesNone | HeuristicLab.GeneticProgramming.Problems.LogModelling/Problem.cs:191 | No result is kept iff no result is valid |
| ConformanceLaws.PositivesSingle | HeuristicLab.GeneticProgramming.Problems.LogModelling/Problem.cs:191-196 | Exactly one result is kept iff exactly one result is valid, and then it is that result |
| ConformanceLaws.MatchEachCosts | HeuristicLab.GeneticProgramming.Problems.LogModelling/Problem.cs:192 | The summed costs are the children's costs on the shared suffix |
| ConformanceLaws.XorExactlyOne | HeuristicLab.GeneticProgramming.Problems.LogModelling/Problem.cs:187-200 | Exclusive choice is valid iff exactly one child is valid on the same suffix, and then it leaves that child's suffix; otherwise it leaves the input suffix; it costs 1 plus the costs of all children |
| ConformanceLaws.TryOrderingsValid | HeuristicLab.GeneticProgramming.Problems.LogModelling/Problem.cs:208-216 | Trying orderings succeeds iff some ordering matches as a sequence |
| ConformanceLaws.TryOrderingsFirst | HeuristicLab.GeneticProgramming.Problems.LogModelling/Problem.cs:208-214 | The first ordering that matches decides the suffix; the cost is 1 plus the sequence costs of it and every ordering before it |
| ConformanceLaws.TryOrderingsFail | HeuristicLab.GeneticProgramming.Problems.LogModelling/Problem.cs:216 | When no ordering matches, the input suffix is kept and every ordering is paid for |
| ConformanceLaws.AndFirstSuccess | HeuristicLab.GeneticProgramming.Problems.LogModelling/Problem.cs:202-217 | Parallel composition is valid iff some ordering in enumeration order matches as a sequence; the first such ordering decides the suffix and the cost; on failure the input suffix is kept and all orderings are paid for |
| ConformanceLaws.AndWithoutChildrenFails | HeuristicLab.GeneticProgramming.Problems.LogModelling/Problem.cs:206-216 | An `and` node without subtrees has no ordering to try and rejects every non-empty suffix at cost 1 |
| ConformanceLaws.LoopUnrolls | HeuristicLab.GeneticProgramming.Problems.LogModelling/Problem.cs:158-173 | A loop matches like its body unrolled as many times as it runs successfully; it stops only at the limit or when one more run fails; it costs the unrolled sequence's cost plus one per run, so the failed final attempt is not paid for |
| ConformanceLaws.LoopNeverFails | HeuristicLab.GeneticProgramming.Problems.LogModelling/Problem.cs:166-172 | On a non-empty suffix a loop is valid; when the body fails at once it keeps the suffix at cost 1 |
| ConformanceLaws.LoopOverRun | HeuristicLab.GeneticProgramming.Problems.LogModelling/Problem.cs:163-172 | `loop(a)` on n copies of `a` with k attempts left consumes min(k, n) of them at cost 1 + 2 per run |
| ConformanceLaws.LoopStopsAtLimit | HeuristicLab.GeneticProgramming.Problems.LogModelling/Problem.cs:163-166 | `loop(X)` on 25 `X`s stops after 20 runs, leaving 5 |
| ConformanceLaws.OptionalKeepsOnFailure | HeuristicLab.GeneticProgramming.Problems.LogModelling/Problem.cs:175-185 | On a non-empty suffix an optional node is valid; it leaves its child's suffix if the child succeeds and the input suffix otherwise, at the child's cost plus 1 |
| ConformanceLaws.SeqScenario | HeuristicLab.GeneticProgramming.Problems.LogModelling/Problem.cs:142-156 | `seq(X, Y)` consumes `[X, Y]` completely at cost 3 |
| ConformanceLaws.XorScenario | HeuristicLab.GeneticProgramming.Problems.LogModelling/Problem.cs:187-200 | `xor(X, X)` rejects `[X]` because two children match |
| ConformanceLaws.AndScenario | HeuristicLab.GeneticProgramming.Problems.LogModelling/Problem.cs:202-217 | `and(A, B)` accepts `[B, A]` through its second ordering at cost 6 |
| ConformanceLaws.OptionalScenario | HeuristicLab.GeneticProgramming.Problems.LogModelling/Problem.cs:175-185 | `optional(X)` on `[Y]` is valid and leaves `[Y]`; `seq(optional(X), Y)` accepts `[Y]` and `[X, Y]` |
| ProcessTree.WellFormed | HeuristicLab.GeneticProgramming.Problems.LogModelling/Problem.cs:130-132 | No contract; the condition under which the matcher may read the first subtree of every `optional` node, which the grammar's arity 1..1 for `optional` guarantees (Problem.cs:259) |
| Permutations.PrependAll | HeuristicLab.GeneticProgramming.Problems.LogModelling/Extension.cs:28 | No contract; its meaning is stated by PermuteBlock, which reads each ordering of a block as `source[i]` before an ordering of the rest |
| Permutations.Permute | HeuristicLab.GeneticProgramming.Problems.LogModelling/Extension.cs:13-33 | No contract; its meaning is stated by PermuteOrderings, PermuteCount, PermuteEmpty, PermuteSingleton, PermuteBlock, PermuteByPosition and PermuteDistinct |
| Permutations.PermuteFrom | HeuristicLab.GeneticProgramming.Problems.LogModelling/Extension.cs:24-32 | No contract; the blocks from index i on, whose layout PermuteBlock states |
| Permutations.Without | HeuristicLab.GeneticProgramming.Problems.LogModelling/Extension.cs:27 | The input with position i taken out: one shorter, every later element moved down by one |
| Permutations.WithoutMultiset | HeuristicLab.GeneticProgramming.Problems.LogModelling/Extension.cs:27 | Taking out position i removes exactly one occurrence of that element |
| Permutations.PermuteOrderings | HeuristicLab.GeneticProgramming.Problems.LogModelling/Extension.cs:24-31 | Every ordering has the length and the multiset of elements of the input |
| Permutations.PermuteLengths | HeuristicLab.GeneticProgramming.Problems.LogModelling/Extension.cs:24-31 | Every ordering is as long as the input |
| Permutations.PermuteCount | HeuristicLab.GeneticProgramming.Problems.LogModelling/Extension.cs:18-33 | There are n! orderings of an input of length n ≥ 1 and none of the empty input |
| Permutations.PermuteEmpty | HeuristicLab.GeneticProgramming.Problems.LogModelling/Extension.cs:20-24 | The empty input yields no ordering |
| Permutations.PermuteSingleton | HeuristicLab.GeneticProgramming.Problems.LogModelling/Extension.cs:20-31 | A singleton yields exactly itself; the recursive call on the empty remainder yields nothing |
| Permutations.PermutePair | HeuristicLab.GeneticProgramming.Problems.LogModelling/Extension.cs:24-31 | `[a, b]` yields `[a, b]` then `[b, a]` |
| Permutations.PermuteBlock | HeuristicLab.GeneticProgramming.Problems.LogModelling/Extension.cs:24-31 | For n ≥ 2 the ordering at `i * (n-1)! + k` is `source[i]` before ordering k of the input without position i |
| Permutations.PermuteIsBlocks | HeuristicLab.GeneticProgramming.Problems.LogModelling/Extension.cs:20-24 | Unfolding step of `Permute` used by the block proofs: except for the singleton, the enumeration is its blocks |
| Permutations.PermuteByPosition | HeuristicLab.GeneticProgramming.Problems.LogModelling/Extension.cs:24-28 | The orderings of any input, duplicates included, are the orderings of its positions read back through the input |
| Permutations.PermuteDistinct | HeuristicLab.GeneticProgramming.Problems.LogModelling/Extension.cs:18-33 | An input without repeated elements gives pairwise different orderings |
| Permutations.PositionOrderings | HeuristicLab.GeneticProgramming.Problems.LogModelling/Extension.cs:18-33 | The positions 0..n-1 have n! pairwise different orderings (none for n = 0), each a rearrangement of all positions |
| Traces.Rows | HeuristicLab.GeneticProgramming.Problems.LogModelling/Problem.cs:89 | The zip is as long as the shortest column, and row i holds the i-th entry of each column |
| Traces.Ids | HeuristicLab.GeneticProgramming.Problems.LogModelling/Problem.cs:90 | One case id per row, in row order |
| Traces.Dedup | HeuristicLab.GeneticProgramming.Problems.LogModelling/Problem.cs:90 | The group keys are pairwise different, and they are exactly the case ids that occur |
| Traces.IndexOf | HeuristicLab.GeneticProgramming.Problems.LogModelling/Problem.cs:90 | The first position holding a value |
| Traces.DedupFirstAppearance | HeuristicLab.GeneticProgramming.Problems.LogModelling/Problem.cs:90 | Groups come in order of the first appearance of their case id |
| Traces.Group | HeuristicLab.GeneticProgramming.Problems.LogModelling/Problem.cs:90 | A group is no larger than the log and holds only rows of its case id |
| Traces.GroupMembers | HeuristicLab.GeneticProgramming.Problems.LogModelling/Problem.cs:90 | A group holds exactly the rows of its case id |
| Traces.GroupMultiplicity | HeuristicLab.GeneticProgramming.Problems.LogModelling/Problem.cs:90 | A group holds every row of its case id as often as the log does, and no other row |
| Traces.GroupAppend | HeuristicLab.GeneticProgramming.Problems.LogModelling/Problem.cs:90 | Unfolding step of `Group` used by GroupAtTime: a row appended to the log is appended to its own group and to no other |
| Traces.GroupsMultisetAt | HeuristicLab.GeneticProgramming.Problems.LogModelling/Problem.cs:90 | Over pairwise different keys, the groups together hold a row as often as the log does if its case id is a key, and never otherwise |
| Traces.GroupsPartitionRows | HeuristicLab.GeneticProgramming.Problems.LogModelling/Problem.cs:90 | The groups of all case ids together are exactly the rows of the log, with multiplicity |
| Traces.GroupEmptyIff | HeuristicLab.GeneticProgramming.Problems.LogModelling/Problem.cs:90 | A group is empty iff its case id does not occur |
| Traces.GroupsCoverRows | HeuristicLab.GeneticProgramming.Problems.LogModelling/Problem.cs:90 | The group sizes add up to the number of rows: every row is in exactly one group |
| Traces.InsertByTime | HeuristicLab.GeneticProgramming.Problems.LogModelling/Problem.cs:90 | Inserting a row makes the ordering one longer |
| Traces.SortByTime | HeuristicLab.GeneticProgramming.Problems.LogModelling/Problem.cs:90 | The ordering has as many rows as the group |
| Traces.InsertSorted | HeuristicLab.GeneticProgramming.Problems.LogModelling/Problem.cs:90 | Inserting into a timestamp-ordered list keeps it ordered |
| Traces.SortSorted | HeuristicLab.GeneticProgramming.Problems.LogModelling/Problem.cs:90 | The ordering is non-decreasing in timestamp |
| Traces.InsertPermutes | HeuristicLab.GeneticProgramming.Problems.LogModelling/Problem.cs:90 | Inserting adds exactly the inserted row |
| Traces.SortPermutes | HeuristicLab.GeneticProgramming.Problems.LogModelling/Problem.cs:90 | The ordering is a rearrangement of the group |
| Traces.InsertAtTime | HeuristicLab.GeneticProgramming.Problems.LogModelling/Problem.cs:90 | Among rows of any one timestamp, an inserted row lands before the rows already there |
| Traces.AtTimeAppend | HeuristicLab.GeneticProgramming.Problems.LogModelling/Problem.cs:90 | A row appended at the end is the last row of its timestamp |
| Traces.GroupAtTime | HeuristicLab.GeneticProgramming.Problems.LogModelling/Problem.cs:90 | Within a group, the rows of one timestamp are the log's rows of that case and timestamp, in log order |
| Traces.SortStable | HeuristicLab.GeneticProgramming.Problems.LogModelling/Problem.cs:90 | The ordering is stable: rows with equal timestamps keep their relative order |
| Traces.Activities | HeuristicLab.GeneticProgramming.Problems.LogModelling/Problem.cs:90 | The trace keeps each row's activity, in order |
| Traces.ActivitiesInsert | HeuristicLab.GeneticProgramming.Problems.LogModelling/Problem.cs:90 | Inserting a row adds exactly its activity to the activities |
| Traces.ActivitiesSort | HeuristicLab.GeneticProgramming.Problems.LogModelling/Problem.cs:90 | Ordering a group keeps each activity as often as it occurs |
| Traces.CaseKeys | HeuristicLab.GeneticProgramming.Problems.LogModelling/Problem.cs:90 | No contract; the keys of `GroupBy`, whose meaning DedupFirstAppearance (first-appearance order) and CasesPartitionRows (one per distinct case id) state |
| Traces.CaseTrace | HeuristicLab.GeneticProgramming.Problems.LogModelling/Problem.cs:90 | No contract; one group ordered by timestamp and projected to its activities, whose meaning CaseTraceOrdered and CasesPartitionRows state |
| Traces.CaseTraces | HeuristicLab.GeneticProgramming.Problems.LogModelling/Problem.cs:90 | One trace per key |
| Traces.CaseTracesAt | HeuristicLab.GeneticProgramming.Problems.LogModelling/Problem.cs:90 | Trace i belongs to key i |
| Traces.CaseTracesLength | HeuristicLab.GeneticProgramming.Problems.LogModelling/Problem.cs:90 | The traces are as long in total as their groups |
| Traces.Cases | HeuristicLab.GeneticProgramming.Problems.LogModelling/Problem.cs:89-90 | No contract; the zip, `GroupBy`, `OrderBy` and `Select` pipeline, whose meaning CasesPartitionRows and CaseTraceOrdered state |
| Traces.CasesPartitionRows | HeuristicLab.GeneticProgramming.Problems.LogModelling/Problem.cs:89-92 | There is one trace per distinct case id, and none is empty. The groups behind the traces hold the log's rows exactly, with multiplicity. Trace i holds the activities of group i, each as often as it occurs there. The traces are as long in total as the log |
| Traces.CaseTraceOrdered | HeuristicLab.GeneticProgramming.Problems.LogModelling/Problem.cs:90 | Each trace is its case's activities read from a timestamp-ordered rearrangement of its rows. The rows of one timestamp come in log order |
| Statistics.Verdict | HeuristicLab.GeneticProgramming.Problems.LogModelling/Problem.cs:100-105 | No contract; the case verdict, whose meaning EmptyCaseRejected, VerdictCost, LeafAcceptsExactly, SeqRootAccepts and Evaluator.ValidateCase state |
| Statistics.EmptyCaseRejected | HeuristicLab.GeneticProgramming.Problems.LogModelling/Problem.cs:100-110 | An empty trace is never accepted and costs one node |
| Statistics.VerdictCost | HeuristicLab.GeneticProgramming.Problems.LogModelling/Problem.cs:100-105 | Every case costs at least one node |
| Statistics.LeafAcceptsExactly | HeuristicLab.GeneticProgramming.Problems.LogModelling/Problem.cs:100-105 | A single-activity tree accepts exactly the one-activity trace of its name: a matched prefix with activities left over is rejected |
| Statistics.SeqRootAccepts | HeuristicLab.GeneticProgramming.Problems.LogModelling/Problem.cs:100-105 | On a non-empty trace, a `seq` root accepts iff its subtrees succeed in turn and nothing is left |
| Statistics.LoopCaseRejected | HeuristicLab.GeneticProgramming.Problems.LogModelling/Problem.cs:100-105 | `loop(X)` on 25 `X`s leaves 5, so the case does not validate |
| Statistics.Verdicts | HeuristicLab.GeneticProgramming.Problems.LogModelling/Problem.cs:93 | One verdict per case, in case order |
| Statistics.CountValid | HeuristicLab.GeneticProgramming.Problems.LogModelling/Problem.cs:94 | No contract; the count of valid verdicts, bounded by ValidatingAtMostTotal and characterised by AllValidIff |
| Statistics.SumNodes | HeuristicLab.GeneticProgramming.Problems.LogModelling/Problem.cs:95 | No contract; the sum of processed nodes, bounded below by NodesAtLeastTotal |
| Statistics.ValidatingAtMostTotal | HeuristicLab.GeneticProgramming.Problems.LogModelling/Problem.cs:92-94 | No more cases validate than there are |
| Statistics.NodesAtLeastTotal | HeuristicLab.GeneticProgramming.Problems.LogModelling/Problem.cs:92-95 | With every case costing at least one node, there are at least as many processed nodes as cases |
| Statistics.AllValidIff | HeuristicLab.GeneticProgramming.Problems.LogModelling/Problem.cs:92-94 | The validating count equals the case count iff every case validates |
| Statistics.VerdictsBounds | HeuristicLab.GeneticProgramming.Problems.LogModelling/Problem.cs:92-95 | Validating cases ≤ cases ≤ processed nodes |
| Statistics.LogModelStatistics.constructor | HeuristicLab.GeneticProgramming.Problems.LogModelling/LogModelStatistics.cs:9-14 | A fresh statistics record holds three zero counts |
| Statistics.Fitness | HeuristicLab.GeneticProgramming.Problems.LogModelling/Problem.cs:81 | No contract; the formula validating / total + 0.01 / nodes over `real`, whose meaning FitnessPerfectIff, FitnessPrefersFewerNodes and FitnessScenario state |
| Statistics.FitnessPerfectIff | HeuristicLab.GeneticProgramming.Problems.LogModelling/Problem.cs:81 | With at least one node per case, the fitness is at least 1 iff every case validates: the parsimony bonus never outweighs a rejected case |
| Statistics.FitnessPrefersFewerNodes | HeuristicLab.GeneticProgramming.Problems.LogModelling/Problem.cs:81 | With the same validating and total counts, fewer processed nodes score higher |
| Statistics.FitnessScenario | HeuristicLab.GeneticProgramming.Problems.LogModelling/Problem.cs:81 | Two cases, one validating, at 10 nodes score 0.501 |
| Evaluator.ValidateRec | HeuristicLab.GeneticProgramming.Problems.LogModelling/Problem.cs:107-140 | The dispatching method computes exactly `Match` |
| Evaluator.ValidateSeq | HeuristicLab.GeneticProgramming.Problems.LogModelling/Problem.cs:142-156 | The loop with the break after the first failure computes exactly `MatchSeq` |
| Evaluator.ValidateLoop | HeuristicLab.GeneticProgramming.Problems.LogModelling/Problem.cs:158-173 | The loop with at most 20 runs computes exactly `MatchLoop` with the limit 20 |
| Evaluator.ValidateOptional | HeuristicLab.GeneticProgramming.Problems.LogModelling/Problem.cs:175-185 | Computes exactly `MatchOptional` |
| Evaluator.ValidateEach | HeuristicLab.GeneticProgramming.Problems.LogModelling/Problem.cs:190 | Computes exactly `MatchEach` |
| Evaluator.ValidateXor | HeuristicLab.GeneticProgramming.Problems.LogModelling/Problem.cs:187-200 | Computes exactly `MatchXor` |
| Evaluator.ValidateAnd | HeuristicLab.GeneticProgramming.Problems.LogModelling/Problem.cs:202-217 | The loop over the orderings with the early return computes exactly `MatchAnd` |
| Evaluator.ValidateCase | HeuristicLab.GeneticProgramming.Problems.LogModelling/Problem.cs:100-105 | Computes exactly the case verdict: valid iff the match is valid and consumes the whole trace |
| Evaluator.Interpret | HeuristicLab.GeneticProgramming.Problems.LogModelling/Problem.cs:84-98 | A fresh record gets three fields: the number of cases, the number of validating verdicts and the sum of processed nodes. Validating cases ≤ cases ≤ processed nodes |
| Evaluator.Evaluate | HeuristicLab.GeneticProgramming.Problems.LogModelling/Problem.cs:70-82 | The fitness is the validating share plus 0.01 divided by the processed nodes, and not a number for a log without cases |

## Left out

- Integer width: the case counts and processed-node counts are C# `int`. The model uses unbounded integers, so a 32-bit overflow of the node sum is not captured.
- Floating point: the fitness is IEEE double arithmetic and is modelled over `real`.
  - `Fitness` requires at least one case and one node.
  - `Evaluate` reports `NotANumber` for a log without cases, where the program computes `0 / 0.0 + 0.01 / 0`.
  - Rounding is not modelled.
- Grammar construction, event wiring, parameters, cloning and persistence (`Problem.cs:1-68` and `Problem.cs:219-284`) are calls into the HeuristicLab grammar, parameter and event libraries.
- Dataset access and the training partition (`Problem.cs:72-76`): the three columns are parameters of `Interpret` and `Evaluate`. Timestamps are integers standing for `DateTime` values.
- The unused random-number parameter of `Evaluate` is left out.
- Wrapper skipping: `ValidateCase` in the program descends past the program-root and start symbols (`Problem.cs:103`). The model receives the body node directly.
- An `optional` node without a subtree makes the program throw when it reads subtree 0 (`Problem.cs:132`). The model instead requires every `optional` node to have a subtree (`WellFormed`), which the grammar guarantees.
- Laziness: the program's sequences are lazy and some are enumerated more than once: the cases, the validated cases, and the `xor` results. The permutations for `and` are generated on demand and abandoned at the first success. Every re-enumeration recomputes the same pure values, so the model computes each once and constructs the whole list of orderings.
- The LINQ `Select` in `ValidateXor` (`Problem.cs:190`) is a lazy map over the subtrees. As a method calling `ValidateRec` it becomes the recursive method `ValidateEach`.
- `Extension.Identity` (`Extension.cs:11`) is never used by the evaluator.
- The input of `Permute` cannot be modified because sequences are values. Its output is a function of the input, so it is deterministic by construction.
- LogModellingProblemData.cs, ILogModellingProblemData.cs, LogModellingCSVInstanceProvider.cs, the import dialog and instance-provider views, Plugin.cs and LogModellingInstanceProvider.cs are plumbing, file parsing, UI and registration, and are not part of this model.
- The model follows the code in these details:
  - a failed final loop attempt's nodes are not counted (`Problem.cs:166-170`);
  - a loop does not stop when the suffix becomes empty; it keeps running its body until a run fails or the limit is reached;
  - groups come in first-appearance order of the case id, which is what LINQ `GroupBy` yields;
  - a log without cases yields a NaN fitness rather than a reported error.
