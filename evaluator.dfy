/**
 * The evaluator as the program runs it: recursive-descent methods whose
 * loops thread the unconsumed suffix and accumulate the processed-node
 * count, each proved to compute exactly the matcher of `Conformance`;
 * the per-case check; and the pass over the whole log that fills in the
 * statistics and computes the fitness.
 */
module Evaluator {
  import opened ProcessTree
  import opened Permutations
  import opened Conformance
  import opened Traces
  import opened Statistics

  /** `r` with `extra` more processed nodes. */
  function Charged(r: MatchResult, extra: nat): MatchResult
  {
    MatchResult(r.valid, r.remaining, r.processedNodes + extra)
  }

  /** Dispatches on the node's symbol name; an exhausted trace fails before any dispatch. */
  method ValidateRec(node: Node, activities: seq<string>) returns (r: MatchResult)
    requires WellFormed(node)
    ensures r == Match(node, activities)
    decreases Height(node), 0
  {
    if |activities| == 0 {
      return MatchResult(false, activities, 1);
    }
    if node.name == SeqName {
      r := ValidateSeq(node.children, activities);
    } else if node.name == XorName {
      r := ValidateXor(node.children, activities);
    } else if node.name == AndName {
      r := ValidateAnd(node.children, activities);
    } else if node.name == LoopName {
      r := ValidateLoop(node.children, activities);
    } else if node.name == OptionalName {
      assert AllWellFormed(node.children);
      r := ValidateOptional(node.children[0], activities);
    } else {
      var current := activities[0];
      r := MatchResult(current == node.name, activities[1..], 1);
    }
  }

  /** Runs the subtrees in order on what each previous one left, stopping after the first failure. */
  method ValidateSeq(subtrees: seq<Node>, activities: seq<string>) returns (r: MatchResult)
    requires AllWellFormed(subtrees)
    ensures r == MatchSeq(subtrees, activities)
    decreases MaxHeight(subtrees), 1, |subtrees|
  {
    var remaining := activities;
    var processed := 1;
    var valid := true;
    var i := 0;
    while i < |subtrees|
      invariant 0 <= i <= |subtrees| && processed >= 1 && valid
      invariant MatchSeq(subtrees, activities) == Charged(MatchSeq(subtrees[i..], remaining), processed - 1)
    {
      ghost var rest := subtrees[i..];
      assert rest[0] == subtrees[i] && rest[1..] == subtrees[i + 1..];
      var nodes;
      var res := ValidateRec(subtrees[i], remaining);
      valid, remaining, nodes := res.valid, res.remaining, res.processedNodes;
      processed := processed + nodes;
      if !valid {
        break;
      }
      i := i + 1;
    }
    r := MatchResult(valid, remaining, processed);
  }

  /**
   * Runs the body as a sequence again and again on the unconsumed suffix,
   * at most `LoopLimit` times, keeping every successful run; a failed run
   * is discarded, so the loop always succeeds.
   */
  method ValidateLoop(subtrees: seq<Node>, activities: seq<string>) returns (r: MatchResult)
    requires AllWellFormed(subtrees)
    ensures r == MatchLoop(subtrees, activities, LoopLimit)
    decreases MaxHeight(subtrees), 2
  {
    var remaining := activities;
    var processed := 1;
    var i := 0;
    while i < LoopLimit
      invariant 0 <= i <= LoopLimit && processed >= 1
      invariant MatchLoop(subtrees, activities, LoopLimit) ==
                Charged(MatchLoop(subtrees, remaining, LoopLimit - i), processed - 1)
    {
      var result := ValidateSeq(subtrees, remaining);
      if !result.valid {
        break;
      }
      i := i + 1;
      remaining := result.remaining;
      processed := processed + result.processedNodes;
    }
    r := MatchResult(true, remaining, processed);
  }

  /** The subtree's match plus one node, or success on the untouched suffix when the subtree fails. */
  method ValidateOptional(subtree: Node, activities: seq<string>) returns (r: MatchResult)
    requires WellFormed(subtree)
    ensures r == MatchOptional(subtree, activities)
    decreases Height(subtree), 1
  {
    var result := ValidateRec(subtree, activities);
    if result.valid {
      r := result.(processedNodes := result.processedNodes + 1);
    } else {
      r := MatchResult(true, activities, result.processedNodes + 1);
    }
  }

  /** The match of every subtree against the same suffix, in subtree order. */
  method ValidateEach(subtrees: seq<Node>, activities: seq<string>) returns (results: seq<MatchResult>)
    requires AllWellFormed(subtrees)
    ensures results == MatchEach(subtrees, activities)
    decreases MaxHeight(subtrees), 1, |subtrees|
  {
    if |subtrees| == 0 {
      return [];
    }
    var first := ValidateRec(subtrees[0], activities);
    var others := ValidateEach(subtrees[1..], activities);
    results := [first] + others;
  }

  /**
   * Runs every subtree on the same suffix and succeeds with the one
   * positive result when there is exactly one; all subtrees are paid for.
   */
  method ValidateXor(subtrees: seq<Node>, activities: seq<string>) returns (r: MatchResult)
    requires AllWellFormed(subtrees)
    ensures r == MatchXor(subtrees, activities)
    decreases MaxHeight(subtrees), 2
  {
    var validationResults := ValidateEach(subtrees, activities);
    var positiveResults := Positives(validationResults);
    var processedNodes := SumProcessed(validationResults) + 1;
    if |positiveResults| == 1 {
      var subtree := positiveResults[0];
      r := MatchResult(subtree.valid, subtree.remaining, processedNodes);
    } else {
      r := MatchResult(false, activities, processedNodes);
    }
  }

  /**
   * Tries the orderings of the subtrees in enumeration order as sequences
   * on the same suffix, paying for each attempt, and returns at the first
   * that succeeds.
   */
  method ValidateAnd(subtrees: seq<Node>, activities: seq<string>) returns (r: MatchResult)
    requires AllWellFormed(subtrees)
    ensures r == MatchAnd(subtrees, activities)
    decreases MaxHeight(subtrees), 3
  {
    var orderings := Permute(subtrees);
    PermuteOrderings(subtrees);
    var processed := 1;
    for k := 0 to |orderings|
      invariant processed >= 1
      invariant forall j :: 0 <= j < |orderings[k..]| ==> IsOrderingOf(orderings[k..][j], subtrees)
      invariant MatchAnd(subtrees, activities) ==
                Charged(TryOrderings(subtrees, orderings[k..], activities), processed - 1)
    {
      assert orderings[k..][0] == orderings[k] && orderings[k..][1..] == orderings[k + 1..];
      OrderingBounds(subtrees, orderings[k]);
      var result := ValidateSeq(orderings[k], activities);
      processed := processed + result.processedNodes;
      if result.valid {
        return MatchResult(true, result.remaining, processed);
      }
    }
    r := MatchResult(false, activities, processed);
  }

  /** Matches the tree's body against one case's ordered trace; valid only if the whole trace is consumed. */
  method ValidateCase(body: Node, orderedActivities: seq<string>) returns (v: CaseVerdict)
    requires WellFormed(body)
    ensures v == Verdict(body, orderedActivities)
  {
    var result := ValidateRec(body, orderedActivities);
    v := CaseVerdict(result.valid && |result.remaining| == 0, result.processedNodes);
  }

  /**
   * Zips the columns, groups and orders the cases, validates every case
   * and fills in a fresh statistics record: the number of cases, of
   * validating cases and of processed nodes.
   */
  method Interpret(body: Node, caseIds: seq<string>, timestamps: seq<int>, activities: seq<string>)
    returns (stats: LogModelStatistics)
    requires WellFormed(body)
    ensures fresh(stats)
    ensures var cases := Cases(caseIds, timestamps, activities);
            stats.totalCases == |cases| &&
            stats.validatingCases == CountValid(Verdicts(body, cases)) &&
            stats.numberOfProcessedNodes == SumNodes(Verdicts(body, cases))
    ensures 0 <= stats.validatingCases <= stats.totalCases <= stats.numberOfProcessedNodes
  {
    stats := new LogModelStatistics();
    var cases := Cases(caseIds, timestamps, activities);
    stats.totalCases := |cases|;
    var verdicts: seq<CaseVerdict> := [];
    for i := 0 to |cases|
      invariant stats.totalCases == |cases|
      invariant |verdicts| == i
      invariant forall j :: 0 <= j < i ==> verdicts[j] == Verdict(body, cases[j])
    {
      var v := ValidateCase(body, cases[i]);
      verdicts := verdicts + [v];
    }
    assert verdicts == Verdicts(body, cases);
    VerdictsBounds(body, cases);
    stats.validatingCases := CountValid(verdicts);
    stats.numberOfProcessedNodes := SumNodes(verdicts);
  }

  /**
   * The fitness of the tree on the log: the share of validating cases
   * plus 0.01 divided by the processed nodes; not a number when the log
   * has no cases.
   */
  method Evaluate(body: Node, caseIds: seq<string>, timestamps: seq<int>, activities: seq<string>)
    returns (fitness: Score)
    requires WellFormed(body)
    ensures var cases := Cases(caseIds, timestamps, activities);
            var vs := Verdicts(body, cases);
            if |cases| == 0 then fitness == NotANumber
            else fitness == Finite(Fitness(CountValid(vs), |cases|, SumNodes(vs)))
  {
    var modelStats := Interpret(body, caseIds, timestamps, activities);
    if modelStats.totalCases == 0 {
      fitness := NotANumber;
    } else {
      fitness := Finite(Fitness(modelStats.validatingCases, modelStats.totalCases, modelStats.numberOfProcessedNodes));
    }
  }
}
