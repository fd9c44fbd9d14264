/**
 * What the evaluator reports about a candidate tree: for one case whether
 * the tree accepts its whole trace and how many nodes the match processed;
 * for the log the number of cases, of accepted cases and of processed
 * nodes; and the fitness computed from those three numbers.
 */
module Statistics {
  import opened ProcessTree
  import opened Conformance
  import opened ConformanceLaws

  /** The result for one case. */
  datatype CaseVerdict = CaseVerdict(valid: bool, processedNodes: nat)

  /** A case validates when the tree matches and nothing of its trace is left over. */
  function Verdict(body: Node, trace: seq<string>): CaseVerdict
    requires WellFormed(body)
  {
    var m := Match(body, trace);
    CaseVerdict(m.valid && |m.remaining| == 0, m.processedNodes)
  }

  /** An empty trace is never accepted, whatever the tree, and costs one node. */
  lemma EmptyCaseRejected(body: Node)
    requires WellFormed(body)
    ensures Verdict(body, []) == CaseVerdict(false, 1)
  {
  }

  /** Every case costs at least one processed node. */
  lemma VerdictCost(body: Node, trace: seq<string>)
    requires WellFormed(body)
    ensures Verdict(body, trace).processedNodes >= 1
  {
  }

  /** A tree that is a single activity accepts exactly the one-activity trace of that name. */
  lemma LeafAcceptsExactly(a: string, trace: seq<string>)
    requires IsActivityName(a)
    ensures Verdict(Leaf(a), trace).valid <==> trace == [a]
  {
    if |trace| > 0 {
      LeafConsumesOne(Leaf(a), trace);
      assert trace == [trace[0]] + trace[1..];
    }
  }

  /**
   * A "seq" root accepts a trace exactly when its subtrees succeed in turn
   * and the last one leaves nothing over.
   */
  lemma SeqRootAccepts(ch: seq<Node>, trace: seq<string>)
    requires AllWellFormed(ch) && |trace| > 0
    ensures WellFormed(Node(SeqName, ch))
    ensures Verdict(Node(SeqName, ch), trace).valid <==>
              MatchSeq(ch, trace).valid && MatchSeq(ch, trace).remaining == []
  {
  }

  /** `loop(X)` on 25 `X`s leaves 5 of them over, so the case does not validate. */
  lemma LoopCaseRejected()
    ensures !Verdict(Node(LoopName, [Leaf("X")]), Repeat("X", 25)).valid
  {
    LoopStopsAtLimit();
  }

  /** The verdict of every case, in case order. */
  function Verdicts(body: Node, cases: seq<seq<string>>): (vs: seq<CaseVerdict>)
    requires WellFormed(body)
    ensures |vs| == |cases|
    ensures forall i :: 0 <= i < |cases| ==> vs[i] == Verdict(body, cases[i])
  {
    if |cases| == 0 then [] else [Verdict(body, cases[0])] + Verdicts(body, cases[1..])
  }

  /** The number of accepted cases. */
  function CountValid(vs: seq<CaseVerdict>): nat
  {
    if |vs| == 0 then 0 else (if vs[0].valid then 1 else 0) + CountValid(vs[1..])
  }

  /** The processed nodes of all cases together. */
  function SumNodes(vs: seq<CaseVerdict>): nat
  {
    if |vs| == 0 then 0 else vs[0].processedNodes + SumNodes(vs[1..])
  }

  /** No more cases validate than there are. */
  lemma {:induction false} ValidatingAtMostTotal(vs: seq<CaseVerdict>)
    ensures CountValid(vs) <= |vs|
  {
    if |vs| > 0 {
      ValidatingAtMostTotal(vs[1..]);
    }
  }

  /** When every case costs at least one node, there are at least as many processed nodes as cases. */
  lemma {:induction false} NodesAtLeastTotal(vs: seq<CaseVerdict>)
    requires forall i :: 0 <= i < |vs| ==> vs[i].processedNodes >= 1
    ensures |vs| <= SumNodes(vs)
  {
    if |vs| > 0 {
      NodesAtLeastTotal(vs[1..]);
    }
  }

  /** Every case validates exactly when the count of validating cases is the number of cases. */
  lemma {:induction false} AllValidIff(vs: seq<CaseVerdict>)
    ensures CountValid(vs) == |vs| <==> forall i :: 0 <= i < |vs| ==> vs[i].valid
  {
    if |vs| > 0 {
      AllValidIff(vs[1..]);
      ValidatingAtMostTotal(vs[1..]);
      assert forall i :: 1 <= i < |vs| ==> vs[i] == vs[1..][i - 1];
    }
  }

  /** The verdicts of a trace list satisfy the tally bounds. */
  lemma VerdictsBounds(body: Node, cases: seq<seq<string>>)
    requires WellFormed(body)
    ensures CountValid(Verdicts(body, cases)) <= |cases| <= SumNodes(Verdicts(body, cases))
  {
    ValidatingAtMostTotal(Verdicts(body, cases));
    NodesAtLeastTotal(Verdicts(body, cases));
  }

  /** The statistics record the evaluator fills in. */
  class LogModelStatistics {
    var totalCases: int
    var validatingCases: int
    var numberOfProcessedNodes: int

    constructor ()
      ensures totalCases == 0 && validatingCases == 0 && numberOfProcessedNodes == 0
    {
      totalCases := 0;
      validatingCases := 0;
      numberOfProcessedNodes := 0;
    }
  }

  /**
   * The fitness of a tree: the share of validating cases plus a small
   * parsimony bonus of 0.01 divided by the processed nodes.
   */
  function Fitness(validating: int, total: int, nodes: int): real
    requires total > 0 && nodes > 0
  {
    (validating as real) / (total as real) + 0.01 / (nodes as real)
  }

  /** The fitness is a double; `NotANumber` is what the division yields for a log without cases. */
  datatype Score = NotANumber | Finite(value: real)

  /** Dividing by a positive number keeps the order. */
  lemma DivideMonotone(a: real, b: real, c: real)
    requires c > 0.0 && a <= b
    ensures a / c <= b / c
  {
    var qa, qb := a / c, b / c;
    assert (qb - qa) * c == b - a;
  }

  /** A positive number divided by a larger divisor is smaller. */
  lemma DivideAntitone(a: real, c: real, d: real)
    requires a > 0.0 && 0.0 < c < d
    ensures a / d < a / c
  {
    var qc, qd := a / c, a / d;
    assert qc * c == a && qd * d == a;
    assert qd * c < qd * d;
  }

  /**
   * When every case costs at least one node, a tree that accepts every
   * case scores at least 1 and any other scores below 1: the parsimony
   * bonus never outweighs a rejected case.
   */
  lemma FitnessPerfectIff(validating: int, total: int, nodes: int)
    requires 0 <= validating <= total <= nodes && total > 0
    ensures Fitness(validating, total, nodes) >= 1.0 <==> validating == total
  {
    var t, v, n := total as real, validating as real, nodes as real;
    if validating < total {
      DivideMonotone(v, t - 1.0, t);
      DivideMonotone(0.01, 1.0, t);
      if total < nodes {
        DivideAntitone(0.01, t, n);
      }
      assert (t - 1.0) / t + 1.0 / t == t / t;
    }
  }

  /** Two cases, one of them validating, at 10 processed nodes in all: 0.5 + 0.01 / 10. */
  lemma FitnessScenario()
    ensures Fitness(1, 2, 10) == 0.501
  {
  }

  /** Between trees that accept the same cases, the one that processes fewer nodes scores higher. */
  lemma FitnessPrefersFewerNodes(validating: int, total: int, nodes: int, nodes': int)
    requires total > 0 && 0 < nodes < nodes'
    ensures Fitness(validating, total, nodes) > Fitness(validating, total, nodes')
  {
    DivideAntitone(0.01, nodes as real, nodes' as real);
  }
}
