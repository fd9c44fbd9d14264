/**
 * The conformance matcher, as functions: the meaning of matching a process
 * tree against the unconsumed suffix of one case's activity trace.
 *
 * Every match yields whether the subtree is satisfied, the suffix that is
 * left, and a count of processed nodes used as a cost signal.  The rules:
 *  - an exhausted trace fails every node (cost 1);
 *  - a leaf consumes exactly one activity and succeeds iff it is its name;
 *  - "seq" threads the suffix through its children, stopping at the first
 *    failure;
 *  - "xor" runs every child on the same suffix and succeeds iff exactly one
 *    child does;
 *  - "and" runs each ordering of its children as a "seq" and takes the first
 *    ordering that succeeds;
 *  - "loop" repeats its children as a "seq" body greedily, at most 20 times,
 *    and always succeeds;
 *  - "optional" always succeeds, keeping the suffix when its child fails.
 */
module Conformance {
  import opened ProcessTree
  import opened Permutations

  /** Matches `node` against the suffix `s`. */
  function Match(node: Node, s: seq<string>): (r: MatchResult)
    requires WellFormed(node)
    ensures r.processedNodes >= 1
    decreases Height(node), 0
  {
    if |s| == 0 then MatchResult(false, s, 1)
    else if node.name == SeqName then MatchSeq(node.children, s)
    else if node.name == XorName then MatchXor(node.children, s)
    else if node.name == AndName then MatchAnd(node.children, s)
    else if node.name == LoopName then MatchLoop(node.children, s, LoopLimit)
    else if node.name == OptionalName then
      assert AllWellFormed(node.children);
      MatchOptional(node.children[0], s)
    else MatchResult(s[0] == node.name, s[1..], 1)
  }

  /** The children in order, each on what the previous one left. */
  function MatchSeq(ch: seq<Node>, s: seq<string>): (r: MatchResult)
    requires AllWellFormed(ch)
    ensures r.processedNodes >= 1
    decreases MaxHeight(ch), 1, |ch|
  {
    if |ch| == 0 then MatchResult(true, s, 1)
    else
      var first := Match(ch[0], s);
      if !first.valid then MatchResult(false, first.remaining, first.processedNodes + 1)
      else
        var others := MatchSeq(ch[1..], first.remaining);
        MatchResult(others.valid, others.remaining, first.processedNodes + others.processedNodes)
  }

  /** The match of every child against the same suffix, in child order. */
  function MatchEach(ch: seq<Node>, s: seq<string>): (rs: seq<MatchResult>)
    requires AllWellFormed(ch)
    ensures |rs| == |ch|
    ensures forall i :: 0 <= i < |rs| ==> rs[i] == Match(ch[i], s)
    decreases MaxHeight(ch), 1, |ch|
  {
    if |ch| == 0 then []
    else
      [Match(ch[0], s)] + MatchEach(ch[1..], s)
  }

  /** The valid results among `rs`, in order. */
  function Positives(rs: seq<MatchResult>): (ps: seq<MatchResult>)
    ensures |ps| <= |rs|
    ensures forall j :: 0 <= j < |ps| ==> ps[j].valid
  {
    if |rs| == 0 then []
    else (if rs[0].valid then [rs[0]] else []) + Positives(rs[1..])
  }

  /** The sum of the processed-node counts of `rs`. */
  function SumProcessed(rs: seq<MatchResult>): nat
  {
    if |rs| == 0 then 0 else rs[0].processedNodes + SumProcessed(rs[1..])
  }

  /** Exclusive choice: valid iff exactly one child is valid on `s`. */
  function MatchXor(ch: seq<Node>, s: seq<string>): (r: MatchResult)
    requires AllWellFormed(ch)
    ensures r.processedNodes >= 1
    decreases MaxHeight(ch), 2
  {
    var results := MatchEach(ch, s);
    var positives := Positives(results);
    var processed := SumProcessed(results) + 1;
    if |positives| == 1 then
      MatchResult(positives[0].valid, positives[0].remaining, processed)
    else MatchResult(false, s, processed)
  }

  /** Parallel composition: the first ordering of the children that matches as a sequence. */
  function MatchAnd(ch: seq<Node>, s: seq<string>): (r: MatchResult)
    requires AllWellFormed(ch)
    ensures r.processedNodes >= 1
    decreases MaxHeight(ch), 3
  {
    PermuteOrderings(ch);
    TryOrderings(ch, Permute(ch), s)
  }

  /** Tries the orderings `ps` of `ch` in turn; each attempt costs what its sequence match costs. */
  function TryOrderings(ch: seq<Node>, ps: seq<seq<Node>>, s: seq<string>): (r: MatchResult)
    requires AllWellFormed(ch)
    requires forall k :: 0 <= k < |ps| ==> IsOrderingOf(ps[k], ch)
    ensures r.processedNodes >= 1
    decreases MaxHeight(ch), 2, |ps|
  {
    if |ps| == 0 then MatchResult(false, s, 1)
    else
      OrderingBounds(ch, ps[0]);
      var attempt := MatchSeq(ps[0], s);
      if attempt.valid then MatchResult(true, attempt.remaining, attempt.processedNodes + 1)
      else
        var others := TryOrderings(ch, ps[1..], s);
        MatchResult(others.valid, others.remaining, others.processedNodes + attempt.processedNodes)
  }

  /**
   * Loop: run the children as a sequence body up to `attempts` more times,
   * keeping each successful run and discarding the first failing one.
   */
  function MatchLoop(ch: seq<Node>, s: seq<string>, attempts: nat): (r: MatchResult)
    requires AllWellFormed(ch)
    ensures r.valid && r.processedNodes >= 1
    decreases MaxHeight(ch), 2, attempts
  {
    if attempts == 0 then MatchResult(true, s, 1)
    else
      var body := MatchSeq(ch, s);
      if !body.valid then MatchResult(true, s, 1)
      else
        var more := MatchLoop(ch, body.remaining, attempts - 1);
        MatchResult(true, more.remaining, body.processedNodes + more.processedNodes)
  }

  /** Optional: the child's match when it succeeds, otherwise success on the untouched suffix. */
  function MatchOptional(child: Node, s: seq<string>): (r: MatchResult)
    requires WellFormed(child)
    ensures r.valid && r.processedNodes >= 2
    decreases Height(child), 1
  {
    var result := Match(child, s);
    if result.valid then MatchResult(result.valid, result.remaining, result.processedNodes + 1)
    else MatchResult(true, s, result.processedNodes + 1)
  }

  /** An ordering of well-formed children is well formed and no higher. */
  lemma OrderingBounds(ch: seq<Node>, p: seq<Node>)
    requires AllWellFormed(ch) && IsOrderingOf(p, ch)
    ensures AllWellFormed(p) && MaxHeight(p) <= MaxHeight(ch)
  {
    forall j | 0 <= j < |p| ensures WellFormed(p[j]) && Height(p[j]) <= MaxHeight(ch) {
      assert p[j] in multiset(p);
      var i :| 0 <= i < |ch| && ch[i] == p[j];
    }
    MaxHeightBound(p, MaxHeight(ch));
  }
}
