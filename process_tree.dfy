/**
 * The candidate process model: a tree whose nodes carry a symbol name and
 * an ordered list of subtrees.  The evaluator dispatches on the name:
 * "seq", "xor", "and", "loop" and "optional" are the operators, every
 * other name is an activity leaf.
 */
module ProcessTree {

  const SeqName := "seq"
  const XorName := "xor"
  const AndName := "and"
  const LoopName := "loop"
  const OptionalName := "optional"

  /** Upper bound on the body repetitions a loop node attempts. */
  const LoopLimit: nat := 20

  datatype Node = Node(name: string, children: seq<Node>)

  /** A node with this name is an activity leaf, whatever its children. */
  predicate IsActivityName(name: string)
  {
    name != SeqName && name != XorName && name != AndName && name != LoopName && name != OptionalName
  }

  /**
   * The evaluator reads the first subtree of an "optional" node without
   * checking that there is one; the grammar gives "optional" exactly one
   * subtree.  A tree is well formed when every "optional" node has one.
   */
  predicate WellFormed(n: Node)
  {
    (n.name == OptionalName ==> |n.children| >= 1) && AllWellFormed(n.children)
  }

  predicate AllWellFormed(ch: seq<Node>)
  {
    forall i :: 0 <= i < |ch| ==> WellFormed(ch[i])
  }

  /** Termination measure: the number of levels of the tree. */
  function Height(n: Node): (h: nat)
    ensures h >= 1
  {
    1 + MaxHeight(n.children)
  }

  function MaxHeight(ch: seq<Node>): (h: nat)
    ensures forall i :: 0 <= i < |ch| ==> Height(ch[i]) <= h
    ensures |ch| > 0 ==> exists i :: 0 <= i < |ch| && Height(ch[i]) == h
  {
    if |ch| == 0 then 0
    else
      var first, others := Height(ch[0]), MaxHeight(ch[1..]);
      assert forall i :: 1 <= i < |ch| ==> ch[i] == ch[1..][i - 1];
      if first >= others then first else others
  }

  /** A bound on the height of every node in `ch` bounds their maximum. */
  lemma MaxHeightBound(ch: seq<Node>, bound: nat)
    requires forall i :: 0 <= i < |ch| ==> Height(ch[i]) <= bound
    ensures MaxHeight(ch) <= bound
  {
    if |ch| > 0 {
      var i :| 0 <= i < |ch| && Height(ch[i]) == MaxHeight(ch);
    }
  }

  /** What matching a subtree against the rest of a trace yields. */
  datatype MatchResult = MatchResult(valid: bool, remaining: seq<string>, processedNodes: nat)

  /** `t` is what is left of `s` after a prefix has been consumed. */
  predicate IsSuffix(t: seq<string>, s: seq<string>)
  {
    |t| <= |s| && t == s[|s| - |t|..]
  }

  lemma SuffixTransitive(t: seq<string>, u: seq<string>, s: seq<string>)
    requires IsSuffix(t, u) && IsSuffix(u, s)
    ensures IsSuffix(t, s)
  {
    assert s[|s| - |u|..][|u| - |t|..] == s[|s| - |t|..];
  }
}
