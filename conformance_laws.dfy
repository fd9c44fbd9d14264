/**
 * Properties of the conformance matcher: what each operator accepts, which
 * suffix it leaves and what it costs, stated against independent
 * characterisations (sequence composition, unique valid child, first valid
 * ordering, unrolled loop body).
 */
module ConformanceLaws {
  import opened ProcessTree
  import opened Permutations
  import opened Conformance

  /** An activity leaf with no subtrees. */
  function Leaf(name: string): (n: Node)
    requires IsActivityName(name)
    ensures WellFormed(n) && n.name == name && Height(n) == 1
  {
    Node(name, [])
  }

  // ---------------------------------------------------------------------
  // Exhausted traces and leaves

  /** Once the trace is used up, every node fails at cost 1 and leaves the empty suffix. */
  lemma EmptyTraceFails(node: Node)
    requires WellFormed(node)
    ensures Match(node, []) == MatchResult(false, [], 1)
  {
  }

  /**
   * A leaf succeeds iff the next activity is its name, and drops exactly
   * that one activity whether or not it matches, at cost 1.
   */
  lemma LeafConsumesOne(node: Node, s: seq<string>)
    requires WellFormed(node) && IsActivityName(node.name) && |s| > 0
    ensures Match(node, s).valid <==> s[0] == node.name
    ensures Match(node, s).remaining == s[1..] && |Match(node, s).remaining| == |s| - 1
    ensures Match(node, s).processedNodes == 1
  {
  }

  // ---------------------------------------------------------------------
  // Every match leaves a suffix of its input

  lemma {:induction false} MatchSuffix(node: Node, s: seq<string>)
    requires WellFormed(node)
    ensures IsSuffix(Match(node, s).remaining, s)
    decreases Height(node), 0
  {
    if |s| == 0 {
    } else if node.name == SeqName {
      SeqSuffix(node.children, s);
    } else if node.name == XorName {
      XorSuffix(node.children, s);
    } else if node.name == AndName {
      AndSuffix(node.children, s);
    } else if node.name == LoopName {
      LoopSuffix(node.children, s, LoopLimit);
    } else if node.name == OptionalName {
      assert AllWellFormed(node.children);
      OptionalSuffix(node.children[0], s);
    } else {
      assert s[1..] == s[|s| - (|s| - 1)..];
    }
  }

  lemma {:induction false} SeqSuffix(ch: seq<Node>, s: seq<string>)
    requires AllWellFormed(ch)
    ensures IsSuffix(MatchSeq(ch, s).remaining, s)
    decreases MaxHeight(ch), 1, |ch|
  {
    if |ch| > 0 {
      var first := Match(ch[0], s);
      MatchSuffix(ch[0], s);
      if first.valid {
        SeqSuffix(ch[1..], first.remaining);
        SuffixTransitive(MatchSeq(ch[1..], first.remaining).remaining, first.remaining, s);
      }
    }
  }

  lemma {:induction false} XorSuffix(ch: seq<Node>, s: seq<string>)
    requires AllWellFormed(ch)
    ensures IsSuffix(MatchXor(ch, s).remaining, s)
    decreases MaxHeight(ch), 2
  {
    var rs := MatchEach(ch, s);
    PositivesSingle(rs);
    if |Positives(rs)| == 1 {
      var i :| OnlyValid(rs, i);
      MatchSuffix(ch[i], s);
    }
  }

  lemma {:induction false} AndSuffix(ch: seq<Node>, s: seq<string>)
    requires AllWellFormed(ch)
    ensures IsSuffix(MatchAnd(ch, s).remaining, s)
    decreases MaxHeight(ch), 3
  {
    PermuteOrderings(ch);
    TryOrderingsSuffix(ch, Permute(ch), s);
  }

  lemma {:induction false} TryOrderingsSuffix(ch: seq<Node>, ps: seq<seq<Node>>, s: seq<string>)
    requires AllWellFormed(ch)
    requires forall k :: 0 <= k < |ps| ==> IsOrderingOf(ps[k], ch)
    ensures IsSuffix(TryOrderings(ch, ps, s).remaining, s)
    decreases MaxHeight(ch), 2, |ps|
  {
    if |ps| > 0 {
      OrderingBounds(ch, ps[0]);
      SeqSuffix(ps[0], s);
      TryOrderingsSuffix(ch, ps[1..], s);
    }
  }

  lemma {:induction false} LoopSuffix(ch: seq<Node>, s: seq<string>, attempts: nat)
    requires AllWellFormed(ch)
    ensures IsSuffix(MatchLoop(ch, s, attempts).remaining, s)
    decreases MaxHeight(ch), 2, attempts
  {
    if attempts > 0 {
      var body := MatchSeq(ch, s);
      if body.valid {
        SeqSuffix(ch, s);
        LoopSuffix(ch, body.remaining, attempts - 1);
        SuffixTransitive(MatchLoop(ch, body.remaining, attempts - 1).remaining, body.remaining, s);
      }
    }
  }

  lemma {:induction false} OptionalSuffix(child: Node, s: seq<string>)
    requires WellFormed(child)
    ensures IsSuffix(MatchOptional(child, s).remaining, s)
    decreases Height(child), 1
  {
    MatchSuffix(child, s);
  }

  // ---------------------------------------------------------------------
  // seq

  /** Matching the children `a + b` in sequence: `a` first, then `b` on what `a` left. */
  lemma {:induction false} SeqAppend(a: seq<Node>, b: seq<Node>, s: seq<string>)
    requires AllWellFormed(a) && AllWellFormed(b)
    ensures AllWellFormed(a + b)
    ensures var ra := MatchSeq(a, s);
            MatchSeq(a + b, s) ==
              if !ra.valid then ra
              else
                var rb := MatchSeq(b, ra.remaining);
                MatchResult(rb.valid, rb.remaining, ra.processedNodes + rb.processedNodes - 1)
  {
    if |a| == 0 {
      assert a + b == b;
    } else {
      assert (a + b)[0] == a[0] && (a + b)[1..] == a[1..] + b;
      var first := Match(a[0], s);
      if first.valid {
        SeqAppend(a[1..], b, first.remaining);
      }
    }
  }

  /** A sequence of one child matches like the child, at one more node. */
  lemma SeqSingleton(c: Node, s: seq<string>)
    requires WellFormed(c)
    ensures AllWellFormed([c])
    ensures var r := Match(c, s);
            MatchSeq([c], s) == MatchResult(r.valid, r.remaining, r.processedNodes + 1)
  {
    assert [c][1..] == [];
  }

  /** The empty sequence accepts without consuming anything. */
  lemma SeqEmptyAccepts(s: seq<string>)
    ensures MatchSeq([], s) == MatchResult(true, s, 1)
  {
  }

  /**
   * A failing child ends the sequence: the children after it are never
   * visited, and the sequence fails with what the failing child left.
   */
  lemma {:induction false} SeqStopsAtFailure(a: seq<Node>, c: Node, b: seq<Node>, s: seq<string>)
    requires AllWellFormed(a) && WellFormed(c) && AllWellFormed(b)
    requires MatchSeq(a, s).valid && !Match(c, MatchSeq(a, s).remaining).valid
    ensures AllWellFormed(a + [c] + b)
    ensures var ra, rc := MatchSeq(a, s), Match(c, MatchSeq(a, s).remaining);
            MatchSeq(a + [c] + b, s) == MatchResult(false, rc.remaining, ra.processedNodes + rc.processedNodes)
  {
    var ra := MatchSeq(a, s);
    var rc := Match(c, ra.remaining);
    SeqSingleton(c, ra.remaining);
    assert MatchSeq([c], ra.remaining) == MatchResult(false, rc.remaining, rc.processedNodes + 1);
    SeqAppend(a, [c], s);
    var rac := MatchSeq(a + [c], s);
    assert rac == MatchResult(false, rc.remaining, ra.processedNodes + rc.processedNodes);
    SeqAppend(a + [c], b, s);
  }

  // ---------------------------------------------------------------------
  // xor

  /** Index `i` holds the only valid result of `rs`. */
  ghost predicate OnlyValid(rs: seq<MatchResult>, i: int)
  {
    0 <= i < |rs| && rs[i].valid && forall j :: 0 <= j < |rs| && j != i ==> !rs[j].valid
  }

  lemma {:induction false} PositivesNone(rs: seq<MatchResult>)
    ensures |Positives(rs)| == 0 <==> forall j :: 0 <= j < |rs| ==> !rs[j].valid
  {
    if |rs| > 0 {
      PositivesNone(rs[1..]);
      assert forall j :: 1 <= j < |rs| ==> rs[j] == rs[1..][j - 1];
    }
  }

  /** Exactly one valid result is what makes `Positives` a singleton, and then it is that result. */
  lemma {:induction false} PositivesSingle(rs: seq<MatchResult>)
    ensures |Positives(rs)| == 1 <==> exists i :: OnlyValid(rs, i)
    ensures forall i :: OnlyValid(rs, i) ==> Positives(rs) == [rs[i]]
  {
    if |rs| > 0 {
      var t := rs[1..];
      PositivesSingle(t);
      PositivesNone(t);
      assert forall j :: 1 <= j < |rs| ==> rs[j] == t[j - 1];
      if rs[0].valid {
        assert OnlyValid(rs, 0) <==> forall j :: 0 <= j < |t| ==> !t[j].valid;
        forall i | 0 < i < |rs| ensures !OnlyValid(rs, i) {
          assert rs[0].valid;
        }
      } else {
        forall i | OnlyValid(rs, i) ensures OnlyValid(t, i - 1) {
        }
        forall i | OnlyValid(t, i) ensures OnlyValid(rs, i + 1) {
        }
      }
    }
  }

  /** The sum of the costs of matching every child of `ch` against `s`. */
  function ChildCosts(ch: seq<Node>, s: seq<string>): (n: nat)
    requires AllWellFormed(ch)
    ensures |ch| > 0 ==> n >= |ch|
  {
    if |ch| == 0 then 0
    else
      Match(ch[0], s).processedNodes + ChildCosts(ch[1..], s)
  }

  lemma {:induction false} MatchEachCosts(ch: seq<Node>, s: seq<string>)
    requires AllWellFormed(ch)
    ensures SumProcessed(MatchEach(ch, s)) == ChildCosts(ch, s)
  {
    if |ch| > 0 {
      assert MatchEach(ch, s)[1..] == MatchEach(ch[1..], s);
      MatchEachCosts(ch[1..], s);
    }
  }

  /** Child `i` is the only child of `ch` that is valid on `s`. */
  ghost predicate OnlyValidChild(ch: seq<Node>, s: seq<string>, i: int)
    requires AllWellFormed(ch)
  {
    0 <= i < |ch| && Match(ch[i], s).valid &&
    forall j :: 0 <= j < |ch| && j != i ==> !Match(ch[j], s).valid
  }

  /**
   * Exclusive choice: valid iff exactly one child is valid on the same
   * suffix; it then leaves what that child left, and otherwise leaves the
   * suffix untouched.  Every child is matched and paid for.
   */
  lemma XorExactlyOne(ch: seq<Node>, s: seq<string>)
    requires AllWellFormed(ch)
    ensures MatchXor(ch, s).valid <==> exists i :: OnlyValidChild(ch, s, i)
    ensures forall i :: OnlyValidChild(ch, s, i) ==> MatchXor(ch, s).remaining == Match(ch[i], s).remaining
    ensures !MatchXor(ch, s).valid ==> MatchXor(ch, s).remaining == s
    ensures MatchXor(ch, s).processedNodes == ChildCosts(ch, s) + 1
  {
    var rs := MatchEach(ch, s);
    PositivesSingle(rs);
    MatchEachCosts(ch, s);
    forall i ensures OnlyValid(rs, i) <==> OnlyValidChild(ch, s, i) {
    }
  }

  // ---------------------------------------------------------------------
  // and

  /** The sum of the sequence-match costs of the orderings `ps`. */
  function SeqCosts(ps: seq<seq<Node>>, s: seq<string>): (n: nat)
    requires forall k :: 0 <= k < |ps| ==> AllWellFormed(ps[k])
    ensures n >= |ps|
  {
    if |ps| == 0 then 0 else MatchSeq(ps[0], s).processedNodes + SeqCosts(ps[1..], s)
  }

  /** Every ordering in `ps` is well formed, and ordering `k` is the first that matches `s` as a sequence. */
  ghost predicate FirstValidOrdering(ps: seq<seq<Node>>, s: seq<string>, k: int)
  {
    (forall j :: 0 <= j < |ps| ==> AllWellFormed(ps[j])) &&
    0 <= k < |ps| && MatchSeq(ps[k], s).valid &&
    forall j :: 0 <= j < k ==> !MatchSeq(ps[j], s).valid
  }

  lemma OrderingsWellFormed(ch: seq<Node>, ps: seq<seq<Node>>)
    requires AllWellFormed(ch)
    requires forall k :: 0 <= k < |ps| ==> IsOrderingOf(ps[k], ch)
    ensures forall k :: 0 <= k < |ps| ==> AllWellFormed(ps[k])
  {
    forall k | 0 <= k < |ps| ensures AllWellFormed(ps[k]) {
      OrderingBounds(ch, ps[k]);
    }
  }

  /** Trying orderings in turn succeeds iff some ordering matches as a sequence. */
  lemma {:induction false} TryOrderingsValid(ch: seq<Node>, ps: seq<seq<Node>>, s: seq<string>)
    requires AllWellFormed(ch)
    requires forall k :: 0 <= k < |ps| ==> IsOrderingOf(ps[k], ch)
    ensures forall k :: 0 <= k < |ps| ==> AllWellFormed(ps[k])
    ensures TryOrderings(ch, ps, s).valid <==> exists k :: 0 <= k < |ps| && MatchSeq(ps[k], s).valid
  {
    OrderingsWellFormed(ch, ps);
    if |ps| > 0 {
      var t := ps[1..];
      TryOrderingsValid(ch, t, s);
      assert forall j :: 1 <= j < |ps| ==> ps[j] == t[j - 1];
      if !MatchSeq(ps[0], s).valid && exists k :: 0 <= k < |ps| && MatchSeq(ps[k], s).valid {
        var k :| 0 <= k < |ps| && MatchSeq(ps[k], s).valid;
        assert MatchSeq(t[k - 1], s).valid;
      }
    }
  }

  /** The first ordering that matches decides the suffix; it and every ordering before it are paid for. */
  lemma {:induction false} TryOrderingsFirst(ch: seq<Node>, ps: seq<seq<Node>>, s: seq<string>, k: nat)
    requires AllWellFormed(ch)
    requires forall j :: 0 <= j < |ps| ==> IsOrderingOf(ps[j], ch)
    requires FirstValidOrdering(ps, s, k)
    ensures TryOrderings(ch, ps, s) ==
              MatchResult(true, MatchSeq(ps[k], s).remaining, SeqCosts(ps[..k + 1], s) + 1)
  {
    var t := ps[1..];
    assert ps[..k + 1][0] == ps[0] && ps[..k + 1][1..] == t[..k];
    if k > 0 {
      assert forall j :: 1 <= j < |ps| ==> ps[j] == t[j - 1];
      assert FirstValidOrdering(t, s, k - 1);
      TryOrderingsFirst(ch, t, s, k - 1);
    }
  }

  /** When no ordering matches, every ordering is paid for and the suffix is kept. */
  lemma {:induction false} TryOrderingsFail(ch: seq<Node>, ps: seq<seq<Node>>, s: seq<string>)
    requires AllWellFormed(ch)
    requires forall j :: 0 <= j < |ps| ==> IsOrderingOf(ps[j], ch)
    requires forall j :: 0 <= j < |ps| ==> AllWellFormed(ps[j]) && !MatchSeq(ps[j], s).valid
    ensures TryOrderings(ch, ps, s) == MatchResult(false, s, SeqCosts(ps, s) + 1)
  {
    if |ps| > 0 {
      var t := ps[1..];
      assert forall j :: 1 <= j < |ps| ==> ps[j] == t[j - 1];
      TryOrderingsFail(ch, t, s);
    }
  }

  /**
   * Parallel composition: valid iff some ordering of the children, in the
   * enumeration order of `Permute`, matches as a sequence; the first such
   * ordering decides the suffix, and every ordering tried is paid for.
   */
  lemma AndFirstSuccess(ch: seq<Node>, s: seq<string>)
    requires AllWellFormed(ch)
    ensures forall k :: 0 <= k < |Permute(ch)| ==> AllWellFormed(Permute(ch)[k])
    ensures MatchAnd(ch, s).valid <==> exists k :: 0 <= k < |Permute(ch)| && MatchSeq(Permute(ch)[k], s).valid
    ensures forall k :: FirstValidOrdering(Permute(ch), s, k) ==>
              MatchAnd(ch, s).remaining == MatchSeq(Permute(ch)[k], s).remaining &&
              MatchAnd(ch, s).processedNodes == SeqCosts(Permute(ch)[..k + 1], s) + 1
    ensures !MatchAnd(ch, s).valid ==>
              MatchAnd(ch, s).remaining == s &&
              MatchAnd(ch, s).processedNodes == SeqCosts(Permute(ch), s) + 1
  {
    var ps := Permute(ch);
    PermuteOrderings(ch);
    TryOrderingsValid(ch, ps, s);
    assert MatchAnd(ch, s) == TryOrderings(ch, ps, s);
    forall k | FirstValidOrdering(ps, s, k)
      ensures MatchAnd(ch, s).remaining == MatchSeq(ps[k], s).remaining
      ensures MatchAnd(ch, s).processedNodes == SeqCosts(ps[..k + 1], s) + 1
    {
      TryOrderingsFirst(ch, ps, s, k);
    }
    if !MatchAnd(ch, s).valid {
      assert forall j :: 0 <= j < |ps| ==> !MatchSeq(ps[j], s).valid;
      TryOrderingsFail(ch, ps, s);
    } else {
      var k :| 0 <= k < |ps| && MatchSeq(ps[k], s).valid;
      assert 0 <= k < |Permute(ch)| && MatchSeq(Permute(ch)[k], s).valid;
    }
  }

  /** An "and" without subtrees has no orderings to try, so it rejects every non-empty suffix. */
  lemma AndWithoutChildrenFails(s: seq<string>)
    requires |s| > 0
    ensures Match(Node(AndName, []), s) == MatchResult(false, s, 1)
  {
    PermuteEmpty<Node>();
  }

  // ---------------------------------------------------------------------
  // loop

  /** The body `ch` written out `j` times in a row. */
  function Unroll(ch: seq<Node>, j: nat): seq<Node>
  {
    if j == 0 then [] else ch + Unroll(ch, j - 1)
  }

  /** Every unrolling of a well-formed body is well formed. */
  lemma {:induction false} UnrollWellFormed(ch: seq<Node>, j: nat)
    requires AllWellFormed(ch)
    ensures AllWellFormed(Unroll(ch, j))
  {
    if j > 0 {
      UnrollWellFormed(ch, j - 1);
      var u := Unroll(ch, j - 1);
      assert forall i :: |ch| <= i < |ch + u| ==> (ch + u)[i] == u[i - |ch|];
    }
  }

  /** How many successful body runs a loop with `attempts` runs left makes on `s`. */
  function Runs(ch: seq<Node>, s: seq<string>, attempts: nat): (j: nat)
    requires AllWellFormed(ch)
    ensures j <= attempts
    decreases attempts
  {
    if attempts == 0 then 0
    else
      var body := MatchSeq(ch, s);
      if !body.valid then 0 else 1 + Runs(ch, body.remaining, attempts - 1)
  }

  /** One more copy of a body that matches `s` extends the unrolled sequence by that match. */
  lemma UnrollStep(ch: seq<Node>, j: nat, s: seq<string>)
    requires AllWellFormed(ch) && MatchSeq(ch, s).valid
    ensures AllWellFormed(Unroll(ch, j)) && AllWellFormed(Unroll(ch, j + 1))
    ensures var u := MatchSeq(Unroll(ch, j), MatchSeq(ch, s).remaining);
            MatchSeq(Unroll(ch, j + 1), s) == MatchResult(u.valid, u.remaining, MatchSeq(ch, s).processedNodes + u.processedNodes - 1)
  {
    UnrollWellFormed(ch, j);
    UnrollWellFormed(ch, j + 1);
    assert Unroll(ch, j + 1) == ch + Unroll(ch, j);
    SeqAppend(ch, Unroll(ch, j), s);
  }

  /**
   * A loop is greedy: it matches like its body unrolled into one sequence
   * as many times as it runs successfully, and it stops only at the limit
   * or when one more run would fail.  Its cost is that sequence's plus one
   * per run: the failed final attempt is not paid for.
   */
  lemma {:induction false} LoopUnrolls(ch: seq<Node>, s: seq<string>, attempts: nat)
    requires AllWellFormed(ch)
    ensures AllWellFormed(Unroll(ch, Runs(ch, s, attempts)))
    ensures MatchSeq(Unroll(ch, Runs(ch, s, attempts)), s).valid
    ensures MatchLoop(ch, s, attempts).remaining == MatchSeq(Unroll(ch, Runs(ch, s, attempts)), s).remaining
    ensures MatchLoop(ch, s, attempts).processedNodes ==
              MatchSeq(Unroll(ch, Runs(ch, s, attempts)), s).processedNodes + Runs(ch, s, attempts)
    ensures Runs(ch, s, attempts) < attempts ==> !MatchSeq(ch, MatchLoop(ch, s, attempts).remaining).valid
    decreases attempts
  {
    var j := Runs(ch, s, attempts);
    UnrollWellFormed(ch, j);
    if attempts == 0 || !MatchSeq(ch, s).valid {
      assert j == 0 && Unroll(ch, 0) == [];
      assert MatchLoop(ch, s, attempts) == MatchResult(true, s, 1);
    } else {
      var body := MatchSeq(ch, s);
      var more := MatchLoop(ch, body.remaining, attempts - 1);
      var k := Runs(ch, body.remaining, attempts - 1);
      assert j == k + 1;
      assert MatchLoop(ch, s, attempts) == MatchResult(true, more.remaining, body.processedNodes + more.processedNodes);
      LoopUnrolls(ch, body.remaining, attempts - 1);
      UnrollStep(ch, k, s);
    }
  }

  /** On a non-empty suffix a loop node never fails, and it stops early only when its body fails. */
  lemma LoopNeverFails(node: Node, s: seq<string>)
    requires WellFormed(node) && node.name == LoopName && |s| > 0
    ensures Match(node, s).valid
    ensures !MatchSeq(node.children, s).valid ==> Match(node, s) == MatchResult(true, s, 1)
  {
  }

  /** `n` copies of the activity `a`. */
  function Repeat(a: string, n: nat): (t: seq<string>)
    ensures |t| == n && forall i :: 0 <= i < n ==> t[i] == a
  {
    if n == 0 then [] else [a] + Repeat(a, n - 1)
  }

  /** A loop over one leaf `a` on a run of `a`s consumes `min(attempts, n)` of them, at cost 2 per run. */
  lemma {:induction false} LoopOverRun(a: string, n: nat, attempts: nat)
    requires IsActivityName(a)
    ensures var k := if attempts <= n then attempts else n;
            MatchLoop([Leaf(a)], Repeat(a, n), attempts) == MatchResult(true, Repeat(a, n - k), 1 + 2 * k)
  {
    SeqSingleton(Leaf(a), Repeat(a, n));
    if attempts > 0 && n > 0 {
      assert Repeat(a, n)[1..] == Repeat(a, n - 1);
      LoopOverRun(a, n - 1, attempts - 1);
    }
  }

  /** `loop(X)` on 25 `X`s stops after 20 runs and leaves 5 of them. */
  lemma LoopStopsAtLimit()
    ensures Match(Node(LoopName, [Leaf("X")]), Repeat("X", 25)) == MatchResult(true, Repeat("X", 5), 41)
  {
    LoopOverRun("X", 25, LoopLimit);
  }

  // ---------------------------------------------------------------------
  // optional

  /**
   * On a non-empty suffix an optional node always succeeds: it takes its
   * child's match when the child succeeds and otherwise keeps the suffix;
   * either way it pays for the child and itself.
   */
  lemma OptionalKeepsOnFailure(node: Node, s: seq<string>)
    requires WellFormed(node) && node.name == OptionalName && |s| > 0
    ensures WellFormed(node.children[0])
    ensures var r, c := Match(node, s), Match(node.children[0], s);
            r.valid &&
            r.remaining == (if c.valid then c.remaining else s) &&
            r.processedNodes == c.processedNodes + 1
  {
    assert AllWellFormed(node.children);
  }

  // ---------------------------------------------------------------------
  // Small trees

  /** `seq(X, Y)` consumes `[X, Y]` completely. */
  lemma SeqScenario()
    ensures Match(Node(SeqName, [Leaf("X"), Leaf("Y")]), ["X", "Y"]) == MatchResult(true, [], 3)
  {
    var ch := [Leaf("X"), Leaf("Y")];
    assert ch[1..] == [Leaf("Y")] && ch[1..][1..] == [];
    assert ["X", "Y"][1..] == ["Y"] && ["Y"][1..] == [];
  }

  /** `xor(X, X)` rejects `[X]`: two children succeed, not exactly one. */
  lemma XorScenario()
    ensures Match(Node(XorName, [Leaf("X"), Leaf("X")]), ["X"]) == MatchResult(false, ["X"], 3)
  {
    var ch := [Leaf("X"), Leaf("X")];
    XorExactlyOne(ch, ["X"]);
    assert Match(ch[0], ["X"]).valid && Match(ch[1], ["X"]).valid;
    assert !OnlyValidChild(ch, ["X"], 0) && !OnlyValidChild(ch, ["X"], 1);
    assert ch[1..] == [Leaf("X")] && ch[1..][1..] == [];
  }

  /** `and(A, B)` accepts `[B, A]` through its second ordering, after paying for the first. */
  lemma AndScenario()
    ensures Match(Node(AndName, [Leaf("A"), Leaf("B")]), ["B", "A"]) == MatchResult(true, [], 6)
  {
    var a, b := Leaf("A"), Leaf("B");
    PermutePair(a, b);
    var s := ["B", "A"];
    assert s[1..] == ["A"] && ["A"][1..] == [];
    assert [a, b][1..] == [b] && [b, a][1..] == [a] && [a][1..] == [] && [b][1..] == [];
    assert Match(a, s) == MatchResult(false, ["A"], 1);
    assert MatchSeq([a, b], s) == MatchResult(false, ["A"], 2);
    assert Match(b, s) == MatchResult(true, ["A"], 1);
    assert Match(a, ["A"]) == MatchResult(true, [], 1);
    assert MatchSeq([a], ["A"]) == MatchResult(true, [], 2);
    assert MatchSeq([b, a], s) == MatchResult(true, [], 3);
    assert [[a, b], [b, a]][1..] == [[b, a]];
  }

  /**
   * `optional(X)` on `[Y]` succeeds and leaves `[Y]` untouched;
   * `seq(optional(X), Y)` accepts both `[Y]` and `[X, Y]`.
   */
  lemma OptionalScenario()
    ensures Match(Node(OptionalName, [Leaf("X")]), ["Y"]) == MatchResult(true, ["Y"], 2)
    ensures Match(Node(SeqName, [Node(OptionalName, [Leaf("X")]), Leaf("Y")]), ["Y"]) == MatchResult(true, [], 4)
    ensures Match(Node(SeqName, [Node(OptionalName, [Leaf("X")]), Leaf("Y")]), ["X", "Y"]) == MatchResult(true, [], 4)
  {
    var x, y := Leaf("X"), Leaf("Y");
    var opt := Node(OptionalName, [x]);
    assert [opt, y][1..] == [y] && [y][1..] == [];
    assert ["X", "Y"][1..] == ["Y"] && ["Y"][1..] == [];
    assert Match(x, ["Y"]) == MatchResult(false, [], 1);
    assert Match(opt, ["Y"]) == MatchResult(true, ["Y"], 2);
    assert Match(x, ["X", "Y"]) == MatchResult(true, ["Y"], 1);
    assert Match(opt, ["X", "Y"]) == MatchResult(true, ["Y"], 2);
    assert Match(y, ["Y"]) == MatchResult(true, [], 1);
    assert MatchSeq([y], ["Y"]) == MatchResult(true, [], 2);
  }
}
