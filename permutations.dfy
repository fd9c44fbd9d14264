/**
 * The permutation enumerator a parallel-composition ("and") node uses to
 * try every ordering of its children.
 *
 * The enumeration is eager: `Permute(source)` is the whole list of
 * orderings, in the order the lazy generator yields them.  A singleton
 * yields itself; otherwise the orderings come in blocks, block i being
 * `source[i]` put in front of every ordering of `source` with position i
 * removed.  An empty input yields no ordering at all.
 */
module Permutations {

  function Factorial(n: nat): (r: nat)
    ensures r >= 1
  {
    if n == 0 then 1 else n * Factorial(n - 1)
  }

  /** `s` with the element at position `i` taken out (Take(i) ++ Skip(i + 1)). */
  function Without<T>(s: seq<T>, i: nat): (r: seq<T>)
    requires i < |s|
    ensures |r| == |s| - 1
    ensures forall j :: 0 <= j < |r| ==> r[j] == s[if j < i then j else j + 1]
  {
    s[..i] + s[i + 1..]
  }

  /** Taking out position i removes exactly one occurrence of `s[i]`. */
  lemma WithoutMultiset<T>(s: seq<T>, i: nat)
    requires i < |s|
    ensures multiset(Without(s, i)) + multiset{s[i]} == multiset(s)
  {
    assert s == s[..i] + [s[i]] + s[i + 1..];
  }

  /** Puts `x` in front of every ordering in `ps`. */
  function PrependAll<T>(x: T, ps: seq<seq<T>>): seq<seq<T>>
  {
    seq(|ps|, k requires 0 <= k < |ps| => [x] + ps[k])
  }

  /** `p` rearranges the elements of `source`: same length, same multiset. */
  ghost predicate IsOrderingOf<T>(p: seq<T>, source: seq<T>)
  {
    |p| == |source| && multiset(p) == multiset(source)
  }

  /** Every ordering of `source`, in enumeration order. */
  function Permute<T>(source: seq<T>): seq<seq<T>>
    decreases |source|, 1
  {
    (if |source| == 1 then [[source[0]]] else []) + PermuteFrom(source, 0)
  }

  /** The blocks i, i + 1, ..., |source| - 1 of the enumeration, concatenated. */
  function PermuteFrom<T>(source: seq<T>, i: nat): seq<seq<T>>
    requires i <= |source|
    decreases |source|, 0, |source| - i
  {
    if i == |source| then []
    else
      PrependAll(source[i], Permute(Without(source, i))) + PermuteFrom(source, i + 1)
  }

  // ---------------------------------------------------------------------
  // Every ordering is a rearrangement of the input

  lemma {:induction false} PermuteOrderings<T>(source: seq<T>)
    ensures forall k :: 0 <= k < |Permute(source)| ==> IsOrderingOf(Permute(source)[k], source)
    decreases |source|, 1
  {
    PermuteFromOrderings(source, 0);
  }

  lemma {:induction false} PermuteFromOrderings<T>(source: seq<T>, i: nat)
    requires i <= |source|
    ensures forall k :: 0 <= k < |PermuteFrom(source, i)| ==> IsOrderingOf(PermuteFrom(source, i)[k], source)
    decreases |source|, 0, |source| - i
  {
    if i < |source| {
      var rest := Permute(Without(source, i));
      var block := PrependAll(source[i], rest);
      PermuteOrderings(Without(source, i));
      PermuteFromOrderings(source, i + 1);
      WithoutMultiset(source, i);
      forall k | 0 <= k < |block| ensures IsOrderingOf(block[k], source) {
        assert block[k] == [source[i]] + rest[k];
        assert IsOrderingOf(rest[k], Without(source, i));
      }
      assert PermuteFrom(source, i) == block + PermuteFrom(source, i + 1);
    }
  }

  lemma {:induction false} PermuteLengths<T>(source: seq<T>)
    ensures forall k :: 0 <= k < |Permute(source)| ==> |Permute(source)[k]| == |source|
    decreases |source|, 1
  {
    PermuteFromLengths(source, 0);
  }

  lemma {:induction false} PermuteFromLengths<T>(source: seq<T>, i: nat)
    requires i <= |source|
    ensures forall k :: 0 <= k < |PermuteFrom(source, i)| ==> |PermuteFrom(source, i)[k]| == |source|
    decreases |source|, 0, |source| - i
  {
    if i < |source| {
      var block := PrependAll(source[i], Permute(Without(source, i)));
      PermuteLengths(Without(source, i));
      PermuteFromLengths(source, i + 1);
      assert PermuteFrom(source, i) == block + PermuteFrom(source, i + 1);
    }
  }

  // ---------------------------------------------------------------------
  // How many orderings there are

  /** How many orderings `Permute` yields for an input of length n. */
  function OrderingCount(n: nat): nat
  {
    if n == 0 then 0 else Factorial(n)
  }

  lemma {:induction false} PermuteCount<T>(source: seq<T>)
    ensures |Permute(source)| == OrderingCount(|source|)
    decreases |source|, 1
  {
    if |source| >= 1 {
      PermuteFromCount(source, 0);
    }
    if |source| >= 2 {
      assert |source| * OrderingCount(|source| - 1) == Factorial(|source|);
    }
  }

  lemma MulSucc(m: nat, f: nat)
    ensures (m + 1) * f == f + m * f
  {
  }

  lemma {:induction false} PermuteFromCount<T>(source: seq<T>, i: nat)
    requires 1 <= |source| && i <= |source|
    ensures |PermuteFrom(source, i)| == (|source| - i) * OrderingCount(|source| - 1)
    decreases |source|, 0, |source| - i
  {
    if i < |source| {
      PermuteCount(Without(source, i));
      PermuteFromCount(source, i + 1);
      var f := OrderingCount(|source| - 1);
      assert |PrependAll(source[i], Permute(Without(source, i)))| == f;
      MulSucc(|source| - (i + 1), f);
    }
  }

  // ---------------------------------------------------------------------
  // The small cases

  /** An empty input yields no ordering: the singleton branch is not taken and no block exists. */
  lemma PermuteEmpty<T>()
    ensures Permute<T>([]) == []
  {
  }

  /** A singleton yields exactly itself, once; the block after it is empty. */
  lemma PermuteSingleton<T>(x: T)
    ensures Permute([x]) == [[x]]
  {
    PermuteCount([x]);
  }

  /** For [a, b] the first block starts with a and the second with b. */
  lemma PermutePair<T>(a: T, b: T)
    ensures Permute([a, b]) == [[a, b], [b, a]]
  {
    assert Without([a, b], 0) == [b];
    assert Without([a, b], 1) == [a];
    PermuteSingleton(a);
    PermuteSingleton(b);
    var ab, ba := PrependAll(a, [[b]]), PrependAll(b, [[a]]);
    assert |ab| == 1 && ab[0] == [a] + [b];
    assert |ba| == 1 && ba[0] == [b] + [a];
    assert [a] + [b] == [a, b] && [b] + [a] == [b, a];
    assert ab == [[a, b]] && ba == [[b, a]];
    assert PermuteFrom([a, b], 2) == [];
    assert PermuteFrom([a, b], 1) == [[b, a]];
    assert PermuteFrom([a, b], 0) == [[a, b], [b, a]];
  }

  // ---------------------------------------------------------------------
  // Block structure: block i holds source[i] before each ordering of the rest

  lemma {:induction false} PermuteBlock<T>(source: seq<T>, i: nat, k: nat)
    requires 2 <= |source| && i < |source| && k < Factorial(|source| - 1)
    ensures k < |Permute(Without(source, i))|
    ensures i * Factorial(|source| - 1) + k < |Permute(source)|
    ensures Permute(source)[i * Factorial(|source| - 1) + k] == [source[i]] + Permute(Without(source, i))[k]
  {
    var f := Factorial(|source| - 1);
    BlockOffsetIsProduct(i, f);
    PermuteFromBlock(source, 0, i, k, f);
    PermuteIsBlocks(source);
  }

  /** Past the singleton case the enumeration is just its blocks. */
  lemma PermuteIsBlocks<T>(source: seq<T>)
    requires |source| != 1
    ensures Permute(source) == PermuteFrom(source, 0)
  {
    assert Permute(source) == [] + PermuteFrom(source, 0);
  }

  /** b blocks of f orderings each: the offset of block b. */
  function BlockOffset(b: nat, f: nat): nat
  {
    if b == 0 then 0 else f + BlockOffset(b - 1, f)
  }

  lemma {:induction false} BlockOffsetIsProduct(b: nat, f: nat)
    ensures BlockOffset(b, f) == b * f
  {
    if b > 0 {
      BlockOffsetIsProduct(b - 1, f);
      MulSucc(b - 1, f);
    }
  }

  /** Block i starts at BlockOffset(i - j, f) in the blocks from j on, f being the block size. */
  lemma {:induction false} PermuteFromBlock<T>(source: seq<T>, j: nat, i: nat, k: nat, f: nat)
    requires 2 <= |source| && j <= i < |source| && f == Factorial(|source| - 1) && k < f
    ensures k < |Permute(Without(source, i))|
    ensures BlockOffset(i - j, f) + k < |PermuteFrom(source, j)|
    ensures PermuteFrom(source, j)[BlockOffset(i - j, f) + k] == [source[i]] + Permute(Without(source, i))[k]
    decreases i - j
  {
    PermuteCount(Without(source, i));
    if j == i {
      FirstBlock(source, i, k);
    } else {
      PermuteFromBlock(source, j + 1, i, k, f);
      PermuteCount(Without(source, j));
      SkipBlock(source, j, BlockOffset(i - (j + 1), f) + k);
    }
  }

  lemma {:induction false} FirstBlock<T>(source: seq<T>, i: nat, k: nat)
    requires i < |source| && k < |Permute(Without(source, i))|
    ensures k < |PermuteFrom(source, i)|
    ensures PermuteFrom(source, i)[k] == [source[i]] + Permute(Without(source, i))[k]
  {
    var block := PrependAll(source[i], Permute(Without(source, i)));
    var later := PermuteFrom(source, i + 1);
    assert PermuteFrom(source, i) == block + later;
    assert (block + later)[k] == block[k];
  }

  lemma {:induction false} SkipBlock<T>(source: seq<T>, j: nat, m: nat)
    requires j < |source| && m < |PermuteFrom(source, j + 1)|
    ensures |Permute(Without(source, j))| + m < |PermuteFrom(source, j)|
    ensures PermuteFrom(source, j)[|Permute(Without(source, j))| + m] == PermuteFrom(source, j + 1)[m]
  {
    var block := PrependAll(source[j], Permute(Without(source, j)));
    var later := PermuteFrom(source, j + 1);
    assert PermuteFrom(source, j) == block + later;
    assert (block + later)[|block| + m] == later[m];
  }

  // ---------------------------------------------------------------------
  // Positions: with repeated elements, the orderings are those of the
  // positions 0 .. n - 1, read back through the input

  predicate Indexes(q: seq<int>, n: nat)
  {
    forall j :: 0 <= j < |q| ==> 0 <= q[j] < n
  }

  /** The elements of `s` at the positions `q`, in the order of `q`. */
  function Select<T>(s: seq<T>, q: seq<int>): (r: seq<T>)
    requires Indexes(q, |s|)
    ensures |r| == |q|
  {
    seq(|q|, j requires 0 <= j < |q| => s[q[j]])
  }

  function SelectAll<T>(s: seq<T>, ps: seq<seq<int>>): (r: seq<seq<T>>)
    requires forall k :: 0 <= k < |ps| ==> Indexes(ps[k], |s|)
    ensures |r| == |ps|
  {
    seq(|ps|, k requires 0 <= k < |ps| => Select(s, ps[k]))
  }

  /** The positions 0, 1, ..., n - 1. */
  function Positions(n: nat): (r: seq<int>)
    ensures |r| == n && Indexes(r, n)
  {
    seq(n, i requires 0 <= i < n => i)
  }

  lemma PermutedIndexes(q: seq<int>, p: seq<int>, n: nat)
    requires Indexes(q, n) && IsOrderingOf(p, q)
    ensures Indexes(p, n)
  {
    forall j | 0 <= j < |p| ensures 0 <= p[j] < n {
      assert p[j] in multiset(q);
      var i :| 0 <= i < |q| && q[i] == p[j];
    }
  }

  lemma AllPermutedIndexes(q: seq<int>, n: nat)
    requires Indexes(q, n)
    ensures forall k :: 0 <= k < |Permute(q)| ==> Indexes(Permute(q)[k], n)
  {
    PermuteOrderings(q);
    forall k | 0 <= k < |Permute(q)| ensures Indexes(Permute(q)[k], n) {
      PermutedIndexes(q, Permute(q)[k], n);
    }
  }

  lemma AllPermutedFromIndexes(q: seq<int>, i: nat, n: nat)
    requires Indexes(q, n) && i <= |q|
    ensures forall k :: 0 <= k < |PermuteFrom(q, i)| ==> Indexes(PermuteFrom(q, i)[k], n)
  {
    PermuteFromOrderings(q, i);
    forall k | 0 <= k < |PermuteFrom(q, i)| ensures Indexes(PermuteFrom(q, i)[k], n) {
      PermutedIndexes(q, PermuteFrom(q, i)[k], n);
    }
  }

  lemma SelectAllAppend<T>(s: seq<T>, a: seq<seq<int>>, b: seq<seq<int>>)
    requires forall k :: 0 <= k < |a| ==> Indexes(a[k], |s|)
    requires forall k :: 0 <= k < |b| ==> Indexes(b[k], |s|)
    ensures forall k :: 0 <= k < |a + b| ==> Indexes((a + b)[k], |s|)
    ensures SelectAll(s, a + b) == SelectAll(s, a) + SelectAll(s, b)
  {
    assert forall k :: |a| <= k < |a + b| ==> (a + b)[k] == b[k - |a|];
  }

  lemma SelectPrependAll<T>(s: seq<T>, x: int, ps: seq<seq<int>>)
    requires 0 <= x < |s| && forall k :: 0 <= k < |ps| ==> Indexes(ps[k], |s|)
    ensures forall k :: 0 <= k < |ps| ==> Indexes(PrependAll(x, ps)[k], |s|)
    ensures PrependAll(s[x], SelectAll(s, ps)) == SelectAll(s, PrependAll(x, ps))
  {
    var block := PrependAll(x, ps);
    forall k | 0 <= k < |ps|
      ensures Indexes(block[k], |s|) && Select(s, block[k]) == [s[x]] + Select(s, ps[k])
    {
      assert block[k] == [x] + ps[k];
    }
  }

  lemma SelectWithout<T>(s: seq<T>, q: seq<int>, i: nat)
    requires Indexes(q, |s|) && i < |q|
    ensures Indexes(Without(q, i), |s|)
    ensures Without(Select(s, q), i) == Select(s, Without(q, i))
  {
    var rest := Without(q, i);
    forall j | 0 <= j < |rest| ensures rest[j] == q[if j < i then j else j + 1] {
    }
  }

  /** Enumerating the orderings commutes with reading positions through `s`. */
  lemma {:induction false} PermuteSelect<T>(s: seq<T>, q: seq<int>)
    requires Indexes(q, |s|)
    ensures forall k :: 0 <= k < |Permute(q)| ==> Indexes(Permute(q)[k], |s|)
    ensures Permute(Select(s, q)) == SelectAll(s, Permute(q))
    decreases |q|, 1
  {
    AllPermutedIndexes(q, |s|);
    AllPermutedFromIndexes(q, 0, |s|);
    PermuteFromSelect(s, q, 0);
    var head: seq<seq<int>> := if |q| == 1 then [[q[0]]] else [];
    var sq := Select(s, q);
    if |q| == 1 {
      assert Select(s, head[0]) == [sq[0]];
      assert SelectAll(s, head) == [[sq[0]]];
    }
    SelectAllAppend(s, head, PermuteFrom(q, 0));
  }

  lemma {:induction false} PermuteFromSelect<T>(s: seq<T>, q: seq<int>, i: nat)
    requires Indexes(q, |s|) && i <= |q|
    ensures forall k :: 0 <= k < |PermuteFrom(q, i)| ==> Indexes(PermuteFrom(q, i)[k], |s|)
    ensures PermuteFrom(Select(s, q), i) == SelectAll(s, PermuteFrom(q, i))
    decreases |q|, 0, |q| - i
  {
    AllPermutedFromIndexes(q, i, |s|);
    if i < |q| {
      var rest := Without(q, i);
      SelectWithout(s, q, i);
      PermuteSelect(s, rest);
      PermuteFromSelect(s, q, i + 1);
      SelectPrependAll(s, q[i], Permute(rest));
      var block, later := PrependAll(q[i], Permute(rest)), PermuteFrom(q, i + 1);
      SelectAllAppend(s, block, later);
      assert PermuteFrom(q, i) == block + later;
    }
  }

  /** Every ordering of `s` is `s` read through an ordering of its positions. */
  lemma PermuteByPosition<T>(s: seq<T>)
    ensures forall k :: 0 <= k < |Permute(Positions(|s|))| ==> Indexes(Permute(Positions(|s|))[k], |s|)
    ensures Permute(s) == SelectAll(s, Permute(Positions(|s|)))
  {
    PermuteSelect(s, Positions(|s|));
    assert Select(s, Positions(|s|)) == s;
  }

  // ---------------------------------------------------------------------
  // Distinct inputs give distinct orderings

  ghost predicate Distinct<T>(s: seq<T>)
  {
    forall i, j :: 0 <= i < j < |s| ==> s[i] != s[j]
  }

  lemma {:induction false} PermuteDistinct<T>(source: seq<T>)
    requires Distinct(source)
    ensures Distinct(Permute(source))
    decreases |source|, 1
  {
    PermuteFromDistinct(source, 0);
    if |source| == 1 {
      PermuteCount(source);
      assert |PermuteFrom(source, 0)| == 0 by {
        PermuteFromCount(source, 0);
      }
    }
  }

  lemma {:induction false} PermuteFromDistinct<T>(source: seq<T>, i: nat)
    requires Distinct(source) && i <= |source|
    ensures forall k :: 0 <= k < |PermuteFrom(source, i)| ==> |PermuteFrom(source, i)[k]| == |source| > 0
    ensures Distinct(PermuteFrom(source, i))
    ensures forall k :: 0 <= k < |PermuteFrom(source, i)| ==> PermuteFrom(source, i)[k][0] in source[i..]
    decreases |source|, 0, |source| - i
  {
    PermuteFromLengths(source, i);
    if i < |source| {
      var rest := Without(source, i);
      PermuteDistinct(rest);
      PermuteFromDistinct(source, i + 1);
      var ps := Permute(rest);
      var block := PrependAll(source[i], ps);
      var later := PermuteFrom(source, i + 1);
      assert PermuteFrom(source, i) == block + later;
      assert Distinct(block) by {
        forall a, b | 0 <= a < b < |block| ensures block[a] != block[b] {
          assert block[a][1..] == ps[a] && block[b][1..] == ps[b];
        }
      }
      assert source[i] !in source[i + 1..] by {
        forall j | i + 1 <= j < |source| ensures source[j] != source[i] { }
      }
      forall a, b | 0 <= a < |block| && 0 <= b < |later| ensures block[a] != later[b] {
        assert block[a][0] == source[i];
        assert later[b][0] in source[i + 1..];
      }
      forall k | 0 <= k < |block + later| ensures (block + later)[k][0] in source[i..] {
        if k < |block| {
          assert (block + later)[k][0] == source[i] == source[i..][0];
        } else {
          assert (block + later)[k] == later[k - |block|];
          var x := later[k - |block|][0];
          assert x in source[i + 1..];
          var j :| i + 1 <= j < |source| && source[j] == x;
          assert source[i..][j - i] == x;
        }
      }
    }
  }

  /** The positions 0 .. n - 1 have exactly n! orderings (none for n = 0),
      pairwise different, each a rearrangement of all n positions. */
  lemma PositionOrderings(n: nat)
    ensures |Permute(Positions(n))| == OrderingCount(n)
    ensures Distinct(Permute(Positions(n)))
    ensures forall k :: 0 <= k < |Permute(Positions(n))| ==> IsOrderingOf(Permute(Positions(n))[k], Positions(n))
  {
    PermuteCount(Positions(n));
    PermuteDistinct(Positions(n));
    PermuteOrderings(Positions(n));
  }
}
