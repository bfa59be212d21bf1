/** shuffledCopy: group values are handed out in the order of a random
    permutation, which this model takes as an input. */
module Shuffle {
  import opened Types

  function Iota(n: nat): (r: seq<nat>)
    ensures |r| == n && forall i :: 0 <= i < n ==> r[i] == i
  {
    seq(n, i => i)
  }

  /** What `rand.Perm(n)` returns: the numbers 0 .. n-1, each once. */
  ghost predicate IsPermutation(perm: seq<nat>, n: nat)
  {
    multiset(perm) == multiset(Iota(n))
  }

  /** The items at the given positions, in the order of the positions. */
  ghost function Pick(items: seq<Value>, idx: seq<nat>): (r: seq<Value>)
    requires forall i :: 0 <= i < |idx| ==> idx[i] < |items|
    ensures |r| == |idx| && forall i :: 0 <= i < |idx| ==> r[i] == items[idx[i]]
  {
    seq(|idx|, i requires 0 <= i < |idx| => items[idx[i]])
  }

  lemma PermutationInBounds(perm: seq<nat>, n: nat)
    requires IsPermutation(perm, n)
    ensures |perm| == n && forall i :: 0 <= i < |perm| ==> perm[i] < n
  {
    assert |multiset(perm)| == |perm|;
    forall i | 0 <= i < |perm|
      ensures perm[i] < n
    {
      assert perm[i] in multiset(Iota(n));
    }
  }

  /** The list with position j taken out. */
  function Without(b: seq<nat>, j: nat): (r: seq<nat>)
    requires j < |b|
    ensures |r| == |b| - 1
    ensures forall i :: 0 <= i < |r| ==> r[i] == if i < j then b[i] else b[i + 1]
  {
    b[..j] + b[j + 1..]
  }

  lemma MultisetRemoveAt(b: seq<nat>, j: nat)
    requires j < |b|
    ensures multiset(Without(b, j)) == multiset(b) - multiset{b[j]}
  {
    assert b == b[..j] + [b[j]] + b[j + 1..];
  }

  /** Removing one position from the index list removes its item from the
      multiset of picked items. */
  lemma PickRemoveAt(items: seq<Value>, b: seq<nat>, j: nat)
    requires forall i :: 0 <= i < |b| ==> b[i] < |items|
    requires j < |b|
    ensures multiset(Pick(items, b))
            == multiset{items[b[j]]} + multiset(Pick(items, Without(b, j)))
  {
    var p := Pick(items, b);
    var q := Pick(items, Without(b, j));
    assert q == p[..j] + p[j + 1..];
    assert p == p[..j] + [p[j]] + p[j + 1..];
  }

  /** Picking by two index lists with the same multiset yields two lists of
      items with the same multiset. */
  lemma {:induction false} PickRespectsMultiset(items: seq<Value>, a: seq<nat>, b: seq<nat>)
    requires forall i :: 0 <= i < |a| ==> a[i] < |items|
    requires forall i :: 0 <= i < |b| ==> b[i] < |items|
    requires multiset(a) == multiset(b)
    ensures multiset(Pick(items, a)) == multiset(Pick(items, b))
    decreases |a|
  {
    if a == [] {
      assert |multiset(b)| == 0;
    } else {
      assert a[0] in multiset(b);
      var j :| 0 <= j < |b| && b[j] == a[0];
      PickStep(items, a, b, j);
      PickRespectsMultiset(items, Without(a, 0), Without(b, j));
    }
  }

  /** Taking out the first position of `a` and a position of `b` holding the
      same index leaves two index lists with equal multisets, and removes
      the same item from both picks. */
  lemma PickStep(items: seq<Value>, a: seq<nat>, b: seq<nat>, j: nat)
    requires forall i :: 0 <= i < |a| ==> a[i] < |items|
    requires forall i :: 0 <= i < |b| ==> b[i] < |items|
    requires multiset(a) == multiset(b) && 0 < |a| && j < |b| && b[j] == a[0]
    ensures forall i :: 0 <= i < |Without(a, 0)| ==> Without(a, 0)[i] < |items|
    ensures forall i :: 0 <= i < |Without(b, j)| ==> Without(b, j)[i] < |items|
    ensures multiset(Without(a, 0)) == multiset(Without(b, j))
    ensures multiset(Pick(items, a)) == multiset{items[a[0]]} + multiset(Pick(items, Without(a, 0)))
    ensures multiset(Pick(items, b)) == multiset{items[a[0]]} + multiset(Pick(items, Without(b, j)))
  {
    MultisetRemoveAt(b, j);
    MultisetRemoveAt(a, 0);
    PickRemoveAt(items, b, j);
    PickRemoveAt(items, a, 0);
  }

  /** Fills a fresh array with `items[perm[i]]` at position i. The result is
      a permutation of the items: same length, same multiset. */
  method ShuffledCopy(items: seq<Value>, perm: seq<nat>) returns (r: seq<Value>)
    requires IsPermutation(perm, |items|)
    ensures |r| == |items| == |perm| && multiset(r) == multiset(items)
    ensures forall i :: 0 <= i < |r| ==> 0 <= perm[i] < |items| && r[i] == items[perm[i]]
  {
    PermutationInBounds(perm, |items|);
    var newItems := new Value[|items|];
    var i := 0;
    while i < |perm|
      invariant 0 <= i <= |perm|
      invariant forall m :: 0 <= m < i ==> newItems[m] == items[perm[m]]
    {
      newItems[i] := items[perm[i]];
      i := i + 1;
    }
    r := newItems[..];
    assert r == Pick(items, perm);
    PickRespectsMultiset(items, perm, Iota(|items|));
    assert Pick(items, Iota(|items|)) == items;
  }
}
