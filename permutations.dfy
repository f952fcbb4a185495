/** Index vectors: the identity `order` built during assembly, the permutation
    the shuffle leaves in it, and reading a column through such an index vector. */
module Permutations {

  /** The identity index vector 0, 1, ..., n-1. */
  function Range(n: nat): seq<int>
  {
    seq(n, i => i)
  }

  /** Every entry of `idx` is a valid index into something of length `n`. */
  predicate InRange(idx: seq<int>, n: nat)
  {
    forall i :: 0 <= i < |idx| ==> 0 <= idx[i] < n
  }

  /** `order` holds exactly the indices 0..n-1, each once: sorting it gives Range(n).
      This is all that a shuffle of the identity vector guarantees. */
  predicate IsPermutation(order: seq<int>, n: nat)
  {
    multiset(order) == multiset(Range(n))
  }

  /** The sequence seen when `s` is read through the index vector `idx`. */
  function Gather<T>(s: seq<T>, idx: seq<int>): seq<T>
    requires InRange(idx, |s|)
  {
    seq(|idx|, i requires 0 <= i < |idx| => s[idx[i]])
  }

  /** A permutation of 0..n-1 has n entries, all of them valid indices. */
  lemma PermutationInRange(order: seq<int>, n: nat)
    requires IsPermutation(order, n)
    ensures |order| == n && InRange(order, n)
  {
    calc {
      |order|;
      |multiset(order)|;
      |multiset(Range(n))|;
      |Range(n)|;
    }
    forall i | 0 <= i < |order|
      ensures 0 <= order[i] < n
    {
      assert order[i] in multiset(order);
      assert order[i] in multiset(Range(n));
      assert order[i] in Range(n);
    }
  }

  /** Reading through a concatenation of index vectors concatenates the readings. */
  lemma GatherAppend<T>(s: seq<T>, a: seq<int>, b: seq<int>)
    requires InRange(a, |s|) && InRange(b, |s|)
    ensures InRange(a + b, |s|)
    ensures Gather(s, a + b) == Gather(s, a) + Gather(s, b)
  {
  }

  /** Taking the index at position k out of an index vector takes its value
      out of the multiset read through it. */
  lemma GatherRemove<T>(s: seq<T>, b: seq<int>, k: nat)
    requires InRange(b, |s|) && k < |b|
    ensures InRange(b[..k] + b[k + 1..], |s|)
    ensures multiset(Gather(s, b))
         == multiset{s[b[k]]} + multiset(Gather(s, b[..k] + b[k + 1..]))
  {
    var front, back := b[..k], b[k + 1..];
    assert b == front + [b[k]] + back;
    GatherAppend(s, front, [b[k]]);
    GatherAppend(s, front + [b[k]], back);
    GatherAppend(s, front, back);
  }

  /** Dropping the first entry of `a` and the matching entry of an index
      vector with the same multiset keeps the multisets equal. */
  lemma DropMatched(a: seq<int>, front: seq<int>, back: seq<int>)
    requires |a| > 0 && multiset(a) == multiset(front + [a[0]] + back)
    ensures multiset(a[1..]) == multiset(front + back)
  {
    assert a == [a[0]] + a[1..];
    calc {
      multiset(a[1..]);
      multiset(a) - multiset{a[0]};
      multiset(front) + multiset{a[0]} + multiset(back) - multiset{a[0]};
      multiset(front + back);
    }
  }

  /** Reading through index vectors that hold the same indices (in any order)
      yields the same multiset of values. */
  lemma {:induction false} GatherSameMultiset<T>(s: seq<T>, a: seq<int>, b: seq<int>)
    requires InRange(a, |s|) && InRange(b, |s|)
    requires multiset(a) == multiset(b)
    ensures multiset(Gather(s, a)) == multiset(Gather(s, b))
    decreases |a|
  {
    if |a| == 0 {
      assert |b| == |multiset(b)| == 0;
      assert Gather(s, a) == [] == Gather(s, b);
    } else {
      var x := a[0];
      assert x in multiset(b);
      var k :| 0 <= k < |b| && b[k] == x;
      var rest := b[..k] + b[k + 1..];
      assert b == b[..k] + [x] + b[k + 1..];
      DropMatched(a, b[..k], b[k + 1..]);
      GatherSameMultiset(s, a[1..], rest);
      GatherRemove(s, a, 0);
      assert a[..0] + a[1..] == a[1..];
      GatherRemove(s, b, k);
    }
  }

  /** Reading a sequence through a permutation of its indices rearranges it:
      the values, with their multiplicities, are the same. */
  lemma GatherPermutation<T>(s: seq<T>, order: seq<int>)
    requires IsPermutation(order, |s|)
    ensures |order| == |s| && InRange(order, |s|)
    ensures multiset(Gather(s, order)) == multiset(s)
  {
    PermutationInRange(order, |s|);
    GatherSameMultiset(s, order, Range(|s|));
    assert Gather(s, Range(|s|)) == s;
  }
}
