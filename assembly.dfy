/** Dataset assembly in `main`: the dense feature matrix, the label column and
    the identity `order` vector, built from the descriptors of the positive
    images followed by those of the negative images. */
module Assembly {
  import opened Permutations

  /** Label of positive (pedestrian) samples. */
  const Positive: int := 1
  /** Label of negative samples. */
  const Negative: int := 0

  /** The label column as assembled: P positives first, then Q negatives. */
  function AssembledLabels(p: nat, q: nat): seq<int>
  {
    seq(p + q, r => if r < p then Positive else Negative)
  }

  /** n copies of v. */
  function Repeat<T>(v: T, n: nat): seq<T>
  {
    seq(n, _ => v)
  }

  /** n copies of v contribute v exactly n times, and nothing else. */
  lemma {:induction false} RepeatCount<T>(v: T, n: nat, w: T)
    ensures multiset(Repeat(v, n))[v] == n
    ensures w != v ==> multiset(Repeat(v, n))[w] == 0
  {
    if n > 0 {
      RepeatCount(v, n - 1, w);
      assert Repeat(v, n) == Repeat(v, n - 1) + [v];
    }
  }

  /** Every assembled row gets a label, and the column holds exactly P ones and Q zeros. */
  lemma LabelCounts(p: nat, q: nat)
    ensures |AssembledLabels(p, q)| == p + q
    ensures multiset(AssembledLabels(p, q))[Positive] == p
    ensures multiset(AssembledLabels(p, q))[Negative] == q
  {
    assert AssembledLabels(p, q) == Repeat(Positive, p) + Repeat(Negative, q);
    RepeatCount(Positive, p, Negative);
    RepeatCount(Negative, q, Positive);
  }

  /** Every descriptor has at least d values: the copy loops read `descriptors[j]`
      for j < d without checking the length. */
  predicate LongEnough(descriptors: seq<seq<real>>, d: nat)
  {
    forall i :: 0 <= i < |descriptors| ==> |descriptors[i]| >= d
  }

  /** Builds the N x d feature matrix (N = |pos| + |neg|), zero-initialised and
      then filled row by row: positive image i in row i with label 1, negative
      image i in row |pos| + i with label 0, only columns 0..d-1 copied; and the
      identity `order` vector. */
  method Assemble(pos: seq<seq<real>>, neg: seq<seq<real>>, d: nat)
    returns (features: array2<real>, labels: array<int>, order: array<int>)
    requires LongEnough(pos, d) && LongEnough(neg, d)
    ensures features.Length0 == |pos| + |neg| && features.Length1 == d
    ensures forall i, j :: 0 <= i < |pos| && 0 <= j < d ==> features[i, j] == pos[i][j]
    ensures forall i, j :: 0 <= i < |neg| && 0 <= j < d ==> features[|pos| + i, j] == neg[i][j]
    ensures labels[..] == AssembledLabels(|pos|, |neg|)
    ensures order[..] == Range(|pos| + |neg|)
    ensures fresh(features) && fresh(labels) && fresh(order)
  {
    var p, n := |pos|, |pos| + |neg|;
    features := new real[n, d]((_, _) => 0.0);
    labels := new int[n](_ => 0);
    order := new int[n](_ => 0);

    // positives: rows [0, p), label 1
    var i := 0;
    while i < p
      invariant 0 <= i <= p
      invariant forall r, c :: 0 <= r < i && 0 <= c < d ==> features[r, c] == pos[r][c]
      invariant forall r, c :: i <= r < n && 0 <= c < d ==> features[r, c] == 0.0
      invariant forall r :: 0 <= r < i ==> labels[r] == Positive && order[r] == r
    {
      ghost var labelsDone, orderDone := labels[..], order[..];
      var j := 0;
      while j < d
        invariant 0 <= j <= d
        invariant forall r, c :: 0 <= r < i && 0 <= c < d ==> features[r, c] == pos[r][c]
        invariant forall c :: 0 <= c < j ==> features[i, c] == pos[i][c]
        invariant forall r, c :: i <= r < n && 0 <= c < d && (r != i || c >= j) ==> features[r, c] == 0.0
        invariant labels[..] == labelsDone && order[..] == orderDone
      {
        features[i, j] := pos[i][j];
        j := j + 1;
      }
      labels[i] := Positive;
      order[i] := i;
      i := i + 1;
    }

    // negatives: rows [p, n), label 0
    i := 0;
    while i < |neg|
      invariant 0 <= i <= |neg|
      invariant forall r, c :: 0 <= r < p && 0 <= c < d ==> features[r, c] == pos[r][c]
      invariant forall r, c :: 0 <= r < i && 0 <= c < d ==> features[p + r, c] == neg[r][c]
      invariant forall r :: 0 <= r < p ==> labels[r] == Positive && order[r] == r
      invariant forall r :: p <= r < p + i ==> labels[r] == Negative && order[r] == r
    {
      ghost var labelsDone, orderDone := labels[..], order[..];
      var j := 0;
      while j < d
        invariant 0 <= j <= d
        invariant forall r, c :: 0 <= r < p && 0 <= c < d ==> features[r, c] == pos[r][c]
        invariant forall r, c :: 0 <= r < i && 0 <= c < d ==> features[p + r, c] == neg[r][c]
        invariant forall c :: 0 <= c < j ==> features[p + i, c] == neg[i][c]
        invariant labels[..] == labelsDone && order[..] == orderDone
      {
        features[p + i, j] := neg[i][j];
        j := j + 1;
      }
      labels[p + i] := Negative;
      order[p + i] := p + i;
      i := i + 1;
    }
  }
}
