/** The solver's input built at the end of `main`: one flat node buffer
    (`x_space`) holding every sample row as d (index, value) nodes followed by
    a sentinel node, the row pointers `prob.x` (here: offsets into the buffer)
    and the label column `prob.y`, all read through the shuffled `order`. */
module SparseProblem {
  import opened Permutations
  import opened Assembly
  import opened Arithmetic

  /** A solver node: a 1-based feature index and its value. */
  datatype Node = Node(index: int, value: real)

  /** Index that ends a row. */
  const Sentinel: int := -1

  /** Buffer slot of column j of row i when every row takes d + 1 slots. */
  function Slot(i: nat, j: nat, d: nat): nat
  {
    i * (d + 1) + j
  }

  /** Every slot of a row lies before the first slot of the next row. */
  lemma SlotWithinRow(i: nat, j: nat, d: nat)
    requires j <= d
    ensures Slot(i, j, d) < Slot(i + 1, 0, d)
  {
    MulSucc(i, d + 1);
  }

  /** The slots of n rows of d + 1 nodes lie inside the n * (d + 1) buffer. */
  lemma SlotInBuffer(n: nat, d: nat, i: nat, j: nat)
    requires i < n && j <= d
    ensures Slot(i, j, d) < n * (d + 1)
  {
    SlotWithinRow(i, j, d);
    MulMono(i + 1, n, d + 1);
  }

  /** Every slot of an earlier row comes before the first slot of a later row. */
  lemma SlotBefore(d: nat, k: nat, j: nat, i: nat)
    requires j <= d
    ensures k < i ==> Slot(k, j, d) < Slot(i, 0, d)
  {
    SlotWithinRow(k, j, d);
    MulMono(k + 1, i, d + 1);
  }

  /** Slot ranges of different rows are disjoint: a slot determines its row and column. */
  lemma SlotsDisjoint(d: nat, i1: nat, j1: nat, i2: nat, j2: nat)
    requires j1 <= d && j2 <= d
    requires Slot(i1, j1, d) == Slot(i2, j2, d)
    ensures i1 == i2 && j1 == j2
  {
    SlotBefore(d, i1, j1, i2);
    SlotBefore(d, i2, j2, i1);
  }

  /** The rows tile the buffer: every slot belongs to some row and column. */
  lemma SlotCovers(n: nat, d: nat, k: nat)
    requires k < n * (d + 1)
    ensures k / (d + 1) < n && k % (d + 1) <= d
    ensures Slot(k / (d + 1), k % (d + 1), d) == k
  {
    var i, j := k / (d + 1), k % (d + 1);
    assert k == i * (d + 1) + j;
    MulMono(n, i, d + 1);
  }

  /** The rows of a matrix, as sequences. */
  ghost function Rows(m: array2<real>): seq<seq<real>>
    reads m
  {
    seq(m.Length0, r requires 0 <= r < m.Length0 reads m =>
      seq(m.Length1, c requires 0 <= c < m.Length1 reads m => m[r, c]))
  }

  /** Integer labels as the solver's doubles. */
  function AsDoubles(s: seq<int>): seq<real>
  {
    seq(|s|, i requires 0 <= i < |s| => s[i] as real)
  }

  /** `xs` lays out `rows` (each of d values) one after another: row i's
      column j sits in slot Slot(i, j, d) with index j + 1, and slot
      Slot(i, d, d) holds the sentinel index. */
  ghost predicate IsSparseLayout(xs: seq<Node>, rows: seq<seq<real>>, d: nat)
  {
    && |xs| == |rows| * (d + 1)
    && (forall i :: 0 <= i < |rows| ==> |rows[i]| == d)
    && (forall i, j :: 0 <= i < |rows| && 0 <= j < d ==>
          Slot(i, j, d) < |xs| && xs[Slot(i, j, d)] == Node(j + 1, rows[i][j]))
    && (forall i :: 0 <= i < |rows| ==>
          Slot(i, d, d) < |xs| && xs[Slot(i, d, d)].index == Sentinel)
  }

  /** What a consumer sees walking the buffer from slot k up to the sentinel. */
  function ReadRow(xs: seq<Node>, k: nat): seq<Node>
    decreases |xs| - k
  {
    if k >= |xs| || xs[k].index == Sentinel then [] else [xs[k]] + ReadRow(xs, k + 1)
  }

  /** Walking from column j of row i reaches the sentinel after the row's
      remaining columns, each with its 1-based index. */
  lemma {:induction false} ReadRowFrom(xs: seq<Node>, rows: seq<seq<real>>, d: nat, i: nat, j: nat)
    requires IsSparseLayout(xs, rows, d) && i < |rows| && j <= d
    ensures ReadRow(xs, Slot(i, j, d))
         == seq(d - j, t requires 0 <= t < d - j => Node(j + t + 1, rows[i][j + t]))
    decreases d - j
  {
    if j < d {
      ReadRowFrom(xs, rows, d, i, j + 1);
      assert Slot(i, j + 1, d) == Slot(i, j, d) + 1;
    }
  }

  /** Starting at row i's offset, the walk to the sentinel yields exactly the
      row's d values, with indices 1, 2, ..., d. */
  lemma ReadRowRoundTrip(xs: seq<Node>, rows: seq<seq<real>>, d: nat, i: nat)
    requires IsSparseLayout(xs, rows, d) && i < |rows|
    ensures ReadRow(xs, Slot(i, 0, d)) == seq(d, j requires 0 <= j < d => Node(j + 1, rows[i][j]))
  {
    ReadRowFrom(xs, rows, d, i, 0);
  }

  /** Builds the solver's problem from the feature matrix, its label column
      and the shuffled `order`: row i of the problem is matrix row order[i]
      and its label is labels[order[i]]. The sentinel node's value is left as
      allocated; only its index is set. */
  method BuildProblem(features: array2<real>, labels: array<int>, order: array<int>)
    returns (y: array<real>, x: array<nat>, xSpace: array<Node>)
    requires labels.Length == features.Length0 && order.Length == features.Length0
    requires InRange(order[..], features.Length0)
    ensures y.Length == x.Length == features.Length0
    ensures forall i :: 0 <= i < x.Length ==> x[i] == Slot(i, 0, features.Length1)
    ensures IsSparseLayout(xSpace[..], Gather(Rows(features), order[..]), features.Length1)
    ensures y[..] == AsDoubles(Gather(labels[..], order[..]))
    ensures fresh(y) && fresh(x) && fresh(xSpace)
  {
    var n, d := features.Length0, features.Length1;
    y := new real[n];
    x := new nat[n];
    xSpace := new Node[n * (d + 1)];
    var i := 0;
    while i < n
      invariant 0 <= i <= n
      invariant xSpace.Length == n * (d + 1)
      invariant forall k :: 0 <= k < i ==> x[k] == Slot(k, 0, d)
      invariant forall k :: 0 <= k < i ==> y[k] == labels[order[k]] as real
      invariant forall k, j :: 0 <= k < i && 0 <= j < d ==>
                  Slot(k, j, d) < xSpace.Length && xSpace[Slot(k, j, d)] == Node(j + 1, features[order[k], j])
      invariant forall k :: 0 <= k < i ==>
                  Slot(k, d, d) < xSpace.Length && xSpace[Slot(k, d, d)].index == Sentinel
    {
      x[i] := Slot(i, 0, d);
      y[i] := labels[order[i]] as real;
      SlotInBuffer(n, d, i, d);
      FillRow(features, order, xSpace, i);
      forall k, j | 0 <= k < i && 0 <= j <= d
        ensures Slot(k, j, d) < Slot(i, 0, d)
      {
        SlotBefore(d, k, j, i);
      }
      i := i + 1;
    }
    ghost var rows := Gather(Rows(features), order[..]);
    assert forall k, j :: 0 <= k < n && 0 <= j < d ==> rows[k][j] == features[order[k], j];
    assert |xSpace[..]| == |rows| * (d + 1);
  }

  /** The body of the row loop: writes row i's d nodes (1-based index, value of
      matrix row order[i]) and the sentinel index; every other slot, and the
      sentinel's value, keep what they held. */
  method FillRow(features: array2<real>, order: array<int>, xSpace: array<Node>, i: nat)
    requires i < order.Length == features.Length0
    requires 0 <= order[i] < features.Length0
    requires Slot(i, features.Length1, features.Length1) < xSpace.Length
    modifies xSpace
    ensures forall j :: 0 <= j < features.Length1 ==>
              xSpace[Slot(i, j, features.Length1)] == Node(j + 1, features[order[i], j])
    ensures xSpace[Slot(i, features.Length1, features.Length1)].index == Sentinel
    ensures xSpace[Slot(i, features.Length1, features.Length1)].value
         == old(xSpace[Slot(i, features.Length1, features.Length1)].value)
    ensures forall s ::
              0 <= s < xSpace.Length && !(Slot(i, 0, features.Length1) <= s <= Slot(i, features.Length1, features.Length1))
              ==> xSpace[s] == old(xSpace[s])
  {
    var d := features.Length1;
    var base := Slot(i, 0, d);
    var j := 0;
    while j < d
      invariant 0 <= j <= d
      invariant forall s :: 0 <= s < xSpace.Length && !(base <= s < base + j) ==> xSpace[s] == old(xSpace[s])
      invariant forall j' :: 0 <= j' < j ==> xSpace[base + j'] == Node(j' + 1, features[order[i], j'])
    {
      xSpace[base + j] := Node(j + 1, features[order[i], j]);
      j := j + 1;
    }
    xSpace[base + d] := xSpace[base + d].(index := Sentinel);
  }

  /** The problem's label column, read through a permutation of the assembled
      rows, still holds exactly P ones and Q zeros. */
  lemma ProblemLabelCounts(p: nat, q: nat, order: seq<int>)
    requires IsPermutation(order, p + q)
    ensures InRange(order, p + q)
    ensures |AsDoubles(Gather(AssembledLabels(p, q), order))| == p + q
    ensures multiset(AsDoubles(Gather(AssembledLabels(p, q), order)))[1.0] == p
    ensures multiset(AsDoubles(Gather(AssembledLabels(p, q), order)))[0.0] == q
  {
    var labels := AssembledLabels(p, q);
    LabelCounts(p, q);
    PermutationInRange(order, p + q);
    var doubles := AsDoubles(labels);
    assert AsDoubles(Gather(labels, order)) == Gather(doubles, order);
    GatherPermutation(doubles, order);
    assert doubles == Repeat(1.0, p) + Repeat(0.0, q);
    RepeatCount(1.0, p, 0.0);
    RepeatCount(0.0, q, 1.0);
  }
}
