/**
 * The regression step (`classificar_knn_sequencial`): for every query row,
 * select `k` positions from its distance row and predict the mean of the
 * training labels at those positions.
 */
module Aggregation {
  import opened Matrix
  import opened Selection

  /** Every position indexes `labels`. */
  predicate InRange(labels: seq<real>, positions: seq<int>)
  {
    forall b :: 0 <= b < |positions| ==> 0 <= positions[b] < |labels|
  }

  /** Sum of the labels at the given positions, accumulated left to right. */
  function SumAt(labels: seq<real>, positions: seq<int>): real
    requires InRange(labels, positions)
  {
    if |positions| == 0 then 0.0
    else SumAt(labels, positions[..|positions| - 1]) + labels[positions[|positions| - 1]]
  }

  /** Arithmetic mean of the labels at the given positions, without weighting by distance. */
  function Mean(labels: seq<real>, positions: seq<int>): real
    requires |positions| > 0 && InRange(labels, positions)
  {
    SumAt(labels, positions) / |positions| as real
  }

  /** The mean times the number of neighbours is their label sum. */
  lemma MeanTimesCount(labels: seq<real>, positions: seq<int>)
    requires |positions| > 0 && InRange(labels, positions)
    ensures Mean(labels, positions) * |positions| as real == SumAt(labels, positions)
  {
  }

  /** A sum of `n` labels that each lie in `[lo, hi]` lies in `[n * lo, n * hi]`. */
  lemma {:induction false} SumBounds(labels: seq<real>, positions: seq<int>, lo: real, hi: real)
    requires InRange(labels, positions)
    requires forall b :: 0 <= b < |positions| ==> lo <= labels[positions[b]] <= hi
    ensures |positions| as real * lo <= SumAt(labels, positions) <= |positions| as real * hi
  {
    if |positions| > 0 {
      var n := |positions| - 1;
      SumBounds(labels, positions[..n], lo, hi);
      assert (n + 1) as real * hi == n as real * hi + hi;
      assert (n + 1) as real * lo == n as real * lo + lo;
    }
  }

  lemma DivideBelow(s: real, n: real, hi: real)
    requires n > 0.0 && s <= n * hi
    ensures s / n <= hi
  {
  }

  lemma DivideAbove(s: real, n: real, lo: real)
    requires n > 0.0 && n * lo <= s
    ensures lo <= s / n
  {
  }

  /** A prediction lies between the smallest and the largest label it averages. */
  lemma MeanBounds(labels: seq<real>, positions: seq<int>, lo: real, hi: real)
    requires |positions| > 0 && InRange(labels, positions)
    requires forall b :: 0 <= b < |positions| ==> lo <= labels[positions[b]] <= hi
    ensures lo <= Mean(labels, positions) <= hi
  {
    SumBounds(labels, positions, lo, hi);
    DivideBelow(SumAt(labels, positions), |positions| as real, hi);
    DivideAbove(SumAt(labels, positions), |positions| as real, lo);
  }

  /** With one neighbour the prediction is the label at the earliest minimum of the distance row. */
  lemma PredictionForOne(labels: seq<real>, row: seq<real>)
    requires 0 < |row| <= |labels|
    ensures Positions(row, 1) == [ArgMin(row, 0)]
    ensures Mean(labels, Positions(row, 1)) == labels[ArgMin(row, 0)]
  {
    var m := ArgMin(row, 0);
    assert Passes(row, 1).positions == [m] by {
      assert Passes(row, 0) == Progress(row, []);
    }
    assert SumAt(labels, [m]) == labels[m] by {
      assert [m][..0] == [];
    }
    assert Mean(labels, [m]) == labels[m] / 1.0;
  }

  /**
   * With every training row as a neighbour the prediction is not the mean of
   * all labels: for the distance row `[3, 5, 1]` and labels `[0, 0, 3]` it is 3,
   * where the mean of the labels is 1.
   */
  lemma AllNeighboursExample()
    ensures Mean([0.0, 0.0, 3.0], Positions([3.0, 5.0, 1.0], 3)) == 3.0
    ensures Mean([0.0, 0.0, 3.0], [0, 1, 2]) == 1.0
  {
    RepeatedPositionsExample();
    ExampleSums();
    assert Mean([0.0, 0.0, 3.0], [2, 2, 2]) == 9.0 / 3.0;
    assert Mean([0.0, 0.0, 3.0], [0, 1, 2]) == 3.0 / 3.0;
  }

  /** The two label sums behind `AllNeighboursExample`. */
  lemma ExampleSums()
    ensures SumAt([0.0, 0.0, 3.0], [2, 2, 2]) == 9.0
    ensures SumAt([0.0, 0.0, 3.0], [0, 1, 2]) == 3.0
  {
    var labels := [0.0, 0.0, 3.0];
    assert SumAt(labels, [2]) == 3.0 by { assert [2][..0] == []; }
    assert SumAt(labels, [2, 2]) == 6.0 by { assert [2, 2][..1] == [2]; }
    assert [2, 2, 2][..2] == [2, 2];
    assert SumAt(labels, [0]) == 0.0 by { assert [0][..0] == []; }
    assert SumAt(labels, [0, 1]) == 0.0 by { assert [0, 1][..1] == [0]; }
    assert [0, 1, 2][..2] == [0, 1];
  }

  /** Replacing one position changes the sum by the difference of the two labels. */
  lemma {:induction false} SumAtUpdate(labels: seq<real>, positions: seq<int>, i: nat, v: int)
    requires InRange(labels, positions) && i < |positions| && 0 <= v < |labels|
    ensures InRange(labels, positions[i := v])
    ensures SumAt(labels, positions[i := v]) == SumAt(labels, positions) - labels[positions[i]] + labels[v]
  {
    var n := |positions| - 1;
    var updated := positions[i := v];
    if i == n {
      assert updated[..n] == positions[..n];
    } else {
      assert updated[..n] == positions[..n][i := v];
      SumAtUpdate(labels, positions[..n], i, v);
    }
  }

  /** Exchanging two positions leaves the sum unchanged. */
  lemma SumAtSwap(labels: seq<real>, positions: seq<int>, i: nat, j: nat)
    requires InRange(labels, positions) && i < |positions| && j < |positions|
    ensures InRange(labels, Swap(positions, i, j))
    ensures SumAt(labels, Swap(positions, i, j)) == SumAt(labels, positions)
  {
    var once := positions[i := positions[j]];
    SumAtUpdate(labels, positions, i, positions[j]);
    SumAtUpdate(labels, once, j, positions[i]);
  }

  /** The corrected passes only permute the indices: the labels they index sum as those of all rows. */
  lemma {:induction false} TrackedOrderSum(labels: seq<real>, s: seq<real>, p: nat)
    requires p <= |s| <= |labels|
    ensures InRange(labels, TrackedPasses(s, p).order)
    ensures SumAt(labels, TrackedPasses(s, p).order) == SumAt(labels, Identity(|s|))
  {
    if p == 0 {
      assert TrackedPasses(s, 0).order == Identity(|s|);
    } else {
      TrackedOrderSum(labels, s, p - 1);
      TrackedPassSum(labels, s, p);
    }
  }

  /** One corrected pass swaps two indices, which leaves the label sum unchanged. */
  lemma TrackedPassSum(labels: seq<real>, s: seq<real>, p: nat)
    requires 0 < p <= |s| <= |labels|
    requires InRange(labels, TrackedPasses(s, p - 1).order)
    ensures InRange(labels, TrackedPasses(s, p).order)
    ensures SumAt(labels, TrackedPasses(s, p).order) == SumAt(labels, TrackedPasses(s, p - 1).order)
  {
    var prev := TrackedPasses(s, p - 1);
    var m := ArgMin(prev.copy, p - 1);
    assert TrackedPasses(s, p).order == Swap(prev.order, p - 1, m);
    SumAtSwap(labels, prev.order, p - 1, m);
  }

  /** With every training row as a neighbour, the corrected prediction is the mean of all labels. */
  lemma AllNeighboursMean(labels: seq<real>, row: seq<real>)
    requires 0 < |row| <= |labels|
    ensures InRange(labels, NearestOrder(row, |row|)) && InRange(labels, Identity(|row|))
    ensures Mean(labels, NearestOrder(row, |row|)) == Mean(labels, Identity(|row|))
  {
    TrackedOrderSum(labels, row, |row|);
    assert NearestOrder(row, |row|) == TrackedPasses(row, |row|).order;
  }

  /**
   * The corrected selection on the example of `AllNeighboursExample`: the
   * distance row `[3, 5, 1]` yields the indices `[2, 0, 1]`, and with labels
   * `[0, 0, 3]` the prediction is the mean 1 of all labels.
   */
  lemma CorrectedExample()
    ensures NearestOrder([3.0, 5.0, 1.0], 3) == [2, 0, 1]
    ensures Mean([0.0, 0.0, 3.0], NearestOrder([3.0, 5.0, 1.0], 3)) == 1.0
  {
    var s := [3.0, 5.0, 1.0];
    assert Identity(3) == [0, 1, 2];
    assert ArgMin(s, 0) == 2;
    assert TrackedPasses(s, 1) == Tracked([1.0, 5.0, 3.0], [2, 1, 0]);
    assert ArgMin([1.0, 5.0, 3.0], 1) == 2;
    assert TrackedPasses(s, 2) == Tracked([1.0, 3.0, 5.0], [2, 0, 1]);
    assert ArgMin([1.0, 3.0, 5.0], 2) == 2;
    assert TrackedPasses(s, 3) == Tracked([1.0, 3.0, 5.0], [2, 0, 1]);
    AllNeighboursMean([0.0, 0.0, 3.0], s);
    AllNeighboursExample();
  }

  /**
   * `classificar_knn_sequencial`, its query rows taken in order: prediction `i`
   * is the mean of the labels at the positions selected from distance row `i`;
   * entries past the query rows keep their values.
   */
  method Classify(dist: array2<real>, labels: array<real>, predictions: array<real>, k: int)
    requires 0 < k <= dist.Length1
    requires labels.Length >= dist.Length1
    requires predictions.Length >= dist.Length0
    requires predictions != labels
    modifies predictions
    ensures forall i :: 0 <= i < dist.Length0 ==>
      predictions[i] == Mean(labels[..], Positions(RowOf(dist, i), k))
    ensures forall i :: dist.Length0 <= i < predictions.Length ==> predictions[i] == old(predictions[i])
  {
    for i := 0 to dist.Length0
      invariant forall i' :: 0 <= i' < i ==> predictions[i'] == Mean(labels[..], Positions(RowOf(dist, i'), k))
      invariant forall i' :: i <= i' < predictions.Length ==> predictions[i'] == old(predictions[i'])
    {
      var nearest := SmallestPositions(RowOf(dist, i), k);
      assert InRange(labels[..], nearest[..]);
      var sum := SumLabels(labels, nearest);
      predictions[i] := sum / k as real;
    }
  }

  /**
   * The regression step over the corrected selection: prediction `i` is the
   * mean of the labels of the `k` training rows nearest to query row `i`.
   */
  method ClassifyNearest(dist: array2<real>, labels: array<real>, predictions: array<real>, k: int)
    requires 0 < k <= dist.Length1
    requires labels.Length >= dist.Length1
    requires predictions.Length >= dist.Length0
    requires predictions != labels
    modifies predictions
    ensures forall i :: 0 <= i < dist.Length0 ==>
      predictions[i] == Mean(labels[..], NearestOrder(RowOf(dist, i), k))
    ensures forall i :: dist.Length0 <= i < predictions.Length ==> predictions[i] == old(predictions[i])
  {
    for i := 0 to dist.Length0
      invariant forall i' :: 0 <= i' < i ==> predictions[i'] == Mean(labels[..], NearestOrder(RowOf(dist, i'), k))
      invariant forall i' :: i <= i' < predictions.Length ==> predictions[i'] == old(predictions[i'])
    {
      var nearest := NearestIndices(RowOf(dist, i), k);
      assert InRange(labels[..], nearest[..]);
      var sum := SumLabels(labels, nearest);
      predictions[i] := sum / k as real;
    }
  }

  /** The inner loop: the labels at the selected positions, summed left to right. */
  method SumLabels(labels: array<real>, nearest: array<int>) returns (sum: real)
    requires InRange(labels[..], nearest[..])
    ensures sum == SumAt(labels[..], nearest[..])
  {
    sum := 0.0;
    for b := 0 to nearest.Length
      invariant InRange(labels[..], nearest[..b])
      invariant sum == SumAt(labels[..], nearest[..b])
    {
      assert nearest[..b + 1][..b] == nearest[..b];
      sum := sum + labels[nearest[b]];
    }
    assert nearest[..nearest.Length] == nearest[..];
  }
}
