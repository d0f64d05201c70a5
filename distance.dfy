/**
 * The distance matrix: cell `[i, j]` is the Euclidean distance between query
 * row `i` and training row `j` (`calcular_distancias_sequencial`).
 *
 * The C program computes the root with its own Newton iteration; here the
 * root of a non-negative number is the parameter `sqrt`, and only the guard
 * against a negative radicand is kept (`Root`).
 */
module Distance {
  import opened Matrix

  /** `quadrado`: the square of a number, never negative. */
  function Square(x: real): (r: real)
    ensures r >= 0.0
  {
    x * x
  }

  /** `raiz_quadrada` with its Newton iteration abstracted as `sqrt`: a negative input yields the sentinel -1. */
  function Root(sqrt: real -> real, x: real): (r: real)
    ensures x < 0.0 ==> r == -1.0
    ensures 0.0 <= x ==> r == sqrt(x)
  {
    if x < 0.0 then -1.0 else sqrt(x)
  }

  /** Sum of the squared differences of `a` and `b`, accumulated left to right as the inner loop does. */
  function SumSquares(a: seq<real>, b: seq<real>): (r: real)
    requires |a| == |b|
    ensures r >= 0.0
  {
    if |a| == 0 then 0.0 else SumSquares(a[..|a| - 1], b[..|b| - 1]) + Square(a[|a| - 1] - b[|b| - 1])
  }

  /** The radicand of two equal rows is zero. */
  lemma {:induction false} SumSquaresOfEqualRows(a: seq<real>)
    ensures SumSquares(a, a) == 0.0
  {
    if |a| > 0 {
      SumSquaresOfEqualRows(a[..|a| - 1]);
    }
  }

  /**
   * The negative-input branch of `Root` is never taken on a sum of squares, so
   * a distance is the root of its radicand, and that of two equal rows is the root of zero.
   */
  lemma RootOfSumSquares(sqrt: real -> real, a: seq<real>, b: seq<real>)
    requires |a| == |b|
    ensures Root(sqrt, SumSquares(a, b)) == sqrt(SumSquares(a, b))
    ensures a == b ==> Root(sqrt, SumSquares(a, b)) == sqrt(0.0)
  {
    if a == b {
      SumSquaresOfEqualRows(a);
    }
  }

  /** With a root that is non-negative on non-negative inputs, every distance is non-negative. */
  lemma DistanceNonNegative(sqrt: real -> real, a: seq<real>, b: seq<real>)
    requires forall x :: 0.0 <= x ==> 0.0 <= sqrt(x)
    requires |a| == |b|
    ensures Root(sqrt, SumSquares(a, b)) >= 0.0
  {
  }

  /**
   * Fills the distance matrix `dist` cell by cell. Both feature matrices have
   * the same number of columns; `dist` is a separate `query rows x training rows`
   * matrix, and it is the only thing written.
   */
  method ComputeDistances(train: array2<real>, query: array2<real>, dist: array2<real>, sqrt: real -> real)
    requires train.Length1 == query.Length1
    requires dist.Length0 == query.Length0 && dist.Length1 == train.Length0
    requires dist != train && dist != query
    modifies dist
    ensures forall i, j :: 0 <= i < dist.Length0 && 0 <= j < dist.Length1 ==>
      dist[i, j] == Root(sqrt, SumSquares(RowOf(query, i), RowOf(train, j)))
  {
    for i := 0 to query.Length0
      invariant forall i', j :: 0 <= i' < i && 0 <= j < dist.Length1 ==>
        dist[i', j] == Root(sqrt, SumSquares(RowOf(query, i'), RowOf(train, j)))
    {
      FillRow(train, query, dist, i, sqrt);
    }
  }

  /** Row `i` of the distance matrix: one cell per training row; the other rows keep their values. */
  method FillRow(train: array2<real>, query: array2<real>, dist: array2<real>, i: nat, sqrt: real -> real)
    requires train.Length1 == query.Length1
    requires dist.Length0 == query.Length0 && dist.Length1 == train.Length0 && i < dist.Length0
    requires dist != train && dist != query
    modifies dist
    ensures forall j :: 0 <= j < dist.Length1 ==> dist[i, j] == Root(sqrt, SumSquares(RowOf(query, i), RowOf(train, j)))
    ensures forall i', j :: 0 <= i' < dist.Length0 && i' != i && 0 <= j < dist.Length1 ==> dist[i', j] == old(dist[i', j])
  {
    for j := 0 to train.Length0
      invariant forall j' :: 0 <= j' < j ==> dist[i, j'] == Root(sqrt, SumSquares(RowOf(query, i), RowOf(train, j')))
      invariant forall i', j' :: 0 <= i' < dist.Length0 && i' != i && 0 <= j' < dist.Length1 ==> dist[i', j'] == old(dist[i', j'])
    {
      dist[i, j] := RowDistance(train, query, i, j, sqrt);
    }
  }

  /** One cell of the distance matrix: the root of the radicand summed over the columns. */
  method RowDistance(train: array2<real>, query: array2<real>, i: nat, j: nat, sqrt: real -> real) returns (d: real)
    requires train.Length1 == query.Length1
    requires i < query.Length0 && j < train.Length0
    ensures d == Root(sqrt, SumSquares(RowOf(query, i), RowOf(train, j)))
  {
    ghost var a, b := RowOf(query, i), RowOf(train, j);
    var sum := 0.0;
    for c := 0 to query.Length1
      invariant sum == SumSquares(a[..c], b[..c])
    {
      assert a[..c + 1][..c] == a[..c] && b[..c + 1][..c] == b[..c];
      sum := sum + Square(query[i, c] - train[j, c]);
    }
    assert a[..query.Length1] == a && b[..query.Length1] == b;
    d := Root(sqrt, sum);
  }
}
