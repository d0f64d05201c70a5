/** Dense matrices of the regressor (the C program's `float **`), stored as `array2<real>`. */
module Matrix {

  /** Row `i` of `m` as a value. */
  function RowOf(m: array2<real>, i: int): (r: seq<real>)
    requires 0 <= i < m.Length0
    reads m
    ensures |r| == m.Length1
    ensures forall j :: 0 <= j < m.Length1 ==> r[j] == m[i, j]
  {
    seq(m.Length1, j requires 0 <= j < m.Length1 reads m => m[i, j])
  }
}
