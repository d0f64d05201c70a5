/**
 * Building the feature matrices and the label vector from the numbers read
 * from a data file: the sliding-window reshape of `ler_matriz_teste_arquivo`
 * and the label extraction of `inicializar_vetor`.
 */
module Loading {
  import opened Matrix

  datatype Option<T> = None | Some(value: T)

  /** `m` holds the sliding windows of width `m.Length1` over `flat`: row `i` is `flat[i..i + m.Length1]`. */
  ghost predicate IsWindowMatrix(m: array2<real>, flat: seq<real>)
    reads m
  {
    && m.Length0 == |flat| - m.Length1 + 1
    && forall i, j :: 0 <= i < m.Length0 && 0 <= j < m.Length1 ==> m[i, j] == flat[i + j]
  }

  /**
   * Reshape of the tokens of a data file into `|flat| - columns + 1` overlapping
   * rows of `columns` values each. When that row count is not positive the
   * program stops with a failure; here that is `None`.
   */
  method Reshape(flat: seq<real>, columns: nat) returns (r: Option<array2<real>>)
    ensures r.None? <==> |flat| - columns + 1 <= 0
    ensures r.Some? ==> fresh(r.value)
    ensures r.Some? ==> r.value.Length1 == columns && IsWindowMatrix(r.value, flat)
  {
    var rows := |flat| - columns + 1;
    if rows <= 0 {
      return None;
    }
    var m := new real[rows, columns];
    for i := 0 to rows
      invariant forall i', j :: 0 <= i' < i && 0 <= j < columns ==> m[i', j] == flat[i' + j]
    {
      for j := 0 to columns
        invariant forall i', j' :: 0 <= i' < i && 0 <= j' < columns ==> m[i', j'] == flat[i' + j']
        invariant forall j' :: 0 <= j' < j ==> m[i, j'] == flat[i + j']
      {
        m[i, j] := flat[i + j];
      }
    }
    return Some(m);
  }

  /** The token list read back from a window matrix: its first row, then the last entry of every later row. */
  ghost function Unwindow(m: array2<real>): (s: seq<real>)
    requires m.Length0 > 0 && m.Length1 > 0
    reads m
    ensures |s| == m.Length1 + m.Length0 - 1
  {
    RowOf(m, 0) + seq(m.Length0 - 1, i requires 0 <= i < m.Length0 - 1 reads m => m[i + 1, m.Length1 - 1])
  }

  /** Consecutive rows overlap in all but one column, and the tokens can be read back from the matrix. */
  lemma WindowRoundTrip(m: array2<real>, flat: seq<real>)
    requires IsWindowMatrix(m, flat) && m.Length0 > 0 && m.Length1 > 0
    ensures forall i, j :: 0 < i < m.Length0 && 0 <= j < m.Length1 - 1 ==> m[i, j] == m[i - 1, j + 1]
    ensures Unwindow(m) == flat
  {
    var s := Unwindow(m);
    forall t | 0 <= t < |flat| ensures s[t] == flat[t] {
      if t >= m.Length1 {
        assert s[t] == m[t - m.Length1 + 1, m.Length1 - 1];
      }
    }
  }

  /**
   * Label extraction: entry `i - h` of `labels` becomes the last column of row
   * `i`, for every row `i` from `h` on; no other entry changes.
   */
  method ExtractLabels(labels: array<real>, m: array2<real>, h: nat)
    requires m.Length1 > 0
    requires labels.Length >= m.Length0 - h
    modifies labels
    ensures forall t :: 0 <= t < m.Length0 - h ==> labels[t] == m[t + h, m.Length1 - 1]
    ensures forall t :: 0 <= t < labels.Length && t + h >= m.Length0 ==> labels[t] == old(labels[t])
  {
    var i := h;
    while i < m.Length0
      invariant h <= i && (i <= m.Length0 || i == h)
      invariant forall t :: 0 <= t < i - h ==> labels[t] == m[t + h, m.Length1 - 1]
      invariant forall t :: 0 <= t < labels.Length && (t + h >= i || t + h >= m.Length0) ==> labels[t] == old(labels[t])
    {
      labels[i - h] := m[i, m.Length1 - 1];
      i := i + 1;
    }
  }

  /** After the reshape, label `t` is token `t + h + columns - 1` of the training file. */
  lemma LabelsAreShiftedTokens(labels: array<real>, m: array2<real>, flat: seq<real>, h: nat)
    requires IsWindowMatrix(m, flat) && m.Length1 > 0
    requires labels.Length >= m.Length0 - h
    requires forall t :: 0 <= t < m.Length0 - h ==> labels[t] == m[t + h, m.Length1 - 1]
    ensures forall t :: 0 <= t < m.Length0 - h ==> labels[t] == flat[t + h + m.Length1 - 1]
  {
  }
}
