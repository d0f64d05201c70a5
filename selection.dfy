/**
 * Selection of the nearest training rows for one query row
 * (`encontrar_menores_posicoes`): a partial selection sort of a private copy
 * of the distance row, bounded at `k` passes.
 *
 * Pass `i` scans `copy[i..]` for its minimum, keeping the earliest position on
 * ties (the comparison is a strict `<`), swaps it into slot `i`, and records
 * the position it was found at IN THE COPY. Because the copy has already been
 * permuted by earlier passes, that position is in general not the index of
 * the value in the original row: recorded positions can repeat.
 */
module Selection {

  /** `m` is the earliest position of a minimum of `s[lo..hi]`. */
  predicate FirstMinAt(s: seq<real>, lo: int, hi: int, m: int)
  {
    && 0 <= lo <= m < hi <= |s|
    && (forall t :: lo <= t < hi ==> s[m] <= s[t])
    && (forall t :: lo <= t < m ==> s[m] < s[t])
  }

  /** Earliest position of the minimum of `s[lo..]`, defined by recursion from the right. */
  function ArgMin(s: seq<real>, lo: nat): (m: nat)
    requires lo < |s|
    decreases |s| - lo
    ensures FirstMinAt(s, lo, |s|, m)
  {
    if lo == |s| - 1 then lo
    else
      var m := ArgMin(s, lo + 1);
      if s[m] < s[lo] then m else lo
  }

  /** There is only one earliest minimum. */
  lemma FirstMinUnique(s: seq<real>, lo: int, hi: int, m: int, m': int)
    requires FirstMinAt(s, lo, hi, m) && FirstMinAt(s, lo, hi, m')
    ensures m == m'
  {
    assert s[m] <= s[m'] && s[m'] <= s[m];
  }

  /** `s` with the entries at `i` and `j` exchanged. */
  function Swap<T>(s: seq<T>, i: nat, j: nat): (r: seq<T>)
    requires i < |s| && j < |s|
    ensures |r| == |s| && r[i] == s[j] && r[j] == s[i]
    ensures forall t :: 0 <= t < |s| && t != i && t != j ==> r[t] == s[t]
  {
    s[i := s[j]][j := s[i]]
  }

  /** Exchanging two entries keeps the multiset of values. */
  lemma SwapPermutes(s: seq<real>, i: nat, j: nat)
    requires i < |s| && j < |s|
    ensures multiset(Swap(s, i, j)) == multiset(s)
  {
    var t := s[i := s[j]];
    assert multiset(t) == multiset(s) - multiset{s[i]} + multiset{s[j]};
    assert t[j] == s[j];
    assert multiset(t[j := s[i]]) == multiset(t) - multiset{t[j]} + multiset{s[i]};
  }

  /** The private copy and the recorded positions after some passes. */
  datatype Progress = Progress(copy: seq<real>, positions: seq<int>)

  /** State of the selection after `p` passes over the row `s`. */
  function Passes(s: seq<real>, p: nat): (r: Progress)
    requires p <= |s|
    ensures |r.copy| == |s| && |r.positions| == p
    ensures forall b :: 0 <= b < p ==> b <= r.positions[b] < |s|
  {
    if p == 0 then Progress(s, [])
    else
      var prev := Passes(s, p - 1);
      var m := ArgMin(prev.copy, p - 1);
      Progress(Swap(prev.copy, p - 1, m), prev.positions + [m])
  }

  /** The positions `encontrar_menores_posicoes` returns for `k` neighbours. */
  function Positions(s: seq<real>, k: nat): seq<int>
    requires k <= |s|
  {
    Passes(s, k).positions
  }

  /** Selected prefix of length `p`: in ascending order and no larger than anything after it. */
  predicate SelectedPrefix(c: seq<real>, p: nat)
    requires p <= |c|
  {
    && (forall a, b :: 0 <= a < b < p ==> c[a] <= c[b])
    && (forall a, t :: 0 <= a < p <= t < |c| ==> c[a] <= c[t])
  }

  /** Only swaps change the copy, so it stays a permutation of the row. */
  lemma {:induction false} PassesPermute(s: seq<real>, p: nat)
    requires p <= |s|
    ensures multiset(Passes(s, p).copy) == multiset(s)
  {
    if p > 0 {
      PassesPermute(s, p - 1);
      var c := Passes(s, p - 1).copy;
      SwapPermutes(c, p - 1, ArgMin(c, p - 1));
    }
  }

  /** One pass keeps the selection-sort invariant and extends it by one slot. */
  lemma SelectStep(c: seq<real>, p: nat)
    requires p < |c| && SelectedPrefix(c, p)
    ensures SelectedPrefix(Swap(c, p, ArgMin(c, p)), p + 1)
  {
    var c' := Swap(c, p, ArgMin(c, p));
    forall a, t | 0 <= a < p + 1 <= t < |c'| ensures c'[a] <= c'[t] {
      if a < p {
        assert c'[a] == c[a];
      }
    }
  }

  /** The selection-sort invariant: after `p` passes the first `p` slots hold the `p` smallest values in order. */
  lemma {:induction false} PassesSelect(s: seq<real>, p: nat)
    requires p <= |s|
    ensures SelectedPrefix(Passes(s, p).copy, p)
  {
    if p > 0 {
      PassesSelect(s, p - 1);
      SelectStep(Passes(s, p - 1).copy, p - 1);
    }
  }

  /** Later passes only append: the first `q` positions are fixed after pass `q`. */
  lemma {:induction false} PositionsStable(s: seq<real>, p: nat, q: nat)
    requires q <= p <= |s|
    ensures Passes(s, p).positions[..q] == Passes(s, q).positions
  {
    if q < p {
      PositionsStable(s, p - 1, q);
      assert Passes(s, p).positions[..p - 1] == Passes(s, p - 1).positions;
    }
  }

  /**
   * Position `b` is the earliest position of the minimum of `copy[b..]` in the copy
   * as it stood before pass `b`.
   */
  lemma PositionIsFirstMin(s: seq<real>, k: nat, b: nat)
    requires b < k <= |s|
    ensures Positions(s, k)[b] == ArgMin(Passes(s, b).copy, b)
    ensures FirstMinAt(Passes(s, b).copy, b, |s|, Positions(s, k)[b])
  {
    PositionsStable(s, k, b + 1);
    assert Positions(s, k)[b] == Passes(s, k).positions[..b + 1][b];
  }

  /** With one neighbour the position is the earliest minimum of the whole row. */
  lemma NearestForOne(s: seq<real>)
    requires |s| > 0
    ensures FirstMinAt(s, 0, |s|, Positions(s, 1)[0])
  {
    PositionIsFirstMin(s, 1, 0);
  }

  /** With `k == |s|` the copy ends fully sorted and a permutation of the row. */
  lemma FullSelectionSorts(s: seq<real>)
    ensures forall a, b :: 0 <= a < b < |s| ==> Passes(s, |s|).copy[a] <= Passes(s, |s|).copy[b]
    ensures multiset(Passes(s, |s|).copy) == multiset(s)
  {
    PassesSelect(s, |s|);
    PassesPermute(s, |s|);
  }

  /**
   * The scan of one pass: the running minimum over `copy[i..]`, replaced only
   * by a strictly smaller value, ends at the earliest position of the minimum.
   */
  method ScanMin(copy: array<real>, i: nat) returns (smallest: nat)
    requires i < copy.Length
    ensures FirstMinAt(copy[..], i, copy.Length, smallest)
    ensures smallest == ArgMin(copy[..], i)
  {
    smallest := i;
    for j := i + 1 to copy.Length
      invariant FirstMinAt(copy[..], i, j, smallest)
    {
      if copy[j] < copy[smallest] {
        smallest := j;
      }
    }
    FirstMinUnique(copy[..], i, copy.Length, smallest, ArgMin(copy[..], i));
  }

  /**
   * `encontrar_menores_posicoes`: the positions recorded by `k` passes of the
   * partial selection sort over a private copy of `row`.
   */
  method SmallestPositions(row: seq<real>, k: int) returns (positions: array<int>)
    requires 0 < k <= |row|
    ensures fresh(positions) && positions.Length == k
    ensures positions[..] == Positions(row, k)
    ensures forall b :: 0 <= b < k ==> b <= positions[b] < |row|
  {
    var copy := CopyOf(row);
    positions := new int[k];
    for i := 0 to k
      invariant copy[..] == Passes(row, i).copy
      invariant positions[..i] == Passes(row, i).positions
    {
      var smallest := ScanMin(copy, i);
      SwapEntries(copy, i, smallest);
      positions[i] := smallest;
      assert positions[..i + 1] == positions[..i] + [smallest];
    }
    assert positions[..] == positions[..k];
  }

  /** The private copy of the distance row. */
  method CopyOf(row: seq<real>) returns (copy: array<real>)
    ensures fresh(copy) && copy[..] == row
  {
    copy := new real[|row|];
    for i := 0 to |row|
      invariant copy[..i] == row[..i]
    {
      copy[i] := row[i];
    }
  }

  /** Exchanges slots `i` and `m` of the copy through a temporary. */
  method SwapEntries(copy: array<real>, i: nat, m: nat)
    requires i < copy.Length && m < copy.Length
    modifies copy
    ensures copy[..] == Swap(old(copy[..]), i, m)
  {
    var temp := copy[i];
    copy[i] := copy[m];
    copy[m] := temp;
  }

  /**
   * Passes over the row `[3, 5, 1]` record position 2 every time: for two
   * neighbours the positions are `[2, 2]` where the two nearest indices are
   * 2 and 0, and for all three they are `[2, 2, 2]`.
   */
  lemma RepeatedPositionsExample()
    ensures Positions([3.0, 5.0, 1.0], 2) == [2, 2]
    ensures Positions([3.0, 5.0, 1.0], 3) == [2, 2, 2]
  {
    var s := [3.0, 5.0, 1.0];
    assert ArgMin(s, 0) == 2;
    assert Passes(s, 1).copy == [1.0, 5.0, 3.0];
    assert ArgMin([1.0, 5.0, 3.0], 1) == 2;
    assert Passes(s, 2).copy == [1.0, 3.0, 5.0];
    assert ArgMin([1.0, 3.0, 5.0], 2) == 2;
  }

  /**
   * `order[t]` is the original index of the value in slot `t` of the copy `c`,
   * and `slot` is the inverse of `order`: both are permutations of the row's indices.
   */
  ghost predicate Tracks(row: seq<real>, c: seq<real>, order: seq<int>, slot: seq<int>)
  {
    && |c| == |row| && |order| == |row| && |slot| == |row|
    && (forall t :: 0 <= t < |row| ==> 0 <= order[t] < |row| && c[t] == row[order[t]])
    && (forall a, b :: 0 <= a < b < |row| ==> order[a] != order[b])
    && (forall x :: 0 <= x < |row| ==> 0 <= slot[x] < |row| && order[slot[x]] == x)
  }

  /** The indices `0, 1, ..., n - 1`. */
  function Identity(n: nat): (r: seq<int>)
    ensures |r| == n && forall t :: 0 <= t < n ==> r[t] == t
  {
    seq(n, t => t)
  }

  /** Swapping two slots of the copy and of `order` together, and updating `slot`, keeps the tracking. */
  lemma TracksSwap(row: seq<real>, c: seq<real>, order: seq<int>, slot: seq<int>, i: nat, m: nat)
    requires Tracks(row, c, order, slot) && i < |row| && m < |row|
    ensures Tracks(row, Swap(c, i, m), Swap(order, i, m), slot[order[m] := i][order[i] := m])
  {
    var slot' := slot[order[m] := i][order[i] := m];
    var order' := Swap(order, i, m);
    forall x | 0 <= x < |row| ensures 0 <= slot'[x] < |row| && order'[slot'[x]] == x {
      if x != order[i] && x != order[m] {
        assert slot'[x] == slot[x];
      }
    }
  }

  /** Exchanges slots `i` and `m` of the copy and of the index array together. */
  method SwapSlots(copy: array<real>, order: array<int>, i: nat, m: nat)
    requires i < copy.Length && m < copy.Length && copy.Length == order.Length
    modifies copy, order
    ensures copy[..] == Swap(old(copy[..]), i, m)
    ensures order[..] == Swap(old(order[..]), i, m)
  {
    var temp := copy[i];
    copy[i] := copy[m];
    copy[m] := temp;
    var index := order[i];
    order[i] := order[m];
    order[m] := index;
  }

  /** The private copy and the original index of every slot of it, after some passes. */
  datatype Tracked = Tracked(copy: seq<real>, order: seq<int>)

  /**
   * The selection as evidently intended: the same passes over the copy, with
   * the original index of every slot kept in `order` and swapped alongside.
   */
  function TrackedPasses(s: seq<real>, p: nat): (r: Tracked)
    requires p <= |s|
    ensures |r.copy| == |s| && |r.order| == |s|
    ensures forall t :: 0 <= t < |s| ==> 0 <= r.order[t] < |s|
  {
    if p == 0 then Tracked(s, Identity(|s|))
    else
      var prev := TrackedPasses(s, p - 1);
      var m := ArgMin(prev.copy, p - 1);
      Tracked(Swap(prev.copy, p - 1, m), Swap(prev.order, p - 1, m))
  }

  /** The original indices of the first `k` slots after `k` passes. */
  function NearestOrder(s: seq<real>, k: nat): (r: seq<int>)
    requires k <= |s|
    ensures |r| == k && forall b :: 0 <= b < k ==> 0 <= r[b] < |s|
  {
    TrackedPasses(s, k).order[..k]
  }

  /** Tracking the original indices does not change the copy. */
  lemma {:induction false} TrackedCopy(s: seq<real>, p: nat)
    requires p <= |s|
    ensures TrackedPasses(s, p).copy == Passes(s, p).copy
  {
    if p > 0 {
      TrackedCopy(s, p - 1);
    }
  }

  /**
   * Pass `b` records, as written, the slot `Positions(s, k)[b]` of the copy; the
   * index it should record is the original index of that slot.
   */
  lemma {:induction false} RecordedSlotOrigin(s: seq<real>, k: nat, b: nat)
    requires b < k <= |s|
    ensures NearestOrder(s, k)[b] == TrackedPasses(s, b).order[Positions(s, k)[b]]
  {
    var prev := TrackedPasses(s, b);
    var m := ArgMin(prev.copy, b);
    PositionIsFirstMin(s, k, b);
    TrackedCopy(s, b);
    TrackedOrderStable(s, k, b + 1);
    assert TrackedPasses(s, b + 1).order[b] == prev.order[m];
  }

  /** Later passes leave the first `q` slots of `order` alone. */
  lemma {:induction false} TrackedOrderStable(s: seq<real>, p: nat, q: nat)
    requires q <= p <= |s|
    ensures forall t :: 0 <= t < q ==> TrackedPasses(s, p).order[t] == TrackedPasses(s, q).order[t]
  {
    if q < p {
      TrackedOrderStable(s, p - 1, q);
    }
  }

  /** After any number of passes `order` tracks the copy, with some inverse `slot`. */
  lemma {:induction false} TrackedPassesTrack(s: seq<real>, p: nat) returns (slot: seq<int>)
    requires p <= |s|
    ensures Tracks(s, TrackedPasses(s, p).copy, TrackedPasses(s, p).order, slot)
  {
    if p == 0 {
      slot := Identity(|s|);
      assert TrackedPasses(s, 0) == Tracked(s, slot);
    } else {
      var prev := TrackedPasses(s, p - 1);
      var slot0 := TrackedPassesTrack(s, p - 1);
      var m := ArgMin(prev.copy, p - 1);
      TracksSwap(s, prev.copy, prev.order, slot0, p - 1, m);
      slot := slot0[prev.order[m] := p - 1][prev.order[p - 1] := m];
      assert TrackedPasses(s, p) == Tracked(Swap(prev.copy, p - 1, m), Swap(prev.order, p - 1, m));
    }
  }

  /** The corrected selection yields the `k` nearest indices of the row. */
  lemma NearestOrderIsNearest(s: seq<real>, k: nat)
    requires k <= |s|
    ensures IsNearest(s, NearestOrder(s, k))
  {
    var slot := TrackedPassesTrack(s, k);
    TrackedCopy(s, k);
    PassesSelect(s, k);
    TrackedSelection(s, TrackedPasses(s, k).copy, TrackedPasses(s, k).order, slot, k);
  }

  /**
   * The corrected selection: pass `i` records the original index of the value
   * it selects, so the result is `k` distinct indices of the row, in ascending
   * order of distance, and no index left out is nearer than any index selected.
   */
  method NearestIndices(row: seq<real>, k: int) returns (indices: array<int>)
    requires 0 < k <= |row|
    ensures fresh(indices)
    ensures indices[..] == NearestOrder(row, k)
  {
    var copy, order := CopyWithIndices(row);
    indices := new int[k];
    assert indices != order;
    for i := 0 to k
      invariant copy[..] == TrackedPasses(row, i).copy
      invariant order[..] == TrackedPasses(row, i).order
      invariant forall t :: 0 <= t < i ==> indices[t] == order[t]
    {
      TrackedPass(row, copy, order, indices, i);
    }
    assert indices[..] == order[..k] by {
      assert forall t :: 0 <= t < k ==> indices[..][t] == order[..k][t];
    }
  }

  /**
   * Pass `i` of the corrected selection: select into slot `i`, moving the
   * original index along, and record that original index as `indices[i]`.
   */
  method TrackedPass(ghost row: seq<real>, copy: array<real>, order: array<int>, indices: array<int>, i: nat)
    requires i < |row| && i < indices.Length && indices != order
    requires copy[..] == TrackedPasses(row, i).copy && order[..] == TrackedPasses(row, i).order
    requires forall t :: 0 <= t < i ==> indices[t] == order[t]
    modifies copy, order, indices
    ensures copy[..] == TrackedPasses(row, i + 1).copy && order[..] == TrackedPasses(row, i + 1).order
    ensures forall t :: 0 <= t < i + 1 ==> indices[t] == order[t]
  {
    var smallest := ScanMin(copy, i);
    SwapSlots(copy, order, i, smallest);
    indices[i] := order[i];
  }

  /** The private copy of the row, with every slot's original index beside it. */
  method CopyWithIndices(row: seq<real>) returns (copy: array<real>, order: array<int>)
    ensures fresh(copy) && fresh(order)
    ensures copy[..] == row && order[..] == Identity(|row|)
  {
    copy := new real[|row|];
    order := new int[|row|];
    for t := 0 to |row|
      invariant copy[..t] == row[..t] && order[..t] == Identity(|row|)[..t]
    {
      copy[t] := row[t];
      order[t] := t;
    }
  }

  /**
   * `sel` lists distinct indices of `row` in ascending order of their values,
   * and no index outside `sel` has a smaller value than one inside it.
   */
  predicate IsNearest(row: seq<real>, sel: seq<int>)
  {
    && (forall b :: 0 <= b < |sel| ==> 0 <= sel[b] < |row|)
    && (forall a, b :: 0 <= a < b < |sel| ==> sel[a] != sel[b])
    && (forall a, b :: 0 <= a < b < |sel| ==> row[sel[a]] <= row[sel[b]])
    && (forall b, x :: 0 <= b < |sel| && 0 <= x < |row| && x !in sel ==> row[sel[b]] <= row[x])
  }

  /** The first `k` tracked indices of a selected copy are the `k` nearest indices of the row. */
  lemma TrackedSelection(row: seq<real>, c: seq<real>, order: seq<int>, slot: seq<int>, k: nat)
    requires Tracks(row, c, order, slot) && k <= |row| && SelectedPrefix(c, k)
    ensures IsNearest(row, order[..k])
  {
    var sel := order[..k];
    assert forall a :: 0 <= a < k ==> sel[a] == order[a];
    forall b, x | 0 <= b < k && 0 <= x < |row| && x !in sel ensures row[sel[b]] <= row[x] {
      assert order[slot[x]] == x;
    }
  }

}
