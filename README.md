# kNN regressor over sliding windows — a Dafny model

`paralel.c` predicts the next value of a numeric series with a brute-force
k-nearest-neighbours regressor. A training file and a query file each hold a
flat list of numbers. Each list is reshaped into a matrix of overlapping
windows: row `i` holds tokens `i .. i + colunas - 1`. The label of a training
row is taken from the last column of the row `h` steps further on. For every
query row the program:

1. computes the Euclidean distance to every training row;
2. selects `k` training rows by a partial selection sort of a copy of that
   row of distances;
3. predicts the unweighted mean of the labels of the selected rows.

This project models that pipeline and proves properties of it:

- `matrix.dfy` (module `Matrix`): matrices are `array2<real>`; `RowOf` reads
  one row as a sequence.
- `loading.dfy` (module `Loading`): the window reshape (`Reshape`) and the
  label extraction (`ExtractLabels`). The program's exit on a bad row count is
  the `None` result.
- `distance.dfy` (module `Distance`):
  - `quadrado` (`Square`) and the sign guard of `raiz_quadrada` (`Root`).
  - The root itself is a parameter `sqrt`.
  - The distance matrix is filled in place (`ComputeDistances`, `FillRow`,
    `RowDistance`), proved against the specification function `SumSquares`.
- `selection.dfy` (module `Selection`): `encontrar_menores_posicoes` as
  written (`SmallestPositions`, with the scan `ScanMin`), proved against
  `Passes`/`Positions`.
  - `Passes` is specified by an independent right-to-left `ArgMin` and by the
    selection-sort invariant `SelectedPrefix`.
  - The module also holds the corrected selection, `NearestIndices`, proved
    against `TrackedPasses`/`NearestOrder` (see Findings).
- `aggregation.dfy` (module `Aggregation`):
  - `classificar_knn_sequencial` (`Classify`, inner loop `SumLabels`), proved
    against `Mean`;
  - the same step over the corrected selection (`ClassifyNearest`).

The label vector has `linhas_treino` entries, but only the first
`linhas_treino - h` are written (paralel.c:167-170). `ExtractLabels`
therefore promises nothing about the others: they keep whatever the array
held. `Classify` reads whatever is there when a selected position lands
among them, as the C program does.

## Model

| member | source | states |
|---|---|---|
| Matrix.RowOf | paralel.c:185 | Row `i` of a matrix as a sequence of its `Length1` entries, entry `j` being `m[i, j]` (the `xteste[i][k]` / `xtreino[j][k]` accesses). |
| Loading.Reshape | paralel.c:119-160 | Fails exactly when `|flat| - columns + 1 <= 0`. Otherwise it returns a newly allocated `(|flat| - columns + 1) x columns` matrix with `m[i, j] == flat[i + j]`. |
| Loading.WindowRoundTrip | paralel.c:153-160 | In a window matrix consecutive rows overlap, `m[i, j] == m[i - 1, j + 1]`. The first row followed by the last column of the later rows gives back exactly the token list. |
| Loading.ExtractLabels | paralel.c:165-171 | For every row `i >= h`, entry `i - h` becomes the last column of row `i`. Every other entry keeps its value. |
| Loading.LabelsAreShiftedTokens | paralel.c:165-171 | On a window matrix, label `t` is token `t + h + columns - 1` of the training file: the value `h` steps after the window's last token. |
| Distance.Square | paralel.c:37-40 | A square is never negative. |
| Distance.Root | paralel.c:42-48 | A negative radicand yields the sentinel -1. A non-negative one yields its root. |
| Distance.SumSquares | paralel.c:182-186 | The radicand is the sum of squared differences accumulated left to right; it is never negative. |
| Distance.SumSquaresOfEqualRows | paralel.c:182-186 | The radicand of a row and itself is zero. |
| Distance.RootOfSumSquares | paralel.c:44-48 | The negative-input branch of `raiz_quadrada` (sentinel -1) is never taken on a sum of squares. The distance between equal rows is the root of zero. |
| Distance.DistanceNonNegative | paralel.c:42-58 | With a root that is non-negative on non-negative inputs, every distance is non-negative. |
| Distance.ComputeDistances | paralel.c:175-190 | Afterwards `dist[i, j]` is the root of the sum of squared differences of query row `i` and training row `j`, for every cell. |
| Distance.FillRow | paralel.c:180-188 | Row `i` of `dist` gets one distance per training row. Every other row keeps its values. |
| Distance.RowDistance | paralel.c:182-187 | The accumulated sum over all columns, passed through the root, is the distance of query row `i` to training row `j`. |
| Selection.ArgMin | paralel.c:204-211 | The result is the earliest position of the minimum of `s[lo..]`: no later entry is smaller, and every earlier entry is strictly larger. |
| Selection.FirstMinUnique | paralel.c:207 | There is only one earliest minimum, so the strict `<` scan and `ArgMin` agree. |
| Selection.ScanMin | paralel.c:204-211 | The left-to-right scan that moves only on a strictly smaller value ends at `ArgMin(copy, i)`. |
| Selection.Swap | paralel.c:212-214 | The swap exchanges entries `i` and `j` and changes nothing else. |
| Selection.SwapPermutes | paralel.c:212-214 | A swap keeps the multiset of distances. |
| Selection.Passes | paralel.c:202-217 | After `p` passes, `p` positions are recorded, and position `b` lies in `[b, |s|)`. |
| Selection.PassesPermute | paralel.c:195-214 | The copy is always a permutation of the distance row. |
| Selection.SelectStep | paralel.c:204-214 | One pass extends the sorted, minimal prefix of the copy by one slot. |
| Selection.PassesSelect | paralel.c:202-217 | After `p` passes the first `p` slots of the copy hold the `p` smallest distances, in ascending order. |
| Selection.PositionsStable | paralel.c:216 | Later passes only append. The positions for `k` neighbours extend those for any smaller `k`. |
| Selection.PositionIsFirstMin | paralel.c:204-216 | Position `b` is the earliest minimum of `copy[b..]` as the copy stood before pass `b`. |
| Selection.NearestForOne | paralel.c:202-216 | With `k = 1` the position is the earliest minimum of the whole distance row. |
| Selection.FullSelectionSorts | paralel.c:202-217 | With `k` equal to the number of training rows, the copy ends sorted and a permutation of the row. |
| Selection.SmallestPositions | paralel.c:192-221 | Returns a newly allocated array of `k` positions equal to `Positions(row, k)`, position `b` lying in `[b, |row|)`. The passes run on a private copy of the row. |
| Selection.CopyOf | paralel.c:195-200 | The private copy equals the distance row. |
| Selection.SwapEntries | paralel.c:212-214 | The copy after the three-assignment exchange is `Swap` of the copy before it. |
| Selection.RepeatedPositionsExample | paralel.c:202-216 | For the row `[3, 5, 1]` the recorded positions are `[2, 2]` for `k = 2` and `[2, 2, 2]` for `k = 3`. The index 0 of the second-nearest row is never reported. |
| Selection.TrackedPasses | paralel.c:202-217 | The corrected passes keep, for every slot of the copy, an original index of the row, always in range. |
| Selection.NearestOrder | paralel.c:216 | The corrected selection records `k` indices, each an index of the row. |
| Selection.TrackedCopy | paralel.c:202-214 | Tracking original indices leaves the copy exactly as in the program's passes. |
| Selection.RecordedSlotOrigin | paralel.c:216 | The corrected index for pass `b` is the original index of the slot the program records. |
| Selection.TrackedOrderStable | paralel.c:212-216 | Later corrected passes do not move the indices already selected. |
| Selection.TrackedPassesTrack | paralel.c:212-214 | Swapping indices alongside the copy keeps a bijection between slots and original indices that agrees with the copy's values. |
| Selection.TracksSwap | paralel.c:212-214 | One swap of both the copy and the index list keeps that bijection. |
| Selection.NearestOrderIsNearest | paralel.c:192-221 | The corrected result lists `k` distinct row indices in ascending order of distance. No index left out is nearer than any index selected. |
| Selection.TrackedSelection | paralel.c:202-217 | From a selected prefix of a tracked copy, the first `k` tracked indices are the `k` nearest. |
| Selection.NearestIndices | paralel.c:192-221 | The corrected selection method returns a newly allocated array holding exactly `NearestOrder(row, k)`. |
| Selection.TrackedPass | paralel.c:202-216 | One corrected pass advances copy and index list by one pass and records the selected original index in slot `i`. |
| Selection.CopyWithIndices | paralel.c:195-200 | The copy equals the row, and every slot starts with its own index. |
| Selection.SwapSlots | paralel.c:212-214 | The copy and the index list are swapped at the same two slots. |
| Aggregation.SumAtUpdate | paralel.c:230-233 | Replacing one selected position changes the label sum by the new label minus the old one. |
| Aggregation.SumAtSwap | paralel.c:230-233 | The label sum does not depend on the order of the positions: exchanging two of them keeps it. |
| Aggregation.MeanTimesCount | paralel.c:234 | The prediction times `k` is the sum of the `k` selected labels. |
| Aggregation.SumBounds | paralel.c:230-234 | A sum of `n` labels, each in `[lo, hi]`, lies in `[n * lo, n * hi]`. |
| Aggregation.MeanBounds | paralel.c:230-235 | A prediction lies between the smallest and the largest label it averages. |
| Aggregation.PredictionForOne | paralel.c:228-235 | With `k = 1` the prediction is the label of the earliest nearest training row. |
| Aggregation.AllNeighboursExample | paralel.c:228-235 | With distance row `[3, 5, 1]`, labels `[0, 0, 3]` and `k = 3`, the prediction is 3, while the mean of all three labels is 1. |
| Aggregation.TrackedPassSum | paralel.c:212-216 | One corrected pass only exchanges two indices, so the labels they index keep their sum. |
| Aggregation.TrackedOrderSum | paralel.c:202-217 | After any number of corrected passes the index list sums the labels exactly as the list `0 .. |row| - 1` does. |
| Aggregation.AllNeighboursMean | paralel.c:223-235 | With the corrected selection and `k` equal to the number of training rows, every prediction is the mean of all labels. |
| Aggregation.CorrectedExample | paralel.c:216 | For the distance row `[3, 5, 1]` the corrected selection yields `[2, 0, 1]`, and with labels `[0, 0, 3]` and `k = 3` the prediction is 1, the mean of all labels. |
| Aggregation.Classify | paralel.c:223-239 | Prediction `i` is the mean of the labels at `Positions(dist row i, k)` for every query row. Entries past the query rows are unchanged. |
| Aggregation.SumLabels | paralel.c:230-234 | The inner loop's sum is the sum of the labels at the selected positions, left to right. |
| Aggregation.ClassifyNearest | paralel.c:223-239 | The same regression step over the corrected selection: prediction `i` is the mean of the labels of the `k` nearest training rows. |

## Left out

- Reading the data files (`fscanf` and `realloc`, paralel.c:92-117) is not modelled: `Reshape` receives the tokens as a sequence.
- Allocation failures, `malloc`/`free` and the helpers `alocar_matriz`, `liberar_matriz`, `alocar_vetor` and `liberar_vetor` (paralel.c:63-90, 127-150) are not modelled: Dafny allocation does not fail.
- Writing `ytreino.txt` and `resultado_classificacoes.txt` (paralel.c:290-318) is output only and is not modelled.
- Command-line parsing and `main` (paralel.c:243-328) are not modelled; the sizes `colunas`, `k` and `h` are parameters.
- Timing with the performance counter (paralel.c:30-35, 278, 288) is a clock and is left out.
- The OpenMP pragmas (paralel.c:177, 225) are left out. The iterations are independent, so the model runs them in order.
- Distance.Root: the Newton iteration of `raiz_quadrada` (paralel.c:50-58) is the parameter `sqrt`, and the error message it prints on a negative input is output only.
- Distance.DistanceNonNegative: the converse, that distance zero implies equal rows, is not stated. The root is the abstract parameter `sqrt`, so `sqrt(x) == sqrt(0)` says nothing about `x`. The converse for the radicand, `SumSquares(a, b) == 0` only when `a == b`, rests on `x * x == 0` only when `x == 0`, and the solver's nonlinear real arithmetic does not close that step.
- Single-precision rounding is not modelled: all arithmetic is on exact `real`s. The left-to-right order of every sum is kept, but with exact arithmetic that order does not affect the result.
- Overflow of `int` in sizes and in `i + j` is not modelled; sizes are unbounded naturals.
- Aggregation.Classify: requires `0 < k <= training rows`. The program does not check `k`, and the cases outside this range are not modelled:
  - A `k` above the row count reads and writes past the copy (undefined behaviour).
  - `k == 0` computes `0.0 / 0`, which is NaN; `real` has no such value.
  - A negative `k` passes a wrapped, huge size to `malloc` (paralel.c:194). No pass and no summation runs, and the prediction `0.0 / k` is a negative zero, which `real` does not distinguish from zero.
- Loading.ExtractLabels: `h` is a natural number. With a negative `h` from the command line the C loop starts at row `h`: it reads rows before the start of the training matrix, and it writes `|h|` entries past the end of the `linhas_treino`-entry label vector (paralel.c:167-170, 272). Both are undefined behaviour.

## Findings

| source | as written | input that shows it | evidently intended | confidence | as-written member | corrected member |
|---|---|---|---|---|---|---|
| paralel.c:216 | `posicoes[i] = menor_indice` records the position of the minimum in the already permuted copy, not its index in the distance row. Positions repeat, and rows that are among the `k` nearest can be left out. | Distance row `[3, 5, 1]`, `k = 2`: the positions are `[2, 2]`, where the two nearest rows are 2 and 0. With `k = 3` and labels `[0, 0, 3]` the prediction is 3 instead of the mean 1 of all labels. | Record the original index of the selected value: keep an index array swapped alongside the copy, giving `k` distinct indices of the nearest training rows. On the same input the corrected selection yields `[2, 0, 1]` and the prediction 1. | not executed | Selection.RepeatedPositionsExample | Selection.NearestIndices |
