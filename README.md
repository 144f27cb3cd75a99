# Rayplanner line-of-sight engine, modelled in Dafny

Rayplanner answers "can cell A see cell B?" on an N x N grid of cells, some
of which are blocked. This project models its two engines and the ray
builder the dense engine uses.

- **Ray builder** (`raycast.dfy`, module `Raycast`).
  - `compute_ray` walks from one cell to another with an integer error
    accumulator. At every step it marks the index `y * N + x`.
  - `generate_ray_matrix` builds one ray for every pair `start < end` of
    flat cell indices, in lexicographic order.
  - `compute_initial_visibility` multiplies the ray matrix `R` by the
    flattened blocked grid. Both operands are boolean in the code, so each
    entry of its `B` is only a yes/no flag: does the ray meet a blocked
    cell? The model keeps the integer count of blocked cells on each ray
    instead, which is what the later `update_cells` deltas are meant to
    adjust (see "## Findings"). In both, a pair is visible when its entry is
    0, so the initial visibility is the same.
- **Sparse-matrix meaning** (`matrix.dfy`, module `Matrix`).
  - A row of `R` is a boolean mask over flat indices.
  - `R @ v` adds up `v` over each row's marked indices.
  - Linearity and the zero tests are proved here.
- **Dense engine** (`lossystem.dfy`, class `LosSystem.LOSSystem`).
  - The fields are `R`, the counts `B`, the blocked grid `G` and the
    visibility matrix `V`. `V` is an `array2<bool>`, filled in place.
  - `update_cells` computes `dG` against the grid as it was before the
    batch, then assigns the changes in list order. It then adds `R @ dG` to
    `B` and rebuilds `V`.
  - The queries read `V` at flat indices `r * N + c`.
  - The index conventions are kept as the code has them. `compute_ray`
    receives `divmod(flat, N)`, which is (row, column), names the pair
    (x, y), and marks `y * N + x`. The grid itself is flattened as
    `i * N + j`. So a ray that visits cell (r, c) reads grid entry
    `c * N + r`, the cell (c, r): the dense test checks the mirror image of
    each segment across the main diagonal. Only on the diagonal (r == c) do
    the two agree (`MirrorScenario`).
- **Compressed index** (`compressed.dfy`, class
  `CompressedVisibility.CompressedVisibilityMatrix`).
  - It keeps a set of blocked cells and a map from direction key to bucket.
    A direction key is a step reduced by its gcd. A bucket maps each blocker
    to a marker.
  - `add_blocked_cell` scans from the new cell in every step direction.
  - `is_visible` scans one bucket with a sign-quadrant test and a
    Chebyshev-distance test.
  - The ghost predicate `Valid()` states that the buckets are exactly
    `Expected(N, blocked)`:
    - no buckets while no blocked cell is in the grid;
    - otherwise every direction key holds every in-grid blocked cell with
      marker 0.
  - `AddBlockedCell` keeps `Valid()`. The query lemmas are stated about
    `Expected`.

## Model

| member | source | states |
|---|---|---|
| Raycast.ComputeRay | raycast.py:4-27 | The returned array is the mask of the walk: index k is true exactly when some iteration marked `y * N + x == k`. |
| Raycast.Progress | raycast.py:10-25 | About `CursorAt`, the walk's state after t iterations. The error-accumulator invariant after t iterations: a x-moves and `t - a` y-moves with `a <= |dx|` and `t - a <= |dy|`, the position moved that far towards `end`, and the error equal to `|dx| - |dy| - 2a|dy| + 2(t - a)|dx|`. |
| Raycast.ProgressStep | raycast.py:18-25 | One loop iteration keeps that invariant. |
| Raycast.RayEndpoints | raycast.py:8-25 | About `Ray`, the list of visited cells. The walk has exactly `1 + |dx| + |dy|` iterations. Its first cell is `start` and its last is `end`. |
| Raycast.RayStep | raycast.py:12-25 | Both increments are ±1, and each iteration changes exactly one coordinate, by `x_inc` or by `y_inc`. |
| Raycast.RayInBox | raycast.py:18-25 | Every visited cell lies in the bounding box of the two endpoints. |
| Raycast.RayDistinct | raycast.py:18-25 | No cell is visited twice. |
| Raycast.MarkInRange | raycast.py:5-19 | For in-grid endpoints every written index `y * N + x` lies in `[0, N*N)`. |
| Raycast.MarkedCount | raycast.py:18-25 | The first t iterations mark t distinct indices. |
| Raycast.RayMaskCount | raycast.py:18-27 | The ray has exactly `1 + |dx| + |dy|` true entries, namely the indices the walk marks. |
| Raycast.RayNotReversible | raycast.py:14-25 | The tie `error == 0` steps y: (0,0) to (1,1) visits (0,0), (0,1), (1,1), while the reverse visits (1,1), (1,0), (0,0). |
| Raycast.PairsBeforeLength | raycast.py:32-33 | Rows 0..s-1 of the double loop yield `RowStart(m, s)` pairs, with `2 * RowStart(m, s) == s(2m - s - 1)`. |
| Raycast.PairsCount | raycast.py:30-37 | There are `m(m-1)/2` rays for `m = N*N` cells. |
| Raycast.PairsBeforeOrdered | raycast.py:32-33 | Every enumerated pair satisfies `s < e < m`, and the pairs come in strictly increasing lexicographic order. |
| Raycast.PairsBeforeAt | raycast.py:32-35 | Pair `(s, e)` is ray number `PairIndex(m, s, e)`. |
| Raycast.PairIndexBound | raycast.py:32-35 | That ray number is below `m(m-1)/2`. |
| Raycast.PairsEnumeration | raycast.py:29-37 | The enumeration lists every pair `s < e` exactly once, in lexicographic order, and pair `(s, e)` sits at position `PairIndex(m, s, e)`. |
| Raycast.GenerateRayMatrix | raycast.py:29-37 | The nested loops produce exactly the ray of each enumerated pair, with endpoints `divmod(start, N)` and `divmod(end, N)`. |
| Raycast.RayMatrixShape | raycast.py:34-37 | Every row of `R` has `N*N` columns. |
| Raycast.SaturatedFlagsAgree | raycast.py:41-45 | The code's boolean product `SaturatedCounts` is the count capped at 1, and it is zero on exactly the rays where the count is zero. So both give the same initial `V_flat`. |
| Raycast.InitialCounts | raycast.py:44-45 | Against a 0/1 grid, `B[k]` is the number of distinct blocked indices on ray k, and `V_flat[k]` holds exactly when the ray and the blocked set are disjoint. |
| Raycast.ComputeInitialVisibility | raycast.py:39-47 | `R` is the ray matrix and has `N²(N²-1)/2` rows. `V_flat[k] == (B[k] == 0)`, and `B[k]` counts the distinct blocked flat indices `i*N + j` on ray k. |
| Matrix.MatVecAdd | lossystem.py:37-38 | `R @ (u + v) == R @ u + R @ v`: the counts are linear in the grid. |
| Matrix.MatVecZero | lossystem.py:37-38 | The product with an all-zero vector is all zero. |
| Matrix.DotZeroIff | raycast.py:44-45 | For a non-negative vector, a ray's sum is zero exactly when the vector vanishes on the ray's cells. |
| Matrix.DotIndicator | raycast.py:41-44 | Against a 0/1 indicator, a ray's sum counts the set's indices on the ray. |
| LosSystem.LOSSystem.constructor | lossystem.py:6-15 | The constructor produces a valid state with `R` the ray matrix, `B` the initial counts, and `G` an int grid that sums duplicate cells. Without duplicates, `B == R @ G`. |
| LosSystem.CountGridNoDuplicates | lossystem.py:12-15 | Without duplicate cells the int grid equals the 0/1 grid the initial counts use. |
| LosSystem.LOSSystem.ReshapeVisibility | lossystem.py:17-27 | The running counter names ray `PairIndex(i, j)` at pair `(i, j)`. The result is symmetric with a true diagonal, and `V[a, b]` is the flag of the pair `(min, max)`. |
| LosSystem.LOSSystem.UpdateCells | lossystem.py:29-40 | `G` becomes the assignments applied in list order, and `B` gains `R @ dG` with `dG` taken against the pre-batch grid. `V` is rebuilt and stays valid. For a batch of distinct cells, `B == R @ G` is preserved. |
| LosSystem.AppliedLastWins | lossystem.py:34-35 | About `Applied`, the assignment loop. A cell no change names keeps its value. Otherwise it takes the state of the last change that names it. |
| LosSystem.AppliedIsDelta | lossystem.py:30-35 | About `DeltaG`, the comprehension that builds `dG`. For distinct cells the assignment loop equals `G + dG` at every index. |
| LosSystem.AppliedEqualsAdd | lossystem.py:30-35 | The same as a vector equation: `G_new == G + dG`. |
| LosSystem.UpdatePreservesCounts | lossystem.py:30-38 | If `B == R @ G` before a batch of distinct cells, then `B + R @ dG == R @ G_new` after it. |
| LosSystem.ReapplyIsNoOp | lossystem.py:30-35 | Re-applying a batch of distinct cells gives an all-zero `dG` and leaves `G` unchanged. |
| LosSystem.UpdateTwiceIdempotent | lossystem.py:30-40 | The second application of the same batch leaves `B` and the visibility flags unchanged. |
| LosSystem.UpdateTwice | lossystem.py:29-40 | Two `update_cells` calls on the class with the same batch of distinct cells: after the second, `G`, `B` and every entry of `V` are as the first call left them. |
| LosSystem.DeltaCountOnRay | lossystem.py:30-38 | For distinct cells, a ray's entry of `R @ dG` is the ray's sum after the batch minus its sum before. |
| LosSystem.SaturatedUnblockHidden | lossystem.py:37-39 | Start from the code's boolean `B` on a 10 x 10 grid with (2,2), (3,3), (4,4) blocked, and unblock all three. No cell is then blocked, yet ray (0, 99) ends with `B == -2`, so (0,0) and (9,9) stay hidden. With the count model the entry is 0. |
| LosSystem.LOSSystem.IsVisible | lossystem.py:42-45 | The method reads `V` at `r*N + c`. The answer is true for `start == end`, is symmetric, and is the flag of the pair's ray. While `B == R @ G`, it is true exactly when no grid entry the ray marks is blocked. These are the mirror images `(c, r)` of the visited cells `(r, c)`. |
| LosSystem.LOSSystem.VisibleMeaning | lossystem.py:22-23 | While `B == R @ G`, `V[a, b]` holds exactly when `a == b` or no grid entry marked by the ray of `(min, max)` is blocked. |
| LosSystem.LOSSystem.GetVisibleCells | lossystem.py:47-50 | The result lists exactly the in-grid cells visible in row `start_idx` of `V`, in strictly ascending row-major order, and always includes `start`. |
| LosSystem.CellsWhere | lossystem.py:49-50 | The list comprehension yields `(i // N, i % N)` for exactly the true entries, in ascending order. |
| LosSystem.CellsUpToSound | lossystem.py:50 | Every listed cell is in the grid and true in the row. |
| LosSystem.CellsUpToAscending | lossystem.py:50 | The listed cells are strictly ascending in flat index. |
| LosSystem.CellsUpToComplete | lossystem.py:50 | Every true index is listed. |
| LosSystem.DiagonalScenario | lossystem.py:54-62 | With N = 10 and (2,2), (3,3), (4,4) blocked, (0,0) does not see (9,9), and still does not after (5,5) is blocked. Unblocking all four cells makes it visible. |
| LosSystem.DiagonalCursor | raycast.py:14-25 | The walk from (0,0) to (9,9) alternates steps, so after `2i` iterations it stands on (i, i) with error 0. |
| LosSystem.DiagonalMarksCell | lossystem.py:54-58 | The ray of flat pair (0, 99) marks the flat index `11 i` of every diagonal cell (i, i) with `1 <= i <= 8`. |
| LosSystem.DiagonalRayMeetsBlocker | lossystem.py:54-58 | The ray of flat pair (0, 99) marks index 22, the flat index of (2,2). |
| LosSystem.MirrorMissesBetween | raycast.py:19-34 | On a 3 x 3 grid the ray of flat pair (0, 2), from (0,0) to (0,2), marks only entries among 0, 3 and 6, the cells (0,0), (1,0) and (2,0). It does not mark entry 1, the cell (0,1) between its endpoints. |
| LosSystem.MirrorMissesStart | raycast.py:19-34 | On a 3 x 3 grid every entry the ray of flat pair (1, 8) marks is at least 3, so it does not mark entry 1, its own start cell (0,1). |
| LosSystem.MirrorScenario | lossystem.py:42-45 | On the class, with N = 3 and only (0,1) blocked: `is_visible((0,0), (0,2))` and `is_visible((0,1), (2,2))` are both true. |
| LosSystem.HiddenWhileBlocked | lossystem.py:58-62 | With (2,2) blocked in a consistent system, the ray from (0,0) to (9,9) is not clear. |
| CompressedVisibility.GcdIsGreatest | compressed_visibility_matrix.py:36 | `Gcd(a, b)` divides both arguments, and every common divisor divides it. |
| CompressedVisibility.LineKeySpec | compressed_visibility_matrix.py:35-37 | About `LineKey`. `(0, 0)` maps to itself. Otherwise the step is `g` times its key with `g > 0`, the key keeps the sign of each component, and the key's gcd is 1. |
| CompressedVisibility.ScanFirstBlocker | compressed_visibility_matrix.py:22-33 | About `Scan`, the walk of the while loop. A found distance `s` names an in-grid blocked cell `s` steps ahead, and every earlier cell is in the grid and unblocked. |
| CompressedVisibility.ScanStart | compressed_visibility_matrix.py:27-30 | A scan from outside the grid records nothing, and one from a blocked in-grid cell stops at once with distance 0. |
| CompressedVisibility.CompressedVisibilityMatrix.constructor | compressed_visibility_matrix.py:5-8 | The index starts with no blocked cells and no buckets, and is valid. |
| CompressedVisibility.CompressedVisibilityMatrix.AddBlockedCell | compressed_visibility_matrix.py:10-13 | The cell joins the blocked set. A new in-grid cell is recorded with marker 0 under every direction key, and a new out-of-grid cell changes no bucket. Re-adding a cell changes nothing, and validity is kept. |
| CompressedVisibility.CompressedVisibilityMatrix.UpdateVisibility | compressed_visibility_matrix.py:15-20 | The double loop over steps in `[-(N-1), N-1]²` other than `(0, 0)`, started from a blocked cell, registers that cell with marker 0 under every direction key, or under none if it is outside the grid. |
| CompressedVisibility.CompressedVisibilityMatrix.UpdateLineOfSight | compressed_visibility_matrix.py:22-33 | The while loop records, under the step's key, the distance of the first blocked cell before the walk leaves the grid. If there is none, it records nothing. |
| CompressedVisibility.RegisterExpected | compressed_visibility_matrix.py:12-20 | Registering a new in-grid cell under every key turns the buckets of a blocked set into those of the enlarged set. An out-of-grid cell changes nothing. |
| CompressedVisibility.ExpectedShape | compressed_visibility_matrix.py:15-30 | Key `(0, 0)` is never stored, and every marker is 0. Entries are in-grid blocked cells, and every in-grid blocked cell is in the bucket of every direction key. |
| CompressedVisibility.CompressedVisibilityMatrix.IsVisible | compressed_visibility_matrix.py:39-51 | The answer is false exactly when some entry of the key's bucket passes the sign and Chebyshev tests. For a valid index and in-grid endpoints, the answer is true exactly when the cells coincide or no in-grid blocked cell, endpoints included, lies in the step's quadrant within its length. |
| CompressedVisibility.BlocksMeaning | compressed_visibility_matrix.py:42-50 | For the buckets of a blocked set, a query is blocked exactly when the endpoints differ and some in-grid blocked cell lies in the step's sign quadrant within the step's Chebyshev length. There is no collinearity test. |
| CompressedVisibility.SelfVisible | compressed_visibility_matrix.py:42-45 | `is_visible(a, a)` is true, because key `(0, 0)` is never stored. |
| CompressedVisibility.EmptyVisible | compressed_visibility_matrix.py:45-51 | With no blocked cells every query is true. |
| CompressedVisibility.BlocksMonotone | compressed_visibility_matrix.py:10-13 | A query blocked under a blocked set stays blocked under any larger set. |
| CompressedVisibility.QueryAsymmetry | compressed_visibility_matrix.py:46-50 | With N = 3 and (0,2) blocked, (0,0) to (2,1) is blocked but (2,1) to (0,0) is not. |
| CompressedVisibility.AsymmetryScenario | compressed_visibility_matrix.py:39-51 | The same two queries run on the class: a fresh index with (0,2) added. |
| CompressedVisibility.ExpectedEntries | compressed_visibility_matrix.py:55-58 | A valid index holds one entry per in-grid blocked cell under each direction key. |
| CompressedVisibility.CompressedVisibilityMatrix.MemoryUsageBytes | compressed_visibility_matrix.py:53-58 | The byte numerator is `16 * (|blocked| + total bucket entries)`. For a valid index this equals `16 * (|blocked| + |keys| * |in-grid blocked|)`. |

## Left out

- sizes.py, eval.py and test_scalability.py are not part of this model. They are memory estimates in floating point, random workloads, timing and plotting.
- The `__main__` blocks print results. Only the lossystem.py scenario is modelled, as `DiagonalScenario`, and it adds an unblocking step.
- The division by `1024 * 1024` in `get_memory_usage` is left out. It is floating point, so `MemoryUsageBytes` returns the integer byte count.
- The sparse formats (csr, lil) are modelled only by their meaning: rows are sequences of booleans, `R @ v` is a sum over each row, and `reshape(-1, 1)` is row-major flattening.
- Raycast.ComputeInitialVisibility: returns the integer count of blocked cells per ray as `B`. The code's `B` is the boolean product, a 0/1 flag per ray. It is modelled separately as `SaturatedCounts` (see "## Findings").
- LosSystem.LOSSystem.constructor: starts `B` from those counts, not from the code's boolean flags. So `Consistent()` (`B == R @ G`) holds of the count model and not of the code once a ray has two or more blocked cells.
- LosSystem.DiagonalScenario: its added unblocking step ends with (0,0) seeing (9,9) in the count model. In the code, `B` for that ray is `1 + 1 - 4 == -2`, so the pair stays hidden.
- Raycast.ComputeInitialVisibility and LosSystem.LOSSystem.constructor: require `N >= 2`. For `N == 1` there are no rays; `csr_matrix([])` then has shape (1, 0), and `R @ G.reshape(-1, 1)` fails with a dimension error. `GenerateRayMatrix` alone accepts `N == 1` and returns no rows, where the code returns a 1 x 0 matrix.
- Raycast.ComputeInitialVisibility and LosSystem.LOSSystem.constructor: require in-grid cells. A negative or out-of-range cell makes scipy raise `ValueError` when it builds the matrix. The precondition excludes that error path; nothing is wrapped.
- LosSystem.LOSSystem.UpdateCells: requires in-grid cells. In the code, an out-of-range cell raises `IndexError` at `self.G[i, j]`. The model excludes that error path.
- LosSystem.LOSSystem.IsVisible and GetVisibleCells: require in-grid cells. The code computes `r * N + c` unchecked and indexes `V` with it. A cell such as (0, N) silently reads the row of (1, 0), and a negative flat index counts from the end. The model excludes both.
- CompressedVisibility.CompressedVisibilityMatrix.UpdateVisibility: requires that `(x, y)` is already blocked, which is its only calling context in `add_blocked_cell`. This is what makes every marker 0.
- CompressedVisibility.CompressedVisibilityMatrix.IsVisible: Python iterates the bucket in insertion order, while the model picks entries in an unspecified order. The answer does not depend on the order.
- The Python `defaultdict` is modelled as a map read through `Bucket`, which gives an empty bucket for a missing key. `is_visible` checks `in` before it reads, so it creates no bucket.
- Cross-engine equivalence is not stated. The engines disagree: the compressed index has no collinearity test and is not symmetric (`QueryAsymmetry`), while the dense engine follows rays.
- The code differs from three general claims about the system, and the model follows the code:
  - Rays are not reverse-symmetric (`RayNotReversible`). Only the dense `V` is made symmetric, by using the ray of `(min, max)`.
  - The compressed index counts a blocker at either endpoint as occluding, because its quadrant test includes the endpoints.
  - The dense engine checks the mirror image of each segment, not the segment (`MirrorScenario`). A blocker between the endpoints can be missed, and so can a blocker at an endpoint unless that endpoint lies on the main diagonal. The model does not state visibility along the segment itself for the dense engine.

## Findings

| source | as written | input that shows it | evidently intended | confidence | as-written member | corrected member |
|---|---|---|---|---|---|---|
| raycast.py:41-44 | The blocked grid is built with `dtype=bool`, so `B = R @ G` is a 0/1 flag per ray. `update_cells` then adds integer deltas (lossystem.py:37-38) that assume a count. | `N = 10`, blocked (2,2), (3,3), (4,4); then `update_cells` unblocks all three. Ray (0,0)-(9,9) ends with `B == 1 - 3 == -2`, so the pair is reported hidden on an empty grid. | `B[k]` is the number of blocked cells on ray k, so `B == R @ G` after every update. | not executed | LosSystem.SaturatedUnblockHidden | LosSystem.UpdatePreservesCounts |
