/**
  The dense visibility engine of lossystem.py.  It keeps the ray matrix `R`,
  the blocked grid `G` (flattened row-major, `i * N + j`), the per-ray
  blockage counts `B` and the symmetric visibility matrix `V` over flat cell
  indices.  Updates add `R @ dG` to `B`, relying on `B` being linear in `G`.
 */
module LosSystem {
  import opened Matrix
  import opened Raycast

  /** One entry of update_cells' batch: a cell and its new blocked state. */
  datatype CellChange = CellChange(cell: Cell, newState: bool)

  /** `int(new_state)`. */
  function BoolInt(b: bool): int
  {
    if b then 1 else 0
  }

  function Min(a: int, b: int): int
  {
    if a <= b then a else b
  }

  function Max(a: int, b: int): int
  {
    if a <= b then b else a
  }

  /** How often flat index c occurs in a cell list: the int grid of the
      constructor sums duplicate coordinates. */
  function Occurrences(cells: seq<Cell>, n: int, c: int): nat
  {
    if |cells| == 0 then 0
    else Occurrences(cells[..|cells| - 1], n, c) + (if Flat(cells[|cells| - 1], n) == c then 1 else 0)
  }

  /** The constructor's integer grid `G`, flattened row-major. */
  function CountGrid(n: nat, cells: seq<Cell>): seq<int>
  {
    seq(n * n, c => Occurrences(cells, n, c))
  }

  predicate NoDuplicates(cells: seq<Cell>)
  {
    forall s, t :: 0 <= s < t < |cells| ==> cells[s] != cells[t]
  }

  predicate ChangesInGrid(changes: seq<CellChange>, n: int)
  {
    forall t :: 0 <= t < |changes| ==> InGrid(changes[t].cell, n)
  }

  predicate DistinctCells(changes: seq<CellChange>)
  {
    forall s, t :: 0 <= s < t < |changes| ==> changes[s].cell != changes[t].cell
  }

  /** The entry of `dG` at flat index c: the deltas `int(new_state) - G[c]` of
      every change listed for c, each taken against the pre-batch grid and
      summed (duplicate coordinates add up in the sparse constructor). */
  function DeltaAt(changes: seq<CellChange>, G: seq<int>, n: int, c: int): int
    requires 0 <= c < |G|
  {
    if |changes| == 0 then 0
    else
      var last := changes[|changes| - 1];
      DeltaAt(changes[..|changes| - 1], G, n, c) +
      (if Flat(last.cell, n) == c then BoolInt(last.newState) - G[c] else 0)
  }

  /** The batch's delta grid `dG`, flattened row-major. */
  function DeltaG(changes: seq<CellChange>, G: seq<int>, n: int): seq<int>
  {
    seq(|G|, c requires 0 <= c < |G| => DeltaAt(changes, G, n, c))
  }

  /** The grid after update_cells' assignment loop: each change written in
      list order. */
  function Applied(G: seq<int>, changes: seq<CellChange>, n: int): (r: seq<int>)
    requires |G| == n * n && ChangesInGrid(changes, n)
    ensures |r| == |G|
  {
    if |changes| == 0 then G
    else
      var last := changes[|changes| - 1];
      FlatInRange(n, last.cell.0, last.cell.1);
      Applied(G, changes[..|changes| - 1], n)[Flat(last.cell, n) := BoolInt(last.newState)]
  }

  /** The flags of update_cells / compute_initial_visibility: `B == 0`. */
  function VisibleFlags(B: seq<int>): seq<bool>
  {
    seq(|B|, k requires 0 <= k < |B| => B[k] == 0)
  }

  /** The entry `V[a, b]` that _reshape_visibility_matrix builds from the
      flags: true on the diagonal, otherwise the flag of ray
      `(min(a, b), max(a, b))`. */
  function PairVisible(flags: seq<bool>, m: int, a: int, b: int): bool
    requires 0 <= a < m && 0 <= b < m && |flags| == m * (m - 1) / 2
  {
    if a == b then true
    else
      PairIndexBound(m, Min(a, b), Max(a, b));
      flags[PairIndex(m, Min(a, b), Max(a, b))]
  }

  /** Every in-grid cell has a distinct flat index. */
  lemma FlatCellInjective(n: int, c: Cell, d: Cell)
    requires InGrid(c, n) && InGrid(d, n) && Flat(c, n) == Flat(d, n)
    ensures c == d
  {
    FlatInjective(n, c.0, c.1, d.0, d.1);
  }

  /** Without duplicates the constructor's int grid is the 0/1 indicator of
      the blocked set, the grid the initial counts were taken against. */
  lemma {:induction false} OccurrencesNoDuplicates(cells: seq<Cell>, n: int, c: int)
    requires AllInGrid(cells, n) && NoDuplicates(cells)
    ensures Occurrences(cells, n, c) == if c in BlockedFlat(n, cells) then 1 else 0
  {
    if |cells| > 0 {
      var pre, last := cells[..|cells| - 1], cells[|cells| - 1];
      OccurrencesNoDuplicates(pre, n, c);
      assert BlockedFlat(n, cells) == BlockedFlat(n, pre) + {Flat(last, n)} by {
        assert forall t :: 0 <= t < |pre| ==> pre[t] == cells[t];
      }
      if Flat(last, n) == c && c in BlockedFlat(n, pre) {
        var t :| 0 <= t < |pre| && Flat(pre[t], n) == c;
        FlatCellInjective(n, pre[t], last);
      }
    }
  }

  lemma CountGridNoDuplicates(n: nat, cells: seq<Cell>)
    requires AllInGrid(cells, n) && NoDuplicates(cells)
    ensures CountGrid(n, cells) == Indicator(n * n, BlockedFlat(n, cells))
  {
    forall c | 0 <= c < n * n
      ensures CountGrid(n, cells)[c] == Indicator(n * n, BlockedFlat(n, cells))[c]
    {
      OccurrencesNoDuplicates(cells, n, c);
    }
  }

  /** The assignment loop lets the last change to a cell win: a cell keeps
      its old value when no change names it, and otherwise takes the state of
      the last change that names it. */
  lemma {:induction false} AppliedLastWins(G: seq<int>, changes: seq<CellChange>, n: int, cell: Cell)
    requires |G| == n * n && ChangesInGrid(changes, n) && InGrid(cell, n)
    ensures 0 <= Flat(cell, n) < |G|
    ensures (forall t :: 0 <= t < |changes| ==> changes[t].cell != cell) ==>
      Applied(G, changes, n)[Flat(cell, n)] == G[Flat(cell, n)]
    ensures forall t ::
      (0 <= t < |changes| && changes[t].cell == cell &&
       (forall u :: t < u < |changes| ==> changes[u].cell != cell)) ==>
      Applied(G, changes, n)[Flat(cell, n)] == BoolInt(changes[t].newState)
  {
    FlatInRange(n, cell.0, cell.1);
    if |changes| > 0 {
      var pre, last := changes[..|changes| - 1], changes[|changes| - 1];
      AppliedLastWins(G, pre, n, cell);
      FlatInRange(n, last.cell.0, last.cell.1);
      var r := Applied(G, changes, n);
      assert r == Applied(G, pre, n)[Flat(last.cell, n) := BoolInt(last.newState)];
      if last.cell == cell {
        assert r[Flat(cell, n)] == BoolInt(last.newState);
        forall t | 0 <= t < |changes| && changes[t].cell == cell &&
            (forall u :: t < u < |changes| ==> changes[u].cell != cell)
          ensures t == |changes| - 1
        {
        }
      } else {
        if Flat(last.cell, n) == Flat(cell, n) {
          FlatCellInjective(n, last.cell, cell);
        }
        assert r[Flat(cell, n)] == Applied(G, pre, n)[Flat(cell, n)];
        assert forall t :: 0 <= t < |pre| ==> pre[t] == changes[t];
      }
    }
  }

  /** A change list that never names flat index c contributes nothing there. */
  lemma {:induction false} DeltaAtUntouched(changes: seq<CellChange>, G: seq<int>, n: int, c: int)
    requires 0 <= c < |G|
    requires forall t :: 0 <= t < |changes| ==> Flat(changes[t].cell, n) != c
    ensures DeltaAt(changes, G, n, c) == 0
  {
    if |changes| > 0 {
      var pre := changes[..|changes| - 1];
      assert forall t :: 0 <= t < |pre| ==> pre[t] == changes[t];
      DeltaAtUntouched(pre, G, n, c);
    }
  }

  /** For a batch of distinct cells the assignment loop does exactly what
      adding `dG` does: `G_new == G + dG`. */
  lemma {:induction false} AppliedIsDelta(G: seq<int>, changes: seq<CellChange>, n: int, c: int)
    requires |G| == n * n && ChangesInGrid(changes, n) && DistinctCells(changes)
    requires 0 <= c < |G|
    ensures Applied(G, changes, n)[c] == G[c] + DeltaAt(changes, G, n, c)
  {
    if |changes| > 0 {
      var pre, last := changes[..|changes| - 1], changes[|changes| - 1];
      assert forall t :: 0 <= t < |pre| ==> pre[t] == changes[t];
      AppliedIsDelta(G, pre, n, c);
      if Flat(last.cell, n) == c {
        forall t | 0 <= t < |pre| ensures Flat(pre[t].cell, n) != c {
          if Flat(pre[t].cell, n) == c {
            FlatCellInjective(n, pre[t].cell, last.cell);
          }
        }
        DeltaAtUntouched(pre, G, n, c);
      }
    }
  }

  lemma AppliedEqualsAdd(G: seq<int>, changes: seq<CellChange>, n: int)
    requires |G| == n * n && ChangesInGrid(changes, n) && DistinctCells(changes)
    ensures Applied(G, changes, n) == AddVec(G, DeltaG(changes, G, n))
  {
    forall c | 0 <= c < |G| ensures Applied(G, changes, n)[c] == AddVec(G, DeltaG(changes, G, n))[c] {
      AppliedIsDelta(G, changes, n, c);
    }
  }

  /** The linear-update invariant: if `B == R @ G` before a batch of distinct
      cells, then `B + R @ dG == R @ G_new` after it. */
  lemma UpdatePreservesCounts(R: seq<seq<bool>>, G: seq<int>, B: seq<int>, changes: seq<CellChange>, n: int)
    requires |G| == n * n && ChangesInGrid(changes, n) && DistinctCells(changes)
    requires Conformable(R, G) && B == MatVec(R, G)
    ensures Conformable(R, DeltaG(changes, G, n)) && Conformable(R, Applied(G, changes, n))
    ensures AddVec(B, MatVec(R, DeltaG(changes, G, n))) == MatVec(R, Applied(G, changes, n))
  {
    AppliedEqualsAdd(G, changes, n);
    MatVecAdd(R, G, DeltaG(changes, G, n));
  }

  /** A delta entry only looks at the grid entry it is about. */
  lemma {:induction false} DeltaAtLocal(changes: seq<CellChange>, G: seq<int>, H: seq<int>, n: int, c: int)
    requires 0 <= c < |G| && 0 <= c < |H| && G[c] == H[c]
    ensures DeltaAt(changes, G, n, c) == DeltaAt(changes, H, n, c)
  {
    if |changes| > 0 {
      DeltaAtLocal(changes[..|changes| - 1], G, H, n, c);
    }
  }

  /** Taken against the grid the batch produced, every delta entry is zero. */
  lemma {:induction false} ReapplyDeltaZero(G: seq<int>, changes: seq<CellChange>, n: int, c: int)
    requires |G| == n * n && ChangesInGrid(changes, n) && DistinctCells(changes)
    requires 0 <= c < |G|
    ensures DeltaAt(changes, Applied(G, changes, n), n, c) == 0
  {
    if |changes| > 0 {
      var pre, last := changes[..|changes| - 1], changes[|changes| - 1];
      assert forall t :: 0 <= t < |pre| ==> pre[t] == changes[t];
      var G0, G1 := Applied(G, pre, n), Applied(G, changes, n);
      if Flat(last.cell, n) == c {
        forall t | 0 <= t < |pre| ensures Flat(pre[t].cell, n) != c {
          if Flat(pre[t].cell, n) == c {
            FlatCellInjective(n, pre[t].cell, last.cell);
          }
        }
        DeltaAtUntouched(pre, G1, n, c);
      } else {
        ReapplyDeltaZero(G, pre, n, c);
        DeltaAtLocal(pre, G0, G1, n, c);
      }
    }
  }

  /** Re-applying a batch of distinct cells produces an all-zero `dG`, and
      leaves the grid as it was. */
  lemma ReapplyIsNoOp(G: seq<int>, changes: seq<CellChange>, n: int)
    requires |G| == n * n && ChangesInGrid(changes, n) && DistinctCells(changes)
    ensures AllZero(DeltaG(changes, Applied(G, changes, n), n))
    ensures Applied(Applied(G, changes, n), changes, n) == Applied(G, changes, n)
  {
    var G1 := Applied(G, changes, n);
    forall c | 0 <= c < |G1|
      ensures DeltaG(changes, G1, n)[c] == 0 && Applied(G1, changes, n)[c] == G1[c]
    {
      ReapplyDeltaZero(G, changes, n, c);
      AppliedIsDelta(G1, changes, n, c);
    }
  }

  /** Applying the same batch of distinct cells twice: the second
      `B + R @ dG` is `B` itself, so counts and visibility stay as they are. */
  lemma UpdateTwiceIdempotent(R: seq<seq<bool>>, G: seq<int>, B: seq<int>, changes: seq<CellChange>, n: int)
    requires |G| == n * n && ChangesInGrid(changes, n) && DistinctCells(changes)
    requires Conformable(R, G) && |B| == |R|
    ensures Conformable(R, DeltaG(changes, Applied(G, changes, n), n))
    ensures AddVec(B, MatVec(R, DeltaG(changes, Applied(G, changes, n), n))) == B
    ensures VisibleFlags(AddVec(B, MatVec(R, DeltaG(changes, Applied(G, changes, n), n)))) == VisibleFlags(B)
  {
    ReapplyIsNoOp(G, changes, n);
    MatVecZero(R, DeltaG(changes, Applied(G, changes, n), n));
  }

  /** LOSSystem: the dense engine's state and its operations. */
  class LOSSystem {
    const N: nat
    var R: seq<seq<bool>>
    var B: seq<int>
    var G: seq<int>
    var V: array2<bool>

    /** Shapes, and `V` built from `B == 0` as _reshape_visibility_matrix builds it. */
    ghost predicate Valid()
      reads this, V
    {
      && N > 0
      && R == RayMatrix(N)
      && |R| == |B| == N * N * (N * N - 1) / 2
      && |G| == N * N
      && NonNegative(G)
      && V.Length0 == N * N && V.Length1 == N * N
      && forall a, b :: 0 <= a < N * N && 0 <= b < N * N ==>
           V[a, b] == PairVisible(VisibleFlags(B), N * N, a, b)
    }

    /** The linear-update invariant `B == R @ G`. */
    ghost predicate Consistent()
      reads this
    {
      Conformable(R, G) && B == MatVec(R, G)
    }

    /** No grid entry the ray of flat pair `(min(a,b), max(a,b))` marks is
        blocked in `G`.  The ray marks `y * N + x` for the walk over
        `(x, y) == divmod(flat, N)`, while `G` is flattened as `i * N + j`, so
        the entries read are those of the mirror image `(c, r)` of each
        visited `(r, c)`. */
    ghost predicate RayUnblocked(a: int, b: int)
      reads this
      requires N > 0 && 0 <= a < b < N * N
    {
      forall c :: 0 <= c < N * N && c < |G| && PairRay((a, b), N)[c] ==> G[c] == 0
    }

    /** Whether the row-major double loop over pairs `i < j` has already
        written entry `(a, b)` when it reaches pair `(i, j)`. */
    static predicate Filled(a: int, b: int, i: int, j: int)
    {
      a != b && (Min(a, b) < i || (Min(a, b) == i && Max(a, b) < j))
    }

    /** _reshape_visibility_matrix: fill an `N^2 x N^2` matrix from the flat
        flags with a running ray counter, symmetrically, then set the diagonal. */
    static method ReshapeVisibility(n: nat, vFlat: seq<bool>) returns (V: array2<bool>)
      requires |vFlat| == n * n * (n * n - 1) / 2
      ensures fresh(V) && V.Length0 == n * n && V.Length1 == n * n
      ensures forall a, b :: 0 <= a < n * n && 0 <= b < n * n ==> V[a, b] == PairVisible(vFlat, n * n, a, b)
    {
      var m := n * n;
      V := new bool[m, m]((_, _) => false);
      var rayIndex := 0;
      for i := 0 to m
        invariant rayIndex == RowStart(m, i)
        invariant forall a, b :: 0 <= a < m && 0 <= b < m ==>
          V[a, b] == (a != b && Min(a, b) < i && PairVisible(vFlat, m, a, b))
      {
        for j := i + 1 to m
          invariant rayIndex == RowStart(m, i) + (j - i - 1)
          invariant forall a, b :: 0 <= a < m && 0 <= b < m ==>
            V[a, b] == (Filled(a, b, i, j) && PairVisible(vFlat, m, a, b))
        {
          PairIndexBound(m, i, j);
          if vFlat[rayIndex] {
            V[i, j] := true;
            V[j, i] := true;
          }
          rayIndex := rayIndex + 1;
        }
      }
      for i := 0 to m
        invariant forall a, b :: 0 <= a < m && 0 <= b < m ==>
          V[a, b] == (if a == b then a < i else PairVisible(vFlat, m, a, b))
      {
        V[i, i] := true;
      }
    }

    /** __init__: the ray matrix and initial counts from
        compute_initial_visibility, `V` from the flags, and an int grid that
        sums duplicate cells. */
    constructor (n: nat, blockedCells: seq<Cell>)
      requires n >= 2 && AllInGrid(blockedCells, n)
      ensures Valid() && fresh(V)
      ensures N == n && R == RayMatrix(n) && G == CountGrid(n, blockedCells)
      ensures forall k :: 0 <= k < |B| ==> B[k] == |Support(R[k]) * BlockedFlat(n, blockedCells)|
      ensures NoDuplicates(blockedCells) ==> Consistent()
    {
      var rays, vFlat, counts := ComputeInitialVisibility(n, blockedCells);
      assert vFlat == VisibleFlags(counts);
      var visibility := ReshapeVisibility(n, vFlat);
      N, R, B, V := n, rays, counts, visibility;
      G := CountGrid(n, blockedCells);
      new;
      if NoDuplicates(blockedCells) {
        CountGridNoDuplicates(n, blockedCells);
        forall k | 0 <= k < |R| ensures B[k] == MatVec(R, G)[k] {
          DotIndicator(R[k], BlockedFlat(n, blockedCells));
        }
      }
    }

    /** update_cells: `dG` against the pre-batch grid, then the assignments in
        list order, then `B += R @ dG` and `V` rebuilt from `B == 0`. */
    method UpdateCells(changes: seq<CellChange>)
      requires Valid() && ChangesInGrid(changes, N)
      modifies this
      ensures Valid() && fresh(V)
      ensures R == old(R) && G == Applied(old(G), changes, N)
      ensures Conformable(R, DeltaG(changes, old(G), N))
      ensures B == AddVec(old(B), MatVec(R, DeltaG(changes, old(G), N)))
      ensures old(Consistent()) && DistinctCells(changes) ==> Consistent()
    {
      var dG := DeltaG(changes, G, N);
      ghost var G0 := G;
      for t := 0 to |changes|
        invariant |G| == N * N && G == Applied(G0, changes[..t], N) && NonNegative(G)
        invariant R == old(R) && B == old(B) && V == old(V)
      {
        var cell := changes[t].cell;
        FlatInRange(N, cell.0, cell.1);
        assert changes[..t + 1][..t] == changes[..t];
        G := G[Flat(cell, N) := BoolInt(changes[t].newState)];
      }
      assert changes[..|changes|] == changes;
      RayMatrixShape(N);
      var affectedRays := MatVec(R, dG);
      ghost var B0 := B;
      B := AddVec(B, affectedRays);
      var newVFlat := VisibleFlags(B);
      V := ReshapeVisibility(N, newVFlat);
      if B0 == MatVec(R, G0) && DistinctCells(changes) {
        UpdatePreservesCounts(R, G0, B0, changes, N);
      }
    }

    /** is_visible: the entry of `V` at flat indices `r * N + c`.  The answer
        is true on the diagonal, symmetric, and, while `B == R @ G`, true
        exactly when no grid entry the pair's ray marks is blocked. */
    method IsVisible(start: Cell, end: Cell) returns (visible: bool)
      requires Valid() && InGrid(start, N) && InGrid(end, N)
      ensures 0 <= Flat(start, N) < N * N && 0 <= Flat(end, N) < N * N
      ensures visible == PairVisible(VisibleFlags(B), N * N, Flat(start, N), Flat(end, N))
      ensures visible == V[Flat(start, N), Flat(end, N)]
      ensures visible == V[Flat(end, N), Flat(start, N)]
      ensures start == end ==> visible
      ensures Consistent() ==>
        (visible <==> (Flat(start, N) == Flat(end, N) ||
                       RayUnblocked(Min(Flat(start, N), Flat(end, N)), Max(Flat(start, N), Flat(end, N)))))
    {
      FlatInRange(N, start.0, start.1);
      FlatInRange(N, end.0, end.1);
      var startIdx := start.0 * N + start.1;
      var endIdx := end.0 * N + end.1;
      visible := V[startIdx, endIdx];
      if startIdx == endIdx {
        FlatCellInjective(N, start, end);
      }
      if Consistent() {
        VisibleMeaning(startIdx, endIdx);
      }
    }

    /** While `B == R @ G`, `V[a, b]` holds exactly when a == b or no grid
        entry the ray of `(min(a, b), max(a, b))` marks is blocked. */
    lemma VisibleMeaning(a: int, b: int)
      requires Valid() && Consistent() && 0 <= a < N * N && 0 <= b < N * N
      ensures PairVisible(VisibleFlags(B), N * N, a, b) <==> (a == b || RayUnblocked(Min(a, b), Max(a, b)))
    {
      if a != b {
        var m := N * N;
        var s, e := Min(a, b), Max(a, b);
        PairsEnumeration(m);
        var k := PairIndex(m, s, e);
        assert R[k] == PairRay((s, e), N);
        DotZeroIff(R[k], G);
      }
    }

    /** get_visible_cells: read row `start_idx` of `V`, then list every cell
        `(i // N, i % N)` whose flat index i is true in it, in ascending
        row-major order; `start` itself is always among them. */
    method GetVisibleCells(start: Cell) returns (cells: seq<Cell>)
      requires Valid() && InGrid(start, N)
      ensures 0 <= Flat(start, N) < N * N
      ensures forall k :: 0 <= k < |cells| ==>
        InGrid(cells[k], N) && 0 <= Flat(cells[k], N) < N * N && V[Flat(start, N), Flat(cells[k], N)]
      ensures forall k, l :: 0 <= k < l < |cells| ==> Flat(cells[k], N) < Flat(cells[l], N)
      ensures forall c :: InGrid(c, N) && 0 <= Flat(c, N) < N * N && V[Flat(start, N), Flat(c, N)] ==> c in cells
      ensures start in cells
    {
      FlatInRange(N, start.0, start.1);
      var startIdx := start.0 * N + start.1;
      var v := V;
      var visible := seq(N * N, i requires 0 <= i < N * N reads v => v[startIdx, i]);
      cells := CellsWhere(visible, N);
      CellsWhereComplete(visible, N, cells);
      assert visible[startIdx];
    }
  }

  /** A listing that holds the divmod cell of every true flat index holds
      every in-grid cell whose flat index is true. */
  lemma CellsWhereComplete(visible: seq<bool>, n: int, cells: seq<Cell>)
    requires n > 0 && |visible| == n * n
    requires forall f :: 0 <= f < n * n && visible[f] ==> DivMod(f, n) in cells
    ensures forall c :: InGrid(c, n) && 0 <= Flat(c, n) < n * n && visible[Flat(c, n)] ==> c in cells
  {
    forall c | InGrid(c, n) && 0 <= Flat(c, n) < n * n && visible[Flat(c, n)] ensures c in cells {
      FlatDivMod(Flat(c, n), n);
      FlatCellInjective(n, c, DivMod(Flat(c, n), n));
    }
  }

  /** A flat index below `n*n` and its `divmod` name the same in-grid cell. */
  lemma FlatDivMod(f: int, n: int)
    requires n > 0 && 0 <= f < n * n
    ensures InGrid(DivMod(f, n), n) && Flat(DivMod(f, n), n) == f
  {
    DivModInGrid(f, n);
  }

  /** The cells `(i // N, i % N)` for the flat indices i below k that are
      true in a row of `V`, in ascending order of i. */
  function CellsUpTo(visible: seq<bool>, n: int, k: nat): seq<Cell>
    requires n > 0 && k <= |visible|
  {
    if k == 0 then []
    else CellsUpTo(visible, n, k - 1) + (if visible[k - 1] then [DivMod(k - 1, n)] else [])
  }

  /** Every listed cell is in the grid and true in the row at a flat index below k. */
  lemma {:induction false} CellsUpToSound(visible: seq<bool>, n: int, k: nat)
    requires n > 0 && k <= |visible| == n * n
    ensures forall t :: 0 <= t < |CellsUpTo(visible, n, k)| ==>
      var c := CellsUpTo(visible, n, k)[t];
      InGrid(c, n) && 0 <= Flat(c, n) < k && visible[Flat(c, n)]
  {
    if k > 0 {
      CellsUpToSound(visible, n, k - 1);
      FlatDivMod(k - 1, n);
    }
  }

  /** The listed cells are strictly ascending in row-major order. */
  lemma {:induction false} CellsUpToAscending(visible: seq<bool>, n: int, k: nat)
    requires n > 0 && k <= |visible| == n * n
    ensures forall t, u :: 0 <= t < u < |CellsUpTo(visible, n, k)| ==>
      Flat(CellsUpTo(visible, n, k)[t], n) < Flat(CellsUpTo(visible, n, k)[u], n)
  {
    if k > 0 {
      CellsUpToAscending(visible, n, k - 1);
      CellsUpToSound(visible, n, k - 1);
      FlatDivMod(k - 1, n);
    }
  }

  /** Every true flat index below k is listed, as its divmod cell. */
  lemma {:induction false} CellsUpToComplete(visible: seq<bool>, n: int, k: nat)
    requires n > 0 && k <= |visible| == n * n
    ensures forall f :: 0 <= f < k && visible[f] ==> DivMod(f, n) in CellsUpTo(visible, n, k)
  {
    if k > 0 {
      CellsUpToComplete(visible, n, k - 1);
    }
  }

  /** The list comprehension of get_visible_cells over one row of `V`. */
  method CellsWhere(visible: seq<bool>, n: nat) returns (cells: seq<Cell>)
    requires n > 0 && |visible| == n * n
    ensures cells == CellsUpTo(visible, n, n * n)
    ensures forall k :: 0 <= k < |cells| ==>
      InGrid(cells[k], n) && 0 <= Flat(cells[k], n) < n * n && visible[Flat(cells[k], n)]
    ensures forall k, l :: 0 <= k < l < |cells| ==> Flat(cells[k], n) < Flat(cells[l], n)
    ensures forall f :: 0 <= f < n * n && visible[f] ==> DivMod(f, n) in cells
  {
    cells := [];
    for i := 0 to n * n
      invariant cells == CellsUpTo(visible, n, i)
    {
      if visible[i] {
        cells := cells + [(i / n, i % n)];
      }
    }
    CellsUpToSound(visible, n, n * n);
    CellsUpToAscending(visible, n, n * n);
    CellsUpToComplete(visible, n, n * n);
  }

  /** Setting cells to unblocked: an entry named by some change becomes 0,
      every other entry keeps its value. */
  lemma {:induction false} AppliedClearing(G: seq<int>, changes: seq<CellChange>, n: int, c: int)
    requires |G| == n * n && ChangesInGrid(changes, n)
    requires forall t :: 0 <= t < |changes| ==> !changes[t].newState
    requires 0 <= c < |G|
    ensures Applied(G, changes, n)[c] ==
      if exists t :: 0 <= t < |changes| && Flat(changes[t].cell, n) == c then 0 else G[c]
  {
    if |changes| > 0 {
      var pre := changes[..|changes| - 1];
      assert forall t :: 0 <= t < |pre| ==> pre[t] == changes[t];
      AppliedClearing(G, pre, n, c);
    }
  }

  /** The initial grid of the example: 1 at (2,2), (3,3), (4,4) and 0 elsewhere. */
  lemma ScenarioInitialGrid(G: seq<int>)
    requires G == CountGrid(10, [(2, 2), (3, 3), (4, 4)])
    ensures |G| == 100 && G[22] == 1
    ensures forall c :: 0 <= c < 100 && G[c] != 0 ==> c == 22 || c == 33 || c == 44
  {
    var blocked := [(2, 2), (3, 3), (4, 4)];
    CountGridNoDuplicates(10, blocked);
    assert Flat(blocked[0], 10) == 22;
  }

  /** After blocking (5,5) as well, only the four diagonal cells are nonzero. */
  lemma ScenarioBlockedGrid(G: seq<int>, G1: seq<int>)
    requires |G| == 100 && G[22] == 1
    requires forall c :: 0 <= c < 100 && G[c] != 0 ==> c == 22 || c == 33 || c == 44
    requires G1 == Applied(G, [CellChange((5, 5), true)], 10)
    ensures |G1| == 100 && G1[22] == 1
    ensures forall c :: 0 <= c < 100 && G1[c] != 0 ==> c == 22 || c == 33 || c == 44 || c == 55
  {
    var changes := [CellChange((5, 5), true)];
    forall c | 0 <= c < 100 ensures G1[c] == if c == 55 then 1 else G[c] {
      AppliedIsDelta(G, changes, 10, c);
    }
  }

  /** Unblocking the four diagonal cells empties the grid. */
  lemma ScenarioClearedGrid(G1: seq<int>, G2: seq<int>, changes: seq<CellChange>)
    requires |G1| == 100
    requires forall c :: 0 <= c < 100 && G1[c] != 0 ==> c == 22 || c == 33 || c == 44 || c == 55
    requires changes == [CellChange((2, 2), false), CellChange((3, 3), false),
                         CellChange((4, 4), false), CellChange((5, 5), false)]
    requires G2 == Applied(G1, changes, 10)
    ensures AllZero(G2)
  {
    forall c | 0 <= c < 100 ensures G2[c] == 0 {
      AppliedClearing(G1, changes, 10, c);
      if c == 22 {
        assert Flat(changes[0].cell, 10) == c;
      } else if c == 33 {
        assert Flat(changes[1].cell, 10) == c;
      } else if c == 44 {
        assert Flat(changes[2].cell, 10) == c;
      } else if c == 55 {
        assert Flat(changes[3].cell, 10) == c;
      }
    }
  }

  /** The scenario of lossystem.py's example block: on a 10 x 10 grid with
      (2,2), (3,3), (4,4) blocked, (0,0) does not see (9,9); blocking (5,5)
      keeps it hidden; unblocking all four cells makes it visible again. */
  method DiagonalScenario() returns (before: bool, during: bool, after: bool)
    ensures !before && !during && after
  {
    var los;
    los, before := ScenarioStart();
    during := ScenarioBlock(los);
    after := ScenarioUnblock(los);
  }

  /** The example's system, and the query before any update. */
  method ScenarioStart() returns (los: LOSSystem, visible: bool)
    ensures fresh(los) && fresh(los.V) && los.Valid() && los.Consistent() && los.N == 10
    ensures |los.G| == 100 && los.G[22] == 1
    ensures forall c :: 0 <= c < 100 && los.G[c] != 0 ==> c == 22 || c == 33 || c == 44
    ensures !visible
  {
    var blocked := [(2, 2), (3, 3), (4, 4)];
    assert NoDuplicates(blocked);
    los := new LOSSystem(10, blocked);
    ScenarioInitialGrid(los.G);
    HiddenWhileBlocked(los);
    visible := los.IsVisible((0, 0), (9, 9));
  }

  /** Blocking (5,5) as well: still hidden. */
  method ScenarioBlock(los: LOSSystem) returns (visible: bool)
    requires los.Valid() && los.Consistent() && los.N == 10
    requires |los.G| == 100 && los.G[22] == 1
    requires forall c :: 0 <= c < 100 && los.G[c] != 0 ==> c == 22 || c == 33 || c == 44
    modifies los
    ensures fresh(los.V) && los.Valid() && los.Consistent()
    ensures |los.G| == 100
    ensures forall c :: 0 <= c < 100 && los.G[c] != 0 ==> c == 22 || c == 33 || c == 44 || c == 55
    ensures !visible
  {
    var block := [CellChange((5, 5), true)];
    assert ChangesInGrid(block, 10) && DistinctCells(block);
    ghost var G0 := los.G;
    los.UpdateCells(block);
    ScenarioBlockedGrid(G0, los.G);
    HiddenWhileBlocked(los);
    visible := los.IsVisible((0, 0), (9, 9));
  }

  /** Unblocking all four diagonal cells: visible again. */
  method ScenarioUnblock(los: LOSSystem) returns (visible: bool)
    requires los.Valid() && los.Consistent() && los.N == 10 && |los.G| == 100
    requires forall c :: 0 <= c < 100 && los.G[c] != 0 ==> c == 22 || c == 33 || c == 44 || c == 55
    modifies los
    ensures visible
  {
    var unblock := [CellChange((2, 2), false), CellChange((3, 3), false),
                    CellChange((4, 4), false), CellChange((5, 5), false)];
    UnblockBatchShape(unblock);
    ghost var G1 := los.G;
    los.UpdateCells(unblock);
    ScenarioClearedGrid(G1, los.G, unblock);
    VisibleWhenClear(los);
    visible := los.IsVisible((0, 0), (9, 9));
  }

  lemma UnblockBatchShape(unblock: seq<CellChange>)
    requires unblock == [CellChange((2, 2), false), CellChange((3, 3), false),
                         CellChange((4, 4), false), CellChange((5, 5), false)]
    ensures ChangesInGrid(unblock, 10) && DistinctCells(unblock)
  {
  }

  /** With (2,2) blocked in a consistent 10 x 10 system, (0,0) and (9,9) do
      not see each other. */
  lemma HiddenWhileBlocked(los: LOSSystem)
    requires los.Valid() && los.Consistent() && los.N == 10 && |los.G| == 100 && los.G[22] != 0
    ensures Flat((0, 0), 10) == 0 && Flat((9, 9), 10) == 99
    ensures !los.RayUnblocked(0, 99)
  {
    DiagonalRayMeetsBlocker();
  }

  /** With an empty grid, (0,0) and (9,9) see each other. */
  lemma VisibleWhenClear(los: LOSSystem)
    requires los.Valid() && los.Consistent() && los.N == 10 && AllZero(los.G)
    ensures Flat((0, 0), 10) == 0 && Flat((9, 9), 10) == 99
    ensures los.RayUnblocked(0, 99)
  {
  }

  /** Ray number PairIndex(100, 0, 99) of the 10 x 10 grid (from flat 0 to
      flat 99, i.e. (0,0) to (9,9)) marks index 22, the flat index of (2,2). */
  lemma DiagonalRayMeetsBlocker()
    ensures 22 in Support(PairRay((0, 99), 10))
  {
    DiagonalMarksCell(2);
  }

  lemma DiagonalEnds()
    ensures DivMod(0, 10) == (0, 0) && DivMod(99, 10) == (9, 9)
  {
  }

  /** The walk from (0,0) to (9,9) alternates a y step and an x step, so
      after 2i iterations it stands on the diagonal cell (i, i). */
  lemma {:induction false} DiagonalCursor(i: nat)
    requires i <= 9
    ensures CursorAt((0, 0), (9, 9), 2 * i) == Cursor(i, i, 0)
  {
    var st := StrideOf((0, 0), (9, 9));
    assert st == Stride(1, 1, 18, 18);
    if i > 0 {
      DiagonalCursor(i - 1);
      var c := CursorAt((0, 0), (9, 9), 2 * i - 2);
      assert CursorAt((0, 0), (9, 9), 2 * i - 1) == Advance(c, st) == Cursor(i - 1, i, 18);
      assert CursorAt((0, 0), (9, 9), 2 * i) == Advance(Cursor(i - 1, i, 18), st);
    }
  }

  /** Iteration t of a ray between in-grid cells marks an index of its mask. */
  lemma RayMarksStep(start: Cell, end: Cell, n: nat, t: nat)
    requires InGrid(start, n) && InGrid(end, n) && t < Steps(start, end)
    ensures MarkIndex(CellAt(start, end, t), n) in Support(RayMask(start, end, n))
  {
    RayMaskCount(start, end, n);
    assert MarkIndex(CellAt(start, end, t), n) in RayIndices(start, end, n);
  }

  /** The ray of flat pair (0, 99) marks the three diagonal cells (2,2),
      (3,3) and (4,4), flat indices 22, 33 and 44. */
  lemma DiagonalRayMarks()
    ensures {22, 33, 44} <= Support(PairRay((0, 99), 10))
  {
    DiagonalMarksCell(2);
    DiagonalMarksCell(3);
    DiagonalMarksCell(4);
  }

  /** The ray of flat pair (0, 99) marks the diagonal cell (i, i). */
  lemma DiagonalMarksCell(i: nat)
    requires 1 <= i <= 8
    ensures 11 * i in Support(PairRay((0, 99), 10))
  {
    DiagonalEnds();
    DiagonalCursor(i);
    assert CellAt((0, 0), (9, 9), 2 * i) == (i, i);
    assert MarkIndex((i, i), 10) == 11 * i;
    RayMarksStep((0, 0), (9, 9), 10, 2 * i);
  }

  /** On one ray, the entry of `R @ dG` for a batch of distinct cells is the
      ray's sum after the batch minus its sum before. */
  lemma DeltaCountOnRay(R: seq<seq<bool>>, G: seq<int>, changes: seq<CellChange>, n: int, k: int)
    requires |G| == n * n && ChangesInGrid(changes, n) && DistinctCells(changes)
    requires Conformable(R, G) && 0 <= k < |R|
    ensures Conformable(R, DeltaG(changes, G, n)) && Conformable(R, Applied(G, changes, n))
    ensures MatVec(R, DeltaG(changes, G, n))[k] == Dot(R[k], Applied(G, changes, n)) - Dot(R[k], G)
  {
    AppliedEqualsAdd(G, changes, n);
    DotUpToAdd(R[k], G, DeltaG(changes, G, n), |G|);
  }

  /** The saturated initial `B` of the program drifts below zero: on a
      10 x 10 grid with (2,2), (3,3), (4,4) blocked, unblocking all three
      leaves no blocked cell, yet the entry of ray (0, 99) becomes
      `1 - 3 == -2`, so the pair stays hidden; with counts it would be 0. */
  lemma SaturatedUnblockHidden(R: seq<seq<bool>>, G: seq<int>, unblock: seq<CellChange>, B0: seq<int>, k: int)
    requires R == RayMatrix(10)
    requires G == CountGrid(10, [(2, 2), (3, 3), (4, 4)])
    requires unblock == [CellChange((2, 2), false), CellChange((3, 3), false), CellChange((4, 4), false)]
    requires B0 == SaturatedCounts(R, BlockedFlat(10, [(2, 2), (3, 3), (4, 4)]))
    requires k == PairIndex(100, 0, 99)
    ensures |G| == 100 && ChangesInGrid(unblock, 10) && AllZero(Applied(G, unblock, 10))
    ensures 0 <= k < |R| == |B0| && Conformable(R, G) && Conformable(R, DeltaG(unblock, G, 10))
    ensures AddVec(B0, MatVec(R, DeltaG(unblock, G, 10)))[k] == -2
    ensures AddVec(MatVec(R, G), MatVec(R, DeltaG(unblock, G, 10)))[k] == 0
  {
    TrioGrid(G);
    DiagonalRow(R, k);
    DiagonalRayMarks();
    TrioDrift(R, G, unblock, B0, k);
  }

  /** The drift on any ray that crosses the three blocked diagonal cells. */
  lemma TrioDrift(R: seq<seq<bool>>, G: seq<int>, unblock: seq<CellChange>, B0: seq<int>, k: int)
    requires |G| == 100 && G == Indicator(100, {22, 33, 44}) && Conformable(R, G)
    requires 0 <= k < |R| && {22, 33, 44} <= Support(R[k])
    requires unblock == [CellChange((2, 2), false), CellChange((3, 3), false), CellChange((4, 4), false)]
    requires B0 == SaturatedCounts(R, {22, 33, 44})
    ensures ChangesInGrid(unblock, 10) && AllZero(Applied(G, unblock, 10))
    ensures |R| == |B0| && Conformable(R, DeltaG(unblock, G, 10))
    ensures AddVec(B0, MatVec(R, DeltaG(unblock, G, 10)))[k] == -2
    ensures AddVec(MatVec(R, G), MatVec(R, DeltaG(unblock, G, 10)))[k] == 0
  {
    var S := {22, 33, 44};
    TrioCleared(G, unblock);
    DotIndicator(R[k], S);
    assert Support(R[k]) * S == S;
    assert 22 in Support(R[k]) * S;
    var G1 := Applied(G, unblock, 10);
    DotUpToZero(R[k], G1, |G1|);
    DeltaCountOnRay(R, G, unblock, 10, k);
  }

  /** The 0/1 grid of the three blocked diagonal cells. */
  lemma TrioGrid(G: seq<int>)
    requires G == CountGrid(10, [(2, 2), (3, 3), (4, 4)])
    ensures BlockedFlat(10, [(2, 2), (3, 3), (4, 4)]) == {22, 33, 44}
    ensures |G| == 100 && G == Indicator(100, {22, 33, 44})
  {
    var blocked := [(2, 2), (3, 3), (4, 4)];
    assert Flat(blocked[0], 10) == 22 && Flat(blocked[1], 10) == 33 && Flat(blocked[2], 10) == 44;
    CountGridNoDuplicates(10, blocked);
  }

  /** Row PairIndex(100, 0, 99) of the ray matrix of the 10 x 10 grid is the
      ray from (0,0) to (9,9); every row has 100 columns. */
  lemma DiagonalRow(R: seq<seq<bool>>, k: int)
    requires R == RayMatrix(10) && k == PairIndex(100, 0, 99)
    ensures 0 <= k < |R| && R[k] == PairRay((0, 99), 10)
    ensures forall j :: 0 <= j < |R| ==> |R[j]| == 100
  {
    RayMatrixShape(10);
    PairsEnumeration(100);
  }

  /** Unblocking the three diagonal cells empties their grid. */
  lemma TrioCleared(G: seq<int>, unblock: seq<CellChange>)
    requires |G| == 100 && G == Indicator(100, {22, 33, 44})
    requires unblock == [CellChange((2, 2), false), CellChange((3, 3), false), CellChange((4, 4), false)]
    ensures ChangesInGrid(unblock, 10) && DistinctCells(unblock)
    ensures AllZero(Applied(G, unblock, 10))
  {
    var G1 := Applied(G, unblock, 10);
    forall c | 0 <= c < 100 ensures G1[c] == 0 {
      AppliedClearing(G, unblock, 10, c);
      if c == 22 {
        assert Flat(unblock[0].cell, 10) == c;
      } else if c == 33 {
        assert Flat(unblock[1].cell, 10) == c;
      } else if c == 44 {
        assert Flat(unblock[2].cell, 10) == c;
      }
    }
  }

  /** update_cells called twice with the same batch of distinct cells: the
      second call leaves `G`, `B` and every entry of `V` as the first left
      them.  The out-parameters return the state after the first call. */
  method UpdateTwice(los: LOSSystem, changes: seq<CellChange>)
      returns (G1: seq<int>, B1: seq<int>, V1: array2<bool>)
    requires los.Valid() && ChangesInGrid(changes, los.N) && DistinctCells(changes)
    modifies los
    ensures los.Valid()
    ensures G1 == Applied(old(los.G), changes, los.N)
    ensures Conformable(los.R, DeltaG(changes, old(los.G), los.N))
    ensures B1 == AddVec(old(los.B), MatVec(los.R, DeltaG(changes, old(los.G), los.N)))
    ensures los.G == G1 && los.B == B1
    ensures V1.Length0 == los.V.Length0 && V1.Length1 == los.V.Length1
    ensures forall a, b :: 0 <= a < V1.Length0 && 0 <= b < V1.Length1 ==> los.V[a, b] == V1[a, b]
  {
    ghost var G0 := los.G;
    los.UpdateCells(changes);
    G1, B1, V1 := los.G, los.B, los.V;
    los.UpdateCells(changes);
    UpdateTwiceIdempotent(los.R, G0, B1, changes, los.N);
    ReapplyIsNoOp(G0, changes, los.N);
  }

  /** The ray of flat pair (0, 2) on a 3 x 3 grid walks (x, y) from (0, 0)
      to (0, 2) and marks `3 * y`: grid entries 0, 3 and 6, the cells (0,0),
      (1,0) and (2,0).  It misses entry 1, the cell (0,1) that lies between
      the endpoints (0,0) and (0,2). */
  lemma MirrorMissesBetween()
    ensures Flat((0, 1), 3) == 1 && Flat((0, 2), 3) == 2
    ensures Support(PairRay((0, 2), 3)) <= {0, 3, 6}
    ensures !PairRay((0, 2), 3)[1]
  {
    var start, end := DivMod(0, 3), DivMod(2, 3);
    assert start == (0, 0) && end == (0, 2);
    RayMaskCount(start, end, 3);
    forall u | 0 <= u < Steps(start, end)
      ensures MarkIndex(CellAt(start, end, u), 3) in {0, 3, 6}
    {
      RayInBox(start, end, u);
    }
  }

  /** The ray of flat pair (1, 8) on a 3 x 3 grid walks (x, y) from (0, 1)
      to (2, 2), so every mark `3 * y + x` is at least 3: it misses entry 1,
      its own start cell (0,1). */
  lemma MirrorMissesStart()
    ensures Flat((0, 1), 3) == 1 && Flat((2, 2), 3) == 8
    ensures forall k :: k in Support(PairRay((1, 8), 3)) ==> k >= 3
    ensures !PairRay((1, 8), 3)[1]
  {
    var start, end := DivMod(1, 3), DivMod(8, 3);
    assert start == (0, 1) && end == (2, 2);
    RayMaskCount(start, end, 3);
    forall u | 0 <= u < Steps(start, end)
      ensures MarkIndex(CellAt(start, end, u), 3) >= 3
    {
      RayInBox(start, end, u);
    }
  }

  /** The 0/1 grid of a 3 x 3 system with only (0,1) blocked. */
  lemma MirrorGrid(G: seq<int>)
    requires G == CountGrid(3, [(0, 1)])
    ensures |G| == 9 && forall c :: 0 <= c < 9 && G[c] != 0 ==> c == 1
  {
    assert Flat([(0, 1)][0], 3) == 1;
    CountGridNoDuplicates(3, [(0, 1)]);
    assert BlockedFlat(3, [(0, 1)]) == {1};
  }

  /** With only (0,1) blocked on a 3 x 3 grid, the dense engine reports
      (0,0) and (0,2) visible although the blocked cell lies between them,
      and (0,1) and (2,2) visible although the blocked cell is the start:
      the rays read the mirror images of the cells they visit. */
  method MirrorScenario() returns (between: bool, fromBlocked: bool)
    ensures between && fromBlocked
  {
    var blocked := [(0, 1)];
    assert NoDuplicates(blocked);
    var los := new LOSSystem(3, blocked);
    MirrorGrid(los.G);
    MirrorMissesBetween();
    MirrorMissesStart();
    between := los.IsVisible((0, 0), (0, 2));
    fromBlocked := los.IsVisible((0, 1), (2, 2));
  }
}
