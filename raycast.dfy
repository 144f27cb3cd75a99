/**
  The ray index builder of raycast.py: the integer error-accumulator line
  walker `compute_ray`, the enumeration of all flat cell pairs
  `start < end` in `generate_ray_matrix`, and the initial blockage counts of
  `compute_initial_visibility`.

  Index conventions are kept as the code has them: `compute_ray` receives
  `divmod(flat, N)`, i.e. (row, column), calls them (x, y) and marks index
  `y * N + x`; the blocked grid is flattened row-major as `i * N + j`.
 */
module Raycast {
  import opened Matrix

  type Cell = (int, int)

  function Abs(v: int): nat
  {
    if v < 0 then -v else v
  }

  /** A cell of the N-by-N grid. */
  predicate InGrid(c: Cell, n: int)
  {
    0 <= c.0 < n && 0 <= c.1 < n
  }

  /** Python's `divmod(flat, N)` for a non-negative flat index. */
  function DivMod(flat: int, n: int): Cell
    requires n > 0
  {
    (flat / n, flat % n)
  }

  // ---------------------------------------------------------------------
  // compute_ray
  // ---------------------------------------------------------------------

  /** The state of compute_ray's loop: position and error accumulator. */
  datatype Cursor = Cursor(x: int, y: int, error: int)

  /** compute_ray's loop constants, fixed before the loop starts. */
  datatype Stride = Stride(xInc: int, yInc: int, dx2: int, dy2: int)

  function StrideOf(start: Cell, end: Cell): Stride
  {
    Stride(if end.0 > start.0 then 1 else -1, if end.1 > start.1 then 1 else -1,
           2 * Abs(end.0 - start.0), 2 * Abs(end.1 - start.1))
  }

  /** The number of loop iterations, `n = 1 + dx + dy`. */
  function Steps(start: Cell, end: Cell): nat
  {
    1 + Abs(end.0 - start.0) + Abs(end.1 - start.1)
  }

  /** One iteration's move: on a positive error step x, otherwise step y. */
  function Advance(c: Cursor, s: Stride): Cursor
  {
    if c.error > 0 then Cursor(c.x + s.xInc, c.y, c.error - s.dy2)
    else Cursor(c.x, c.y + s.yInc, c.error + s.dx2)
  }

  /** The loop state after t iterations. */
  function CursorAt(start: Cell, end: Cell, t: nat): Cursor
  {
    if t == 0 then Cursor(start.0, start.1, Abs(end.0 - start.0) - Abs(end.1 - start.1))
    else Advance(CursorAt(start, end, t - 1), StrideOf(start, end))
  }

  /** The cell marked by iteration t. */
  function CellAt(start: Cell, end: Cell, t: nat): Cell
  {
    (CursorAt(start, end, t).x, CursorAt(start, end, t).y)
  }

  /** The cells compute_ray marks, in the order it marks them. */
  function Ray(start: Cell, end: Cell): seq<Cell>
  {
    seq(Steps(start, end), t requires t >= 0 => CellAt(start, end, t))
  }

  /** How many of the first t iterations stepped x. */
  function XMoves(start: Cell, end: Cell, t: nat): (a: nat)
    ensures a <= t
  {
    if t == 0 then 0
    else XMoves(start, end, t - 1) + (if CursorAt(start, end, t - 1).error > 0 then 1 else 0)
  }

  /** `from` moved k units towards `to` (the direction of x_inc / y_inc). */
  function Toward(from: int, to: int, k: int): int
  {
    if to > from then from + k else from - k
  }

  /** The index compute_ray writes for a cell: `y * N + x`. */
  function MarkIndex(c: Cell, n: int): int
  {
    c.1 * n + c.0
  }

  /** The indices marked by the first t iterations. */
  function Marked(start: Cell, end: Cell, n: int, t: nat): set<int>
  {
    set u | 0 <= u < t :: MarkIndex(CellAt(start, end, u), n)
  }

  /** Every index the whole walk marks. */
  function RayIndices(start: Cell, end: Cell, n: int): set<int>
  {
    Marked(start, end, n, Steps(start, end))
  }

  /** The boolean array compute_ray returns. */
  function RayMask(start: Cell, end: Cell, n: nat): seq<bool>
  {
    seq(n * n, k => k in RayIndices(start, end, n))
  }

  /** The error after a x-moves and b y-moves: `dx - dy - 2*a*dy + 2*b*dx`. */
  function ErrorAfter(dx: int, dy: int, a: int, b: int): int
  {
    dx - dy - 2 * a * dy + 2 * b * dx
  }

  lemma MulAtLeast(p: int, q: int)
    requires p >= 0 && q >= 1
    ensures p * q >= p
  {
  }

  /** Stepping x subtracts `2*dy`; stepping y adds `2*dx`. */
  lemma ErrorMoves(dx: int, dy: int, a: int, b: int)
    ensures ErrorAfter(dx, dy, a, b) - 2 * dy == ErrorAfter(dx, dy, a + 1, b)
    ensures ErrorAfter(dx, dy, a, b) + 2 * dx == ErrorAfter(dx, dy, a, b + 1)
  {
  }

  /** Once x has made all dx of its moves (and y has not), the error is not positive. */
  lemma ErrorXDone(dx: int, dy: int, b: int)
    requires dx >= 0 && 0 <= b < dy
    ensures ErrorAfter(dx, dy, dx, b) <= 0
  {
    MulAtLeast(dx, 2 * dy - 2 * b - 1);
    assert ErrorAfter(dx, dy, dx, b) == -dy - dx * (2 * dy - 2 * b - 1);
  }

  /** Once y has made all dy of its moves (and x has not), the error is positive. */
  lemma ErrorYDone(dx: int, dy: int, a: int)
    requires dy >= 0 && 0 <= a < dx
    ensures ErrorAfter(dx, dy, a, dy) > 0
  {
    MulAtLeast(dy, 2 * dx - 2 * a - 1);
    assert ErrorAfter(dx, dy, a, dy) == dx + dy * (2 * dx - 2 * a - 1);
  }

  /** The error-accumulator invariant: after t <= dx + dy iterations the walk
      has made a x-moves and b = t - a y-moves with a <= dx and b <= dy, it
      stands a units along x and b units along y towards `end`, and the error
      is `dx - dy - 2*a*dy + 2*b*dx`. */
  lemma {:induction false} Progress(start: Cell, end: Cell, t: nat)
    requires t < Steps(start, end)
    ensures ProgressAt(start, end, t)
  {
    if t > 0 {
      Progress(start, end, t - 1);
      ProgressStep(start, end, t - 1);
    }
  }

  /** The invariant of Progress after t iterations. */
  predicate ProgressAt(start: Cell, end: Cell, t: nat)
  {
    var a, dx, dy := XMoves(start, end, t), Abs(end.0 - start.0), Abs(end.1 - start.1);
    a <= dx && t - a <= dy &&
    CursorAt(start, end, t) ==
      Cursor(Toward(start.0, end.0, a), Toward(start.1, end.1, t - a), ErrorAfter(dx, dy, a, t - a))
  }

  /** One iteration of the invariant of Progress, from t to t + 1. */
  lemma ProgressStep(start: Cell, end: Cell, t: nat)
    requires t + 1 < Steps(start, end) && ProgressAt(start, end, t)
    ensures ProgressAt(start, end, t + 1)
  {
    var dx, dy := Abs(end.0 - start.0), Abs(end.1 - start.1);
    var a := XMoves(start, end, t);
    var b := t - a;
    ErrorMoves(dx, dy, a, b);
    var c, st := CursorAt(start, end, t), StrideOf(start, end);
    assert CursorAt(start, end, t + 1) == Advance(c, st);
    if c.error > 0 {
      if a == dx {
        ErrorXDone(dx, dy, b);
      }
    } else {
      if b == dy {
        ErrorYDone(dx, dy, a);
      }
    }
  }

  /** The first marked cell is `start`, the last is `end`; there are exactly
      `1 + |dx| + |dy|` of them. */
  lemma RayEndpoints(start: Cell, end: Cell)
    ensures |Ray(start, end)| == Steps(start, end) == 1 + Abs(end.0 - start.0) + Abs(end.1 - start.1)
    ensures Ray(start, end)[0] == start
    ensures Ray(start, end)[|Ray(start, end)| - 1] == end
  {
    var last := Steps(start, end) - 1;
    Progress(start, end, last);
  }

  /** Each iteration changes exactly one coordinate, by x_inc or by y_inc,
      and both increments are unit steps. */
  lemma RayStep(start: Cell, end: Cell, t: nat)
    requires t + 1 < Steps(start, end)
    ensures StrideOf(start, end).xInc in {1, -1} && StrideOf(start, end).yInc in {1, -1}
    ensures var c, d, s := Ray(start, end)[t], Ray(start, end)[t + 1], StrideOf(start, end);
      d == (c.0 + s.xInc, c.1) || d == (c.0, c.1 + s.yInc)
  {
  }

  /** Every marked cell lies in the bounding box of the two endpoints. */
  lemma RayInBox(start: Cell, end: Cell, t: nat)
    requires t < Steps(start, end)
    ensures var c := CellAt(start, end, t);
      (start.0 <= c.0 <= end.0 || end.0 <= c.0 <= start.0) &&
      (start.1 <= c.1 <= end.1 || end.1 <= c.1 <= start.1)
  {
    Progress(start, end, t);
  }

  /** No cell is marked twice. */
  lemma RayDistinct(start: Cell, end: Cell, u: nat, v: nat)
    requires u < v < Steps(start, end)
    ensures CellAt(start, end, u) != CellAt(start, end, v)
  {
    Progress(start, end, u);
    Progress(start, end, v);
  }

  /** Row-major flattening with `0 <= low < n` is injective. */
  lemma FlatInjective(n: int, high: int, low: int, high': int, low': int)
    requires 0 <= low < n && 0 <= low' < n
    requires high * n + low == high' * n + low'
    ensures high == high' && low == low'
  {
    if high > high' {
      assert (high - high') * n == high * n - high' * n;
      MulAtLeast(n, high - high');
    } else if high < high' {
      assert (high' - high) * n == high' * n - high * n;
      MulAtLeast(n, high' - high);
    }
  }

  /** A flat index `high * n + low` of a grid cell lies in `[0, n*n)`. */
  lemma FlatInRange(n: int, high: int, low: int)
    requires 0 <= high < n && 0 <= low < n
    ensures 0 <= high * n + low < n * n
  {
    assert high * n <= (n - 1) * n;
  }

  /** On an in-grid ray every written index `y*N + x` is in `[0, N*N)`. */
  lemma MarkInRange(start: Cell, end: Cell, n: int, t: nat)
    requires InGrid(start, n) && InGrid(end, n) && t < Steps(start, end)
    ensures InGrid(CellAt(start, end, t), n)
    ensures 0 <= MarkIndex(CellAt(start, end, t), n) < n * n
  {
    RayInBox(start, end, t);
    var c := CellAt(start, end, t);
    FlatInRange(n, c.1, c.0);
  }

  /** The first t iterations mark t distinct indices. */
  lemma {:induction false} MarkedCount(start: Cell, end: Cell, n: int, t: nat)
    requires InGrid(start, n) && InGrid(end, n) && t <= Steps(start, end)
    ensures |Marked(start, end, n, t)| == t
  {
    if t > 0 {
      MarkedCount(start, end, n, t - 1);
      var newIndex := MarkIndex(CellAt(start, end, t - 1), n);
      assert Marked(start, end, n, t) == Marked(start, end, n, t - 1) + {newIndex};
      forall u | 0 <= u < t - 1 ensures MarkIndex(CellAt(start, end, u), n) != newIndex {
        MarksDiffer(start, end, n, u, t - 1);
      }
    }
  }

  /** Two different iterations of one ray mark different flat indices. */
  lemma MarksDiffer(start: Cell, end: Cell, n: int, u: nat, v: nat)
    requires InGrid(start, n) && InGrid(end, n) && u < v < Steps(start, end)
    ensures MarkIndex(CellAt(start, end, u), n) != MarkIndex(CellAt(start, end, v), n)
  {
    MarkInRange(start, end, n, u);
    MarkInRange(start, end, n, v);
    RayDistinct(start, end, u, v);
    var cu, cv := CellAt(start, end, u), CellAt(start, end, v);
    if cu.1 * n + cu.0 == cv.1 * n + cv.0 {
      FlatInjective(n, cu.1, cu.0, cv.1, cv.0);
    }
  }

  /** The array compute_ray returns holds exactly `1 + |dx| + |dy|` true
      entries: the marked cells are pairwise distinct. */
  lemma RayMaskCount(start: Cell, end: Cell, n: nat)
    requires InGrid(start, n) && InGrid(end, n)
    ensures Support(RayMask(start, end, n)) == RayIndices(start, end, n)
    ensures |Support(RayMask(start, end, n))| == Steps(start, end)
  {
    forall k | k in RayIndices(start, end, n) ensures 0 <= k < n * n {
      var u :| 0 <= u < Steps(start, end) && MarkIndex(CellAt(start, end, u), n) == k;
      MarkInRange(start, end, n, u);
    }
    MarkedCount(start, end, n, Steps(start, end));
  }

  /** The tie `error == 0` steps y, so a ray and its reverse can differ. */
  lemma RayNotReversible()
    ensures Ray((0, 0), (1, 1)) == [(0, 0), (0, 1), (1, 1)]
    ensures Ray((1, 1), (0, 0)) == [(1, 1), (1, 0), (0, 0)]
  {
    var up, down := StrideOf((0, 0), (1, 1)), StrideOf((1, 1), (0, 0));
    assert up == Stride(1, 1, 2, 2) && down == Stride(-1, -1, 2, 2);
    var u0, d0 := CursorAt((0, 0), (1, 1), 0), CursorAt((1, 1), (0, 0), 0);
    assert u0 == Cursor(0, 0, 0) && d0 == Cursor(1, 1, 0);
    var u1, d1 := Advance(u0, up), Advance(d0, down);
    assert u1 == Cursor(0, 1, 2) && d1 == Cursor(1, 0, 2);
    var u2, d2 := Advance(u1, up), Advance(d1, down);
    assert u2 == Cursor(1, 1, 0) && d2 == Cursor(0, 0, 0);
    assert CursorAt((0, 0), (1, 1), 2) == u2 && CursorAt((1, 1), (0, 0), 2) == d2;
    assert Steps((0, 0), (1, 1)) == 3 && Steps((1, 1), (0, 0)) == 3;
  }

  /** compute_ray: walk from `start` to `end`, marking `y * N + x` at each step. */
  method ComputeRay(start: Cell, end: Cell, n: nat) returns (ray: array<bool>)
    requires InGrid(start, n) && InGrid(end, n)
    ensures fresh(ray)
    ensures ray[..] == RayMask(start, end, n)
  {
    ray := new bool[n * n](_ => false);
    var x0, y0 := start.0, start.1;
    var x1, y1 := end.0, end.1;
    var dx: int := Abs(x1 - x0);
    var dy: int := Abs(y1 - y0);
    var x, y := x0, y0;
    var steps := 1 + dx + dy;
    var xInc := if x1 > x0 then 1 else -1;
    var yInc := if y1 > y0 then 1 else -1;
    var error := dx - dy;
    dx := dx * 2;
    dy := dy * 2;
    for t := 0 to steps
      invariant Cursor(x, y, error) == CursorAt(start, end, t)
      invariant forall k :: 0 <= k < n * n ==> (ray[k] <==> k in Marked(start, end, n, t))
    {
      MarkInRange(start, end, n, t);
      ray[y * n + x] := true;
      assert Marked(start, end, n, t + 1) == Marked(start, end, n, t) + {MarkIndex(CellAt(start, end, t), n)};
      if error > 0 {
        x := x + xInc;
        error := error - dy;
      } else {
        y := y + yInc;
        error := error + dx;
      }
    }
  }

  // ---------------------------------------------------------------------
  // generate_ray_matrix
  // ---------------------------------------------------------------------

  /** The pairs `(s, e)` with `s < e < m` for one start `s`, in order of `e`. */
  function PairRow(m: int, s: int): seq<(int, int)>
    requires 0 <= s < m
  {
    seq(m - s - 1, j requires 0 <= j => (s, s + 1 + j))
  }

  /** The pairs visited by the outer loop before start `s`. */
  function PairsBefore(m: int, s: int): seq<(int, int)>
    requires 0 <= s <= m
  {
    if s == 0 then [] else PairsBefore(m, s - 1) + PairRow(m, s - 1)
  }

  /** All pairs of flat indices `start < end < m`, in the nested loops' order. */
  function Pairs(m: nat): seq<(int, int)>
  {
    PairsBefore(m, m)
  }

  /** The value of the running ray counter when start `s` begins. */
  function RowStart(m: int, s: int): int
    requires 0 <= s <= m
  {
    if s == 0 then 0 else RowStart(m, s - 1) + (m - s)
  }

  /** The position of pair `(s, e)` in the enumeration. */
  function PairIndex(m: int, s: int, e: int): int
    requires 0 <= s < e < m
  {
    RowStart(m, s) + (e - s - 1)
  }

  /** The ray for one pair of flat indices. */
  function PairRay(p: (int, int), n: int): seq<bool>
    requires n > 0
  {
    RayMask(DivMod(p.0, n), DivMod(p.1, n), n)
  }

  /** The rows of `R`: one ray mask per pair, in enumeration order. */
  function RayRows(ps: seq<(int, int)>, n: int): seq<seq<bool>>
    requires n > 0
  {
    seq(|ps|, k requires 0 <= k < |ps| => PairRay(ps[k], n))
  }

  /** The ray matrix `R` of an N-by-N grid. */
  function RayMatrix(n: int): seq<seq<bool>>
    requires n > 0
  {
    RayRows(Pairs(n * n), n)
  }

  predicate LexLess(p: (int, int), q: (int, int))
  {
    p.0 < q.0 || (p.0 == q.0 && p.1 < q.1)
  }

  /** The counter's closed form: `2 * RowStart(m, s) == s * (2m - s - 1)`. */
  lemma {:induction false} PairsBeforeLength(m: int, s: int)
    requires 0 <= s <= m
    ensures |PairsBefore(m, s)| == RowStart(m, s)
    ensures 2 * RowStart(m, s) == s * (2 * m - s - 1)
  {
    if s > 0 {
      PairsBeforeLength(m, s - 1);
    }
  }

  /** The enumeration holds `m(m-1)/2` pairs. */
  lemma PairsCount(m: nat)
    ensures |Pairs(m)| == RowStart(m, m) == m * (m - 1) / 2
  {
    PairsBeforeLength(m, m);
  }

  /** Every enumerated pair is `s < e < m`, and the enumeration is strictly
      increasing in lexicographic order (so no pair occurs twice). */
  lemma {:induction false} PairsBeforeOrdered(m: int, s: int)
    requires 0 <= s <= m
    ensures forall k :: 0 <= k < |PairsBefore(m, s)| ==>
      0 <= PairsBefore(m, s)[k].0 < s && PairsBefore(m, s)[k].0 < PairsBefore(m, s)[k].1 < m
    ensures forall k, l :: 0 <= k < l < |PairsBefore(m, s)| ==>
      LexLess(PairsBefore(m, s)[k], PairsBefore(m, s)[l])
  {
    if s > 0 {
      PairsBeforeOrdered(m, s - 1);
    }
  }

  /** Pair `(s, e)` sits at position `PairIndex(m, s, e)` of the enumeration. */
  lemma {:induction false} PairsBeforeAt(m: int, t: int, s: int, e: int)
    requires 0 <= s < e < m && s < t <= m
    ensures 0 <= PairIndex(m, s, e) < |PairsBefore(m, t)|
    ensures PairsBefore(m, t)[PairIndex(m, s, e)] == (s, e)
  {
    PairsBeforeLength(m, t - 1);
    PairsBeforeLength(m, s);
    if s < t - 1 {
      PairsBeforeAt(m, t - 1, s, e);
    }
  }

  /** The ray number of a pair is below the number of rays. */
  lemma PairIndexBound(m: int, s: int, e: int)
    requires 0 <= s < e < m
    ensures 0 <= PairIndex(m, s, e) < m * (m - 1) / 2
  {
    PairsBeforeAt(m, m, s, e);
    PairsCount(m);
  }

  /** The enumeration of generate_ray_matrix, stated outright: every pair
      `s < e` of flat indices, once each, in lexicographic order, pair
      `(s, e)` being ray number `PairIndex(m, s, e)`. */
  lemma PairsEnumeration(m: nat)
    ensures |Pairs(m)| == m * (m - 1) / 2
    ensures forall k :: 0 <= k < |Pairs(m)| ==> 0 <= Pairs(m)[k].0 < Pairs(m)[k].1 < m
    ensures forall k, l :: 0 <= k < l < |Pairs(m)| ==> LexLess(Pairs(m)[k], Pairs(m)[l])
    ensures forall s, e :: 0 <= s < e < m ==>
      0 <= PairIndex(m, s, e) < |Pairs(m)| && Pairs(m)[PairIndex(m, s, e)] == (s, e)
  {
    PairsCount(m);
    PairsBeforeOrdered(m, m);
    forall s, e | 0 <= s < e < m
      ensures 0 <= PairIndex(m, s, e) < |Pairs(m)| && Pairs(m)[PairIndex(m, s, e)] == (s, e)
    {
      PairsBeforeAt(m, m, s, e);
    }
  }

  /** A flat index below `n*n` splits into an in-grid (row, column). */
  lemma DivModInGrid(flat: int, n: int)
    requires n > 0 && 0 <= flat < n * n
    ensures InGrid(DivMod(flat, n), n)
  {
  }

  /** generate_ray_matrix: one ray per pair `start < end`, built by nested loops. */
  method GenerateRayMatrix(n: nat) returns (R: seq<seq<bool>>)
    requires n > 0
    ensures R == RayMatrix(n)
  {
    var totalCells := n * n;
    var rays: seq<seq<bool>> := [];
    ghost var done: seq<(int, int)> := [];
    for start := 0 to totalCells
      invariant done == PairsBefore(totalCells, start)
      invariant rays == RayRows(done, n)
    {
      for end := start + 1 to totalCells
        invariant done == PairsBefore(totalCells, start) + PairRow(totalCells, start)[..end - start - 1]
        invariant rays == RayRows(done, n)
      {
        DivModInGrid(start, n);
        DivModInGrid(end, n);
        var ray := ComputeRay(DivMod(start, n), DivMod(end, n), n);
        assert PairRow(totalCells, start)[..end - start] ==
               PairRow(totalCells, start)[..end - start - 1] + [(start, end)];
        done := done + [(start, end)];
        rays := rays + [ray[..]];
      }
      assert PairRow(totalCells, start)[..totalCells - start - 1] == PairRow(totalCells, start);
    }
    R := rays;
  }

  // ---------------------------------------------------------------------
  // compute_initial_visibility
  // ---------------------------------------------------------------------

  /** Row-major flattening of grid cell (i, j): `i * N + j`. */
  function Flat(c: Cell, n: int): int
  {
    c.0 * n + c.1
  }

  /** The flat indices `i * N + j` of a list of blocked cells. */
  function BlockedFlat(n: int, blocked: seq<Cell>): set<int>
  {
    set t | 0 <= t < |blocked| :: Flat(blocked[t], n)
  }

  predicate AllInGrid(cells: seq<Cell>, n: int)
  {
    forall t :: 0 <= t < |cells| ==> InGrid(cells[t], n)
  }

  /** Every ray matrix row has one column per grid cell. */
  lemma RayMatrixShape(n: int)
    requires n > 0
    ensures forall k :: 0 <= k < |RayMatrix(n)| ==> |RayMatrix(n)[k]| == n * n
  {
  }

  /** Against the 0/1 blocked grid, each product entry counts the distinct
      blocked indices on the row, and it is zero exactly when the row and the
      blocked set are disjoint. */
  lemma InitialCounts(R: seq<seq<bool>>, vFlat: seq<bool>, B: seq<int>, blocked: set<int>, size: nat)
    requires forall k :: 0 <= k < |R| ==> |R[k]| == size
    requires B == MatVec(R, Indicator(size, blocked))
    requires vFlat == seq(|B|, k requires 0 <= k < |B| => B[k] == 0)
    ensures forall k :: 0 <= k < |B| ==> B[k] == |Support(R[k]) * blocked|
    ensures forall k :: 0 <= k < |vFlat| ==> (vFlat[k] <==> Support(R[k]) !! blocked)
  {
    forall k | 0 <= k < |B|
      ensures B[k] == |Support(R[k]) * blocked|
      ensures vFlat[k] <==> Support(R[k]) !! blocked
    {
      DotIndicator(R[k], blocked);
      var both := Support(R[k]) * blocked;
      if both == {} {
        forall c | c in Support(R[k]) ensures c !in blocked {
          assert c !in both;
        }
      } else {
        var c :| c in both;
        assert c in Support(R[k]) && c in blocked;
      }
    }
  }

  /** The product of raycast.py:44 as written: `R` and `G` are both boolean,
      so each entry of `B` only says whether the ray meets a blocked cell
      (1) or not (0); it is not a count. */
  function SaturatedCounts(R: seq<seq<bool>>, blocked: set<int>): seq<int>
  {
    seq(|R|, k requires 0 <= k < |R| => if Support(R[k]) !! blocked then 0 else 1)
  }

  /** The saturated entries are the counts capped at 1, so they yield the
      same initial flags `B == 0` as the counts do. */
  lemma SaturatedFlagsAgree(R: seq<seq<bool>>, blocked: set<int>, size: nat)
    requires forall k :: 0 <= k < |R| ==> |R[k]| == size
    ensures Conformable(R, Indicator(size, blocked))
    ensures |SaturatedCounts(R, blocked)| == |MatVec(R, Indicator(size, blocked))|
    ensures forall k :: 0 <= k < |R| ==>
      SaturatedCounts(R, blocked)[k] == Min1(MatVec(R, Indicator(size, blocked))[k]) &&
      (SaturatedCounts(R, blocked)[k] == 0 <==> MatVec(R, Indicator(size, blocked))[k] == 0)
  {
    forall k | 0 <= k < |R|
      ensures SaturatedCounts(R, blocked)[k] == Min1(MatVec(R, Indicator(size, blocked))[k])
    {
      DotIndicator(R[k], blocked);
      if Support(R[k]) * blocked != {} {
        var c :| c in Support(R[k]) * blocked;
        assert !(Support(R[k]) !! blocked);
      } else {
        forall c | c in Support(R[k]) ensures c !in blocked {
          assert c !in Support(R[k]) * blocked;
        }
      }
    }
  }

  /** A count capped at 1. */
  function Min1(c: int): int
  {
    if c >= 1 then 1 else c
  }

  /** compute_initial_visibility: `B = R @ G` for the boolean blocked grid
      flattened row-major, and `V_flat[k] == (B[k] == 0)`. */
  method ComputeInitialVisibility(n: nat, blocked: seq<Cell>) returns (R: seq<seq<bool>>, vFlat: seq<bool>, B: seq<int>)
    requires n >= 2 && AllInGrid(blocked, n)
    ensures R == RayMatrix(n) && |R| == |B| == |vFlat| == n * n * (n * n - 1) / 2
    ensures forall k :: 0 <= k < |R| ==> |R[k]| == n * n
    ensures forall k :: 0 <= k < |B| ==> vFlat[k] == (B[k] == 0)
    ensures forall k :: 0 <= k < |B| ==> B[k] == |Support(R[k]) * BlockedFlat(n, blocked)|
    ensures forall k :: 0 <= k < |vFlat| ==> (vFlat[k] <==> Support(R[k]) !! BlockedFlat(n, blocked))
  {
    R := GenerateRayMatrix(n);
    var G := Indicator(n * n, BlockedFlat(n, blocked));
    B := MatVec(R, G);
    vFlat := seq(|B|, k requires 0 <= k < |B| => B[k] == 0);
    PairsCount(n * n);
    InitialCounts(R, vFlat, B, BlockedFlat(n, blocked), n * n);
  }
}
