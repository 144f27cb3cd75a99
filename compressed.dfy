/**
  The compressed line-of-sight index of compressed_visibility_matrix.py.  It
  keeps the set of blocked cells and, for every direction key (a step
  `(dx, dy)` reduced by its gcd), a bucket mapping blocker cells to a marker
  (the scan distance at which the blocker was found).  Queries scan one
  bucket with a sign-quadrant test and a Chebyshev-distance test; there is no
  collinearity test, so every blocker in a bucket counts for every line of
  that key.
 */
module CompressedVisibility {
  import opened Raycast

  datatype Option<T> = None | Some(value: T)

  // ---------------------------------------------------------------------
  // _get_line_key
  // ---------------------------------------------------------------------

  /** d divides a. */
  ghost predicate Divides(d: int, a: int)
  {
    exists q :: d * q == a
  }

  /** `np.gcd` on magnitudes, by Euclid's algorithm; always non-negative. */
  function Gcd(a: nat, b: nat): nat
    decreases b
  {
    if b == 0 then a else Gcd(b, a % b)
  }

  /** The step of Euclid's algorithm: a common divisor of b and a % b divides a,
      and a common divisor of a and b divides a % b. */
  lemma EuclidStep(a: nat, b: nat, d: int)
    requires b > 0
    ensures Divides(d, b) && Divides(d, a % b) ==> Divides(d, a)
    ensures Divides(d, a) && Divides(d, b) ==> Divides(d, a % b)
  {
    var q, r := a / b, a % b;
    DivModSplit(a, b);
    if Divides(d, b) && Divides(d, r) {
      var u :| d * u == b;
      var v :| d * v == r;
      CombineMultiples(d, u, v, q, a);
    }
    if Divides(d, a) && Divides(d, b) {
      var u :| d * u == a;
      var w :| d * w == b;
      CombineMultiples(d, w, u, -q, r);
    }
  }

  lemma DivModSplit(a: nat, b: nat)
    requires b > 0
    ensures a == b * (a / b) + a % b
  {
  }

  /** If a == (d*u)*q + d*v then d divides a. */
  lemma CombineMultiples(d: int, u: int, v: int, q: int, a: int)
    requires a == (d * u) * q + d * v
    ensures Divides(d, a)
  {
    Distrib(d, u, q, v);
    assert d * (u * q + v) == a;
  }

  lemma Distrib(d: int, u: int, q: int, v: int)
    ensures d * (u * q + v) == (d * u) * q + d * v
  {
  }

  /** Gcd(a, b) divides both arguments, and every common divisor divides it. */
  lemma {:induction false} GcdIsGreatest(a: nat, b: nat, d: int)
    ensures Divides(Gcd(a, b), a) && Divides(Gcd(a, b), b)
    ensures Divides(d, a) && Divides(d, b) ==> Divides(d, Gcd(a, b))
    decreases b
  {
    if b == 0 {
      assert Gcd(a, b) * 1 == a && Gcd(a, b) * 0 == b;
    } else {
      GcdIsGreatest(b, a % b, d);
      EuclidStep(a, b, Gcd(a, b));
      EuclidStep(a, b, d);
    }
  }

  /** A positive divisor of a positive number is at most that number. */
  lemma DividesBound(d: int, a: int)
    requires d > 0 && a > 0 && Divides(d, a)
    ensures d <= a
  {
    var q :| d * q == a;
    MulSign(d, q);
  }

  /** `_get_line_key`: the step reduced by `gcd(dx, dy)`, or `(0, 0)` unchanged.
      Python's `//` by the positive gcd is floor division, which is what
      Dafny's `/` is for a positive divisor. */
  function LineKey(dx: int, dy: int): Cell
  {
    var g := Gcd(Abs(dx), Abs(dy));
    if g != 0 then (dx / g, dy / g) else (dx, dy)
  }

  /** The gcd is zero only for the zero step. */
  lemma GcdZero(dx: int, dy: int)
    ensures Gcd(Abs(dx), Abs(dy)) == 0 <==> dx == 0 && dy == 0
  {
    var g := Gcd(Abs(dx), Abs(dy));
    GcdIsGreatest(Abs(dx), Abs(dy), 0);
    if g == 0 {
      var u: int :| g * u == Abs(dx);
      var v: int :| g * v == Abs(dy);
    }
  }

  /** A value divisible by d > 0 is d times its quotient. */
  lemma ExactQuotient(d: int, a: int)
    requires d > 0 && Divides(d, a)
    ensures a == d * (a / d)
  {
    var q :| d * q == a;
    var r := a / d;
    assert a == d * r + a % d;
    assert d * (q - r) == a % d by {
      assert d * (q - r) == d * q - d * r;
    }
    MulSign(d, q - r);
  }

  /** The key is the step divided exactly by the positive gcd, so it keeps
      the sign of each component and is zero exactly where the step is; the
      zero step is its own key; and a nonzero step's key is in lowest terms. */
  lemma LineKeySpec(dx: int, dy: int)
    ensures dx == 0 && dy == 0 ==> LineKey(dx, dy) == (0, 0)
    ensures (dx, dy) != (0, 0) ==>
      var g, k := Gcd(Abs(dx), Abs(dy)), LineKey(dx, dy);
      && g > 0 && dx == g * k.0 && dy == g * k.1
      && (k.0 > 0 <==> dx > 0) && (k.0 < 0 <==> dx < 0)
      && (k.1 > 0 <==> dy > 0) && (k.1 < 0 <==> dy < 0)
      && Gcd(Abs(k.0), Abs(k.1)) == 1
  {
    GcdZero(dx, dy);
    if (dx, dy) != (0, 0) {
      var g, k := Gcd(Abs(dx), Abs(dy)), LineKey(dx, dy);
      GcdIsGreatest(Abs(dx), Abs(dy), 0);
      var u: int :| g * u == Abs(dx);
      var v: int :| g * v == Abs(dy);
      assert Divides(g, dx) by {
        if dx < 0 { assert g * (-u) == dx; } else { assert g * u == dx; }
      }
      assert Divides(g, dy) by {
        if dy < 0 { assert g * (-v) == dy; } else { assert g * v == dy; }
      }
      ExactQuotient(g, dx);
      ExactQuotient(g, dy);
      SignOfMultiple(g, k.0, dx);
      SignOfMultiple(g, k.1, dy);
      ReducedIsCoprime(dx, dy, g, k);
    }
  }

  lemma SignOfMultiple(g: int, k: int, a: int)
    requires g > 0 && a == g * k
    ensures (k > 0 <==> a > 0) && (k < 0 <==> a < 0)
  {
    if k > 0 {
      assert g * k >= g * 1;
    } else if k < 0 {
      assert g * k <= g * -1;
    }
  }

  /** Dividing a nonzero step by its gcd leaves a pair whose gcd is 1:
      a common divisor h of the key gives the common divisor h * g of the
      step, which must divide g, so h is 1. */
  lemma ReducedIsCoprime(dx: int, dy: int, g: nat, k: Cell)
    requires (dx, dy) != (0, 0) && g == Gcd(Abs(dx), Abs(dy)) && g > 0
    requires dx == g * k.0 && dy == g * k.1
    ensures Gcd(Abs(k.0), Abs(k.1)) == 1
  {
    var h := Gcd(Abs(k.0), Abs(k.1));
    GcdIsGreatest(Abs(k.0), Abs(k.1), 0);
    assert k.0 == 0 ==> dx == 0;
    assert k.1 == 0 ==> dy == 0;
    GcdZero(k.0, k.1);
    DividesScaled(h, g, dx, k.0);
    DividesScaled(h, g, dy, k.1);
    GcdIsGreatest(Abs(dx), Abs(dy), h * g);
    PositiveProduct(h, g);
    DividesBound(h * g, g);
    MulSign(g, h);
  }

  /** Bounds on d * q for d > 0 by the sign and size of q. */
  lemma MulSign(d: int, q: int)
    requires d > 0
    ensures q <= 0 ==> d * q <= 0
    ensures q >= 1 ==> d * q >= d
    ensures q >= 2 ==> d * q >= 2 * d
    ensures q <= -1 ==> d * q <= -d
  {
    if q >= 1 {
      assert d * q == d + d * (q - 1);
    } else if q <= -1 {
      assert d * q == -d + d * (q + 1);
    }
  }

  lemma PositiveProduct(h: int, g: int)
    requires h > 0 && g > 0
    ensures h * g > 0
  {
  }

  /** If h divides |k| then h * g divides |g * k|. */
  lemma DividesScaled(h: int, g: int, a: int, k: int)
    requires g > 0 && a == g * k && Divides(h, Abs(k))
    ensures Divides(h * g, Abs(a))
  {
    var u :| h * u == Abs(k);
    AbsOfProduct(g, k);
    MulAssoc(h, g, u);
    assert (h * g) * u == Abs(a);
  }

  lemma MulAssoc(h: int, g: int, u: int)
    ensures (h * g) * u == g * (h * u)
  {
  }

  lemma AbsOfProduct(g: int, k: int)
    requires g > 0
    ensures Abs(g * k) == g * Abs(k)
  {
    if k < 0 {
      assert g * k == -(g * -k);
    }
  }

  // ---------------------------------------------------------------------
  // The index's abstract content
  // ---------------------------------------------------------------------

  type Buckets = map<Cell, map<Cell, int>>

  /** The keys of the steps `(dx, dy)` of _update_visibility's double loop up
      to (but excluding) step `(i, j)` in loop order, `(0, 0)` skipped. */
  function PartialKeys(n: int, i: int, j: int): set<Cell>
  {
    set dx: int, dy: int | 1 - n <= dx < n && 1 - n <= dy < n && (dx, dy) != (0, 0) &&
                           (dx < i || (dx == i && dy < j)) :: LineKey(dx, dy)
  }

  /** Every key _update_visibility visits: reduced steps with both components
      in `[-(N-1), N-1]`, other than `(0, 0)`. */
  function DirectionKeys(n: int): set<Cell>
  {
    set dx: int, dy: int | 1 - n <= dx < n && 1 - n <= dy < n && (dx, dy) != (0, 0) :: LineKey(dx, dy)
  }

  /** A `defaultdict(dict)` read: the bucket of key k, empty when absent. */
  function Bucket(d: Buckets, k: Cell): map<Cell, int>
  {
    if k in d then d[k] else map[]
  }

  /** The buckets after cell c was recorded with marker 0 under every key of keys. */
  function Register(d: Buckets, keys: set<Cell>, c: Cell): (r: Buckets)
    ensures r.Keys == d.Keys + keys
    ensures forall k :: k in keys ==> r[k] == Bucket(d, k)[c := 0]
    ensures forall k :: k in d && k !in keys ==> r[k] == d[k]
  {
    map k | k in d.Keys + keys :: if k in keys then Bucket(d, k)[c := 0] else d[k]
  }

  /** `visibility_data[line_key][(x, y)] = distance` for a scan result. */
  function Recorded(d: Buckets, key: Cell, c: Cell, found: Option<int>): Buckets
  {
    match found
    case None => d
    case Some(distance) => d[key := Bucket(d, key)[c := distance]]
  }

  /** The blocked cells that lie in the grid (the only ones that get recorded). */
  function InGridCells(n: int, blocked: set<Cell>): set<Cell>
  {
    set b | b in blocked && InGrid(b, n)
  }

  /** The buckets that a given blocked set determines: nothing while no
      blocked cell is in the grid, and otherwise every direction key holding
      every in-grid blocked cell with marker 0. */
  function Expected(n: int, blocked: set<Cell>): Buckets
  {
    if InGridCells(n, blocked) == {} then map[]
    else map k | k in DirectionKeys(n) :: ZeroMarkers(InGridCells(n, blocked))
  }

  /** A bucket holding each of the given cells with marker 0. */
  function ZeroMarkers(cells: set<Cell>): map<Cell, int>
  {
    map b | b in cells :: 0
  }

  /** Chebyshev length of a step: `max(abs(dx), abs(dy))`. */
  function Chebyshev(dx: int, dy: int): nat
  {
    if Abs(dx) <= Abs(dy) then Abs(dy) else Abs(dx)
  }

  /** is_visible's test of one entry: blocker b with marker m lies in the sign
      quadrant of the step `(dx, dy)` from `from`, no farther than the target
      in Chebyshev distance, and its marker is within that distance. */
  predicate Hit(b: Cell, m: int, from: Cell, dx: int, dy: int)
  {
    InQuadrant(b, from, dx, dy) && m <= Chebyshev(b.0 - from.0, b.1 - from.1)
  }

  /** The marker-free part of the test: sign quadrant and Chebyshev bound. */
  predicate InQuadrant(b: Cell, from: Cell, dx: int, dy: int)
  {
    && (b.0 - from.0) * dx >= 0 && (b.1 - from.1) * dy >= 0
    && Chebyshev(b.0 - from.0, b.1 - from.1) <= Chebyshev(dx, dy)
  }

  /** Some entry of the bucket of the query's key passes the test. */
  predicate Blocks(d: Buckets, from: Cell, to: Cell)
  {
    var dx, dy := to.0 - from.0, to.1 - from.1;
    var key := LineKey(dx, dy);
    key in d && exists b :: b in d[key] && Hit(b, d[key][b], from, dx, dy)
  }

  /** _update_line_of_sight's while loop from cursor (cx, cy) at distance
      dist: the distance of the first blocked cell met while the cursor stays
      in the grid, or None once it leaves. */
  function Scan(n: int, blocked: set<Cell>, cx: int, cy: int, dx: int, dy: int, dist: int): (r: Option<int>)
    requires (dx, dy) != (0, 0)
    ensures r.Some? ==> r.value >= dist
    decreases if dx > 0 then n - cx else if dx < 0 then cx + 1 else if dy > 0 then n - cy else cy + 1
  {
    if !(0 <= cx < n && 0 <= cy < n) then None
    else if (cx, cy) in blocked then Some(dist)
    else Scan(n, blocked, cx + dx, cy + dy, dx, dy, dist + 1)
  }

  /** The total number of entries over all buckets. */
  ghost function TotalEntries(d: Buckets): nat
    decreases |d|
  {
    if d == map[] then 0
    else
      var k :| k in d;
      |d[k]| + TotalEntries(d - {k})
  }

  // ---------------------------------------------------------------------
  // Lemmas about the abstract content
  // ---------------------------------------------------------------------

  /** A nonzero step never reduces to the key `(0, 0)`. */
  lemma LineKeyNonZero(dx: int, dy: int)
    requires (dx, dy) != (0, 0)
    ensures LineKey(dx, dy) != (0, 0)
  {
    LineKeySpec(dx, dy);
  }

  /** The cell t steps of `(dx, dy)` away from (cx, cy). */
  function Along(cx: int, cy: int, dx: int, dy: int, t: int): Cell
  {
    (cx + t * dx, cy + t * dy)
  }

  /** Stepping once and then t more times is stepping t + 1 times. */
  lemma AlongShift(cx: int, cy: int, dx: int, dy: int, t: int)
    ensures Along(cx + dx, cy + dy, dx, dy, t) == Along(cx, cy, dx, dy, t + 1)
  {
    assert (cx + dx) + t * dx == cx + (t + 1) * dx;
    assert (cy + dy) + t * dy == cy + (t + 1) * dy;
  }

  /** A scan from a cell outside the grid finds nothing; from a blocked
      in-grid cell it stops there at once. */
  lemma ScanStart(n: int, blocked: set<Cell>, cx: int, cy: int, dx: int, dy: int, dist: int)
    requires (dx, dy) != (0, 0)
    ensures !InGrid((cx, cy), n) ==> Scan(n, blocked, cx, cy, dx, dy, dist) == None
    ensures InGrid((cx, cy), n) && (cx, cy) in blocked ==> Scan(n, blocked, cx, cy, dx, dy, dist) == Some(dist)
  {
  }

  /** The loop of _update_line_of_sight stops at the first blocked cell: a
      found distance dist + s names an in-grid blocked cell s steps ahead,
      with every earlier cell in the grid and unblocked. */
  lemma {:induction false} ScanFirstBlocker(n: int, blocked: set<Cell>, cx: int, cy: int, dx: int, dy: int, dist: int)
    requires (dx, dy) != (0, 0)
    ensures Scan(n, blocked, cx, cy, dx, dy, dist).Some? ==>
      var s := Scan(n, blocked, cx, cy, dx, dy, dist).value - dist;
      && InGrid(Along(cx, cy, dx, dy, s), n) && Along(cx, cy, dx, dy, s) in blocked
      && forall t :: 0 <= t < s ==> InGrid(Along(cx, cy, dx, dy, t), n) && Along(cx, cy, dx, dy, t) !in blocked
    decreases if dx > 0 then n - cx else if dx < 0 then cx + 1 else if dy > 0 then n - cy else cy + 1
  {
    var r := Scan(n, blocked, cx, cy, dx, dy, dist);
    if r.Some? {
      var s := r.value - dist;
      if InGrid((cx, cy), n) && (cx, cy) !in blocked {
        ScanFirstBlocker(n, blocked, cx + dx, cy + dy, dx, dy, dist + 1);
        assert r == Scan(n, blocked, cx + dx, cy + dy, dx, dy, dist + 1);
        AlongShift(cx, cy, dx, dy, s - 1);
        forall t | 0 <= t < s
          ensures InGrid(Along(cx, cy, dx, dy, t), n) && Along(cx, cy, dx, dy, t) !in blocked
        {
          if t == 0 {
            assert Along(cx, cy, dx, dy, t) == (cx, cy);
          } else {
            AlongShift(cx, cy, dx, dy, t - 1);
          }
        }
      } else {
        assert s == 0 && Along(cx, cy, dx, dy, 0) == (cx, cy);
      }
    }
  }

  lemma PartialKeysStart(n: int)
    ensures PartialKeys(n, 1 - n, 1 - n) == {}
  {
  }

  /** One step of the inner loop adds the key of `(i, j)` unless it is `(0, 0)`. */
  lemma PartialKeysNext(n: int, i: int, j: int)
    requires 1 - n <= i < n && 1 - n <= j < n
    ensures PartialKeys(n, i, j + 1) == PartialKeys(n, i, j) + (if (i, j) == (0, 0) then {} else {LineKey(i, j)})
  {
    var lhs, rhs := PartialKeys(n, i, j + 1), PartialKeys(n, i, j) + (if (i, j) == (0, 0) then {} else {LineKey(i, j)});
    forall k | k in lhs ensures k in rhs {
      var dx, dy :| 1 - n <= dx < n && 1 - n <= dy < n && (dx, dy) != (0, 0) &&
                    (dx < i || (dx == i && dy < j + 1)) && k == LineKey(dx, dy);
      if dx < i || (dx == i && dy < j) {
        assert k in PartialKeys(n, i, j);
      }
    }
    forall k | k in rhs ensures k in lhs {
      if k in PartialKeys(n, i, j) {
        var dx, dy :| 1 - n <= dx < n && 1 - n <= dy < n && (dx, dy) != (0, 0) &&
                      (dx < i || (dx == i && dy < j)) && k == LineKey(dx, dy);
        assert k in lhs;
      } else {
        assert k == LineKey(i, j);
      }
    }
  }

  /** The end of one inner loop is the start of the next. */
  lemma PartialKeysRow(n: int, i: int)
    ensures PartialKeys(n, i, n) == PartialKeys(n, i + 1, 1 - n)
  {
    var lhs, rhs := PartialKeys(n, i, n), PartialKeys(n, i + 1, 1 - n);
    forall k | k in lhs ensures k in rhs {
      var dx, dy :| 1 - n <= dx < n && 1 - n <= dy < n && (dx, dy) != (0, 0) &&
                    (dx < i || (dx == i && dy < n)) && k == LineKey(dx, dy);
      assert k in rhs;
    }
    forall k | k in rhs ensures k in lhs {
      var dx, dy :| 1 - n <= dx < n && 1 - n <= dy < n && (dx, dy) != (0, 0) &&
                    (dx < i + 1 || (dx == i + 1 && dy < 1 - n)) && k == LineKey(dx, dy);
      assert k in lhs;
    }
  }

  /** Once the outer loop is past the last row, every direction key has been visited. */
  lemma PartialKeysAll(n: int, i: int, j: int)
    requires i >= n
    ensures PartialKeys(n, i, j) == DirectionKeys(n)
  {
  }

  /** The zero step is never a direction key. */
  lemma DirectionKeysNonZero(n: int)
    ensures (0, 0) !in DirectionKeys(n)
  {
    if (0, 0) in DirectionKeys(n) {
      var dx, dy :| 1 - n <= dx < n && 1 - n <= dy < n && (dx, dy) != (0, 0) && (0, 0) == LineKey(dx, dy);
      LineKeyNonZero(dx, dy);
    }
  }

  /** The step between two distinct in-grid cells has a direction key. */
  lemma StepHasDirectionKey(n: int, from: Cell, to: Cell)
    requires InGrid(from, n) && InGrid(to, n) && from != to
    ensures LineKey(to.0 - from.0, to.1 - from.1) in DirectionKeys(n)
  {
    var dx, dy := to.0 - from.0, to.1 - from.1;
    assert 1 - n <= dx < n && 1 - n <= dy < n && (dx, dy) != (0, 0);
  }

  /** Registering a cell under one more key is one more bucket write. */
  lemma RegisterAdd(d: Buckets, keys: set<Cell>, k: Cell, c: Cell)
    ensures Register(d, keys + {k}, c) == Register(d, keys, c)[k := Bucket(Register(d, keys, c), k)[c := 0]]
  {
    var r := Register(d, keys, c);
    var lhs, rhs := Register(d, keys + {k}, c), r[k := Bucket(r, k)[c := 0]];
    assert Bucket(r, k)[c := 0] == Bucket(d, k)[c := 0] by {
      if k in keys {
        assert Bucket(r, k) == Bucket(d, k)[c := 0];
      }
    }
    assert lhs.Keys == rhs.Keys;
    forall j | j in lhs ensures lhs[j] == rhs[j] {
    }
  }

  /** Recording a new cell under every direction key keeps the buckets equal
      to those the enlarged blocked set determines; an out-of-grid cell
      changes nothing. */
  lemma RegisterExpected(n: int, blocked: set<Cell>, c: Cell)
    ensures InGrid(c, n) ==> Register(Expected(n, blocked), DirectionKeys(n), c) == Expected(n, blocked + {c})
    ensures !InGrid(c, n) ==> Expected(n, blocked + {c}) == Expected(n, blocked)
  {
    var before, after := InGridCells(n, blocked), InGridCells(n, blocked + {c});
    if InGrid(c, n) {
      assert after == before + {c};
      ZeroMarkersAdd(before, c);
      var lhs, rhs := Register(Expected(n, blocked), DirectionKeys(n), c), Expected(n, blocked + {c});
      assert lhs.Keys == rhs.Keys;
      forall k | k in lhs ensures lhs[k] == rhs[k] {
        assert lhs[k] == Bucket(Expected(n, blocked), k)[c := 0];
      }
    } else {
      assert after == before;
    }
  }

  lemma ZeroMarkersAdd(cells: set<Cell>, c: Cell)
    ensures ZeroMarkers(cells + {c}) == ZeroMarkers(cells)[c := 0]
  {
  }

  /** The shape the constructor and every addition keep: the key `(0, 0)` is
      absent, every marker is 0, every entry is an in-grid blocked cell, and
      every in-grid blocked cell is in the bucket of every direction key. */
  lemma ExpectedShape(n: int, blocked: set<Cell>)
    ensures (0, 0) !in Expected(n, blocked)
    ensures Expected(n, blocked).Keys <= DirectionKeys(n)
    ensures forall k, b :: k in Expected(n, blocked) && b in Expected(n, blocked)[k] ==>
      Expected(n, blocked)[k][b] == 0 && b in blocked && InGrid(b, n)
    ensures forall k, b :: k in DirectionKeys(n) && b in blocked && InGrid(b, n) ==>
      k in Expected(n, blocked) && b in Expected(n, blocked)[k]
  {
    DirectionKeysNonZero(n);
    forall k, b | k in DirectionKeys(n) && b in blocked && InGrid(b, n)
      ensures k in Expected(n, blocked) && b in Expected(n, blocked)[k]
    {
      assert b in InGridCells(n, blocked);
    }
  }

  /** With the buckets a blocked set determines, a query between in-grid
      cells is blocked exactly when the cells differ and some in-grid blocked
      cell (either endpoint included, on the line or not) lies in the step's
      sign quadrant within the step's Chebyshev length. */
  lemma BlocksMeaning(n: int, blocked: set<Cell>, from: Cell, to: Cell)
    requires InGrid(from, n) && InGrid(to, n)
    ensures Blocks(Expected(n, blocked), from, to) <==>
      from != to &&
      exists b :: b in blocked && InGrid(b, n) && InQuadrant(b, from, to.0 - from.0, to.1 - from.1)
  {
    var d := Expected(n, blocked);
    var dx, dy := to.0 - from.0, to.1 - from.1;
    var key := LineKey(dx, dy);
    if from == to {
      assert key == (0, 0);
      DirectionKeysNonZero(n);
    } else {
      StepHasDirectionKey(n, from, to);
      if Blocks(d, from, to) {
        var b :| b in d[key] && Hit(b, d[key][b], from, dx, dy);
        ExpectedEntry(n, blocked, key, b);
      }
      if b :| b in blocked && InGrid(b, n) && InQuadrant(b, from, dx, dy) {
        ExpectedEntry(n, blocked, key, b);
        assert Hit(b, d[key][b], from, dx, dy);
      }
    }
  }

  /** One entry of the buckets a blocked set determines: an entry is an
      in-grid blocked cell with marker 0, and every in-grid blocked cell is an
      entry under every direction key. */
  lemma ExpectedEntry(n: int, blocked: set<Cell>, key: Cell, b: Cell)
    ensures key in Expected(n, blocked) && b in Expected(n, blocked)[key] ==>
      b in blocked && InGrid(b, n) && Expected(n, blocked)[key][b] == 0
    ensures key in DirectionKeys(n) && b in blocked && InGrid(b, n) ==>
      key in Expected(n, blocked) && b in Expected(n, blocked)[key] && Expected(n, blocked)[key][b] == 0
  {
    if b in blocked && InGrid(b, n) {
      assert b in InGridCells(n, blocked);
    }
  }

  /** A single-cell query is never blocked: its key `(0, 0)` is never stored. */
  lemma SelfVisible(n: int, blocked: set<Cell>, c: Cell)
    ensures !Blocks(Expected(n, blocked), c, c)
  {
    ExpectedShape(n, blocked);
    assert LineKey(0, 0) == (0, 0);
  }

  /** An empty index blocks nothing. */
  lemma EmptyVisible(n: int, from: Cell, to: Cell)
    ensures !Blocks(Expected(n, {}), from, to)
  {
    assert InGridCells(n, {}) == {};
  }

  /** Entries are never removed: a query blocked under a blocked set stays
      blocked under any larger one. */
  lemma BlocksMonotone(n: int, blocked: set<Cell>, more: set<Cell>, from: Cell, to: Cell)
    requires blocked <= more
    ensures Blocks(Expected(n, blocked), from, to) ==> Blocks(Expected(n, more), from, to)
  {
    var d1, d2 := Expected(n, blocked), Expected(n, more);
    var dx, dy := to.0 - from.0, to.1 - from.1;
    var key := LineKey(dx, dy);
    if Blocks(d1, from, to) {
      var b :| b in d1[key] && Hit(b, d1[key][b], from, dx, dy);
      assert b in InGridCells(n, blocked);
      assert b in InGridCells(n, more);
      assert key in d2 && b in d2[key] && d2[key][b] == 0;
    }
  }

  /** There is no collinearity test and the relation is not symmetric: on a
      3 x 3 grid with (0, 2) blocked, the query from (0, 0) to (2, 1) is
      blocked, but the query back from (2, 1) to (0, 0) is not. */
  lemma QueryAsymmetry()
    ensures Blocks(Expected(3, {(0, 2)}), (0, 0), (2, 1))
    ensures !Blocks(Expected(3, {(0, 2)}), (2, 1), (0, 0))
  {
    BlocksMeaning(3, {(0, 2)}, (0, 0), (2, 1));
    BlocksMeaning(3, {(0, 2)}, (2, 1), (0, 0));
    assert InQuadrant((0, 2), (0, 0), 2, 1);
    assert !InQuadrant((0, 2), (2, 1), -2, -1);
  }

  /** The buckets after _update_visibility from c has visited every step
      before `(i, j)`: c registered under the keys seen so far when c is in
      the grid, and nothing recorded otherwise. */
  function Visited(d0: Buckets, n: int, i: int, j: int, c: Cell): Buckets
  {
    if InGrid(c, n) then Register(d0, PartialKeys(n, i, j), c) else d0
  }

  lemma VisitedStart(d0: Buckets, n: int, c: Cell)
    ensures Visited(d0, n, 1 - n, 1 - n, c) == d0
  {
    PartialKeysStart(n);
    assert Register(d0, {}, c) == d0;
  }

  /** One scan of _update_visibility from a blocked cell c extends the
      registration by the key of the step `(i, j)`; the skipped step
      `(0, 0)` adds nothing. */
  lemma VisitStep(d0: Buckets, n: int, i: int, j: int, c: Cell, blocked: set<Cell>)
    requires 1 - n <= i < n && 1 - n <= j < n && c in blocked
    ensures (i, j) == (0, 0) ==> Visited(d0, n, i, j + 1, c) == Visited(d0, n, i, j, c)
    ensures (i, j) != (0, 0) ==>
      Recorded(Visited(d0, n, i, j, c), LineKey(i, j), c, Scan(n, blocked, c.0, c.1, i, j, 0)) ==
      Visited(d0, n, i, j + 1, c)
  {
    PartialKeysNext(n, i, j);
    if (i, j) != (0, 0) {
      ScanStart(n, blocked, c.0, c.1, i, j, 0);
      RegisterAdd(d0, PartialKeys(n, i, j), LineKey(i, j), c);
    }
  }

  lemma VisitedRow(d0: Buckets, n: int, i: int, c: Cell)
    ensures Visited(d0, n, i, n, c) == Visited(d0, n, i + 1, 1 - n, c)
  {
    PartialKeysRow(n, i);
  }

  lemma VisitedAll(d0: Buckets, n: int, i: int, c: Cell)
    requires i >= n
    ensures Visited(d0, n, i, 1 - n, c) == if InGrid(c, n) then Register(d0, DirectionKeys(n), c) else d0
  {
    PartialKeysAll(n, i, 1 - n);
  }

  /** _update_line_of_sight for the step `(i, j)` from c, skipping `(0, 0)`. */
  function ScanStep(d: Buckets, n: int, blocked: set<Cell>, i: int, j: int, c: Cell): Buckets
  {
    if (i, j) == (0, 0) then d else Recorded(d, LineKey(i, j), c, Scan(n, blocked, c.0, c.1, i, j, 0))
  }

  /** The buckets after the inner loop of _update_visibility for dx = i has
      run the steps dy = 1 - n .. j - 1 on top of d. */
  function RowScans(d: Buckets, n: int, blocked: set<Cell>, i: int, j: int, c: Cell): Buckets
    decreases j - (1 - n)
  {
    if j <= 1 - n then d else ScanStep(RowScans(d, n, blocked, i, j - 1, c), n, blocked, i, j - 1, c)
  }

  /** The buckets after the outer loop of _update_visibility has run the
      rows dx = 1 - n .. i - 1 on top of d0. */
  function AllScans(d0: Buckets, n: int, blocked: set<Cell>, i: int, c: Cell): Buckets
    decreases i - (1 - n)
  {
    if i <= 1 - n then d0 else RowScans(AllScans(d0, n, blocked, i - 1, c), n, blocked, i - 1, n, c)
  }

  lemma {:induction false} RowScansVisited(d0: Buckets, n: int, blocked: set<Cell>, i: int, j: int, c: Cell)
    requires 1 - n <= i < n && 1 - n <= j <= n && c in blocked
    ensures RowScans(Visited(d0, n, i, 1 - n, c), n, blocked, i, j, c) == Visited(d0, n, i, j, c)
    decreases j - (1 - n)
  {
    if j > 1 - n {
      RowScansVisited(d0, n, blocked, i, j - 1, c);
      VisitStep(d0, n, i, j - 1, c, blocked);
    }
  }

  lemma {:induction false} AllScansVisited(d0: Buckets, n: int, blocked: set<Cell>, i: int, c: Cell)
    requires 1 - n <= i && (i <= n || i == 1 - n) && c in blocked
    ensures AllScans(d0, n, blocked, i, c) == Visited(d0, n, i, 1 - n, c)
    decreases i - (1 - n)
  {
    if i <= 1 - n {
      VisitedStart(d0, n, c);
    } else {
      AllScansVisited(d0, n, blocked, i - 1, c);
      RowScansVisited(d0, n, blocked, i - 1, n, c);
      VisitedRow(d0, n, i - 1, c);
    }
  }

  /** The whole double loop of _update_visibility from a blocked cell c
      registers c under every direction key when c is in the grid, and
      records nothing otherwise. */
  lemma AllScansRegister(d0: Buckets, n: int, blocked: set<Cell>, i: int, c: Cell)
    requires c in blocked && i >= n && (i == n || i == 1 - n) && i >= 1 - n
    ensures AllScans(d0, n, blocked, i, c) == if InGrid(c, n) then Register(d0, DirectionKeys(n), c) else d0
  {
    AllScansVisited(d0, n, blocked, i, c);
    VisitedAll(d0, n, i, c);
  }

  /** The total does not depend on which bucket is taken first. */
  lemma TotalEntriesRemove(d: Buckets, k: Cell)
    requires k in d
    ensures TotalEntries(d) == |d[k]| + TotalEntries(d - {k})
    decreases |d|
  {
    var j :| j in d && TotalEntries(d) == |d[j]| + TotalEntries(d - {j});
    if j != k {
      assert (d - {j}) - {k} == (d - {k}) - {j};
      TotalEntriesRemove(d - {j}, k);
      TotalEntriesRemove(d - {k}, j);
    }
  }

  /** Buckets that all hold m entries hold m entries per key in total. */
  lemma {:induction false} TotalEntriesUniform(d: Buckets, m: nat)
    requires forall k :: k in d ==> |d[k]| == m
    ensures TotalEntries(d) == |d| * m
    decreases |d|
  {
    if d != map[] {
      var k :| k in d;
      var rest := d - {k};
      TotalEntriesRemove(d, k);
      TotalEntriesUniform(rest, m);
      assert |rest| + 1 == |d|;
      MulSucc(|rest|, m);
    }
  }

  lemma MulSucc(a: nat, m: nat)
    ensures (a + 1) * m == a * m + m
  {
  }

  /** The entries the buckets of a blocked set hold: one per in-grid blocked
      cell under each direction key, once some blocked cell is in the grid. */
  lemma ExpectedEntries(n: int, blocked: set<Cell>)
    ensures TotalEntries(Expected(n, blocked)) ==
      if InGridCells(n, blocked) == {} then 0 else |DirectionKeys(n)| * |InGridCells(n, blocked)|
  {
    var cells := InGridCells(n, blocked);
    if cells != {} {
      var d := Expected(n, blocked);
      assert ZeroMarkers(cells).Keys == cells;
      assert |ZeroMarkers(cells)| == |cells|;
      assert d.Keys == DirectionKeys(n);
      assert |d| == |DirectionKeys(n)|;
      TotalEntriesUniform(d, |cells|);
    }
  }

  // ---------------------------------------------------------------------
  // CompressedVisibilityMatrix
  // ---------------------------------------------------------------------

  /** The compressed index: blocked cells and direction-keyed buckets. */
  class CompressedVisibilityMatrix {
    const gridSize: int
    var blockedCells: set<Cell>
    var visibilityData: Buckets

    /** The buckets are those the blocked set determines. */
    ghost predicate Valid()
      reads this
    {
      visibilityData == Expected(gridSize, blockedCells)
    }

    /** __init__: no blocked cells, no buckets. */
    constructor (n: int)
      ensures Valid() && gridSize == n && blockedCells == {} && visibilityData == map[]
    {
      gridSize, blockedCells, visibilityData := n, {}, map[];
      new;
      assert InGridCells(n, {}) == {};
    }

    /** add_blocked_cell: a new cell joins the blocked set and is recorded
        under every direction key; a cell already blocked changes nothing. */
    method AddBlockedCell(x: int, y: int)
      requires Valid()
      modifies this
      ensures Valid()
      ensures blockedCells == old(blockedCells) + {(x, y)}
      ensures (x, y) in old(blockedCells) ==> visibilityData == old(visibilityData)
      ensures (x, y) !in old(blockedCells) ==>
        (visibilityData ==
         if InGrid((x, y), gridSize) then Register(old(visibilityData), DirectionKeys(gridSize), (x, y))
         else old(visibilityData))
    {
      if (x, y) !in blockedCells {
        blockedCells := blockedCells + {(x, y)};
        UpdateVisibility(x, y);
        RegisterExpected(gridSize, old(blockedCells), (x, y));
      }
    }

    /** _update_visibility: one line-of-sight scan from (x, y) for every step
        `(dx, dy)` in `[-(N-1), N-1]^2` except `(0, 0)`.  It is only called
        right after (x, y) joined the blocked set, so every scan that starts
        in the grid stops at once with distance 0. */
    method UpdateVisibility(x: int, y: int)
      requires (x, y) in blockedCells
      modifies this
      ensures blockedCells == old(blockedCells)
      ensures visibilityData ==
        if InGrid((x, y), gridSize) then Register(old(visibilityData), DirectionKeys(gridSize), (x, y))
        else old(visibilityData)
    {
      ghost var d0 := visibilityData;
      var dx := -gridSize + 1;
      while dx < gridSize
        invariant 1 - gridSize <= dx && (dx <= gridSize || dx == 1 - gridSize)
        invariant blockedCells == old(blockedCells)
        invariant visibilityData == AllScans(d0, gridSize, blockedCells, dx, (x, y))
      {
        ghost var before := visibilityData;
        var dy := -gridSize + 1;
        while dy < gridSize
          invariant 1 - gridSize <= dy <= gridSize
          invariant blockedCells == old(blockedCells)
          invariant visibilityData == RowScans(before, gridSize, blockedCells, dx, dy, (x, y))
        {
          if dx == 0 && dy == 0 {
            dy := dy + 1;
            continue;
          }
          UpdateLineOfSight(x, y, dx, dy);
          dy := dy + 1;
        }
        dx := dx + 1;
      }
      AllScansRegister(d0, gridSize, blockedCells, dx, (x, y));
    }

    /** _update_line_of_sight: walk from (x, y) by `(dx, dy)` while inside
        the grid; at the first blocked cell record its distance for (x, y)
        under the step's key and stop. */
    method UpdateLineOfSight(x: int, y: int, dx: int, dy: int)
      requires (dx, dy) != (0, 0)
      modifies this
      ensures blockedCells == old(blockedCells)
      ensures visibilityData ==
        Recorded(old(visibilityData), LineKey(dx, dy), (x, y), Scan(gridSize, blockedCells, x, y, dx, dy, 0))
    {
      var lineKey := LineKey(dx, dy);
      var currentX, currentY := x, y;
      var distance := 0;
      while 0 <= currentX < gridSize && 0 <= currentY < gridSize
        invariant blockedCells == old(blockedCells) && visibilityData == old(visibilityData)
        invariant Scan(gridSize, blockedCells, currentX, currentY, dx, dy, distance) ==
                  Scan(gridSize, blockedCells, x, y, dx, dy, 0)
        decreases if dx > 0 then gridSize - currentX else if dx < 0 then currentX + 1
                  else if dy > 0 then gridSize - currentY else currentY + 1
      {
        if (currentX, currentY) in blockedCells {
          visibilityData := visibilityData[lineKey := Bucket(visibilityData, lineKey)[(x, y) := distance]];
          return;
        }
        currentX := currentX + dx;
        currentY := currentY + dy;
        distance := distance + 1;
      }
    }

    /** is_visible: scan the bucket of the step's key; the query is false as
        soon as one entry passes the sign-quadrant and distance tests. */
    method IsVisible(fromX: int, fromY: int, toX: int, toY: int) returns (visible: bool)
      ensures visible == !Blocks(visibilityData, (fromX, fromY), (toX, toY))
      ensures Valid() && InGrid((fromX, fromY), gridSize) && InGrid((toX, toY), gridSize) ==>
        (visible <==> (fromX, fromY) == (toX, toY) ||
                      forall b :: b in blockedCells && InGrid(b, gridSize) ==>
                        !InQuadrant(b, (fromX, fromY), toX - fromX, toY - fromY))
    {
      if InGrid((fromX, fromY), gridSize) && InGrid((toX, toY), gridSize) {
        BlocksMeaning(gridSize, blockedCells, (fromX, fromY), (toX, toY));
      }
      var dx := toX - fromX;
      var dy := toY - fromY;
      var lineKey := LineKey(dx, dy);
      var distance := Chebyshev(dx, dy);
      if lineKey in visibilityData {
        var bucket := visibilityData[lineKey];
        var remaining := bucket.Keys;
        while remaining != {}
          invariant remaining <= bucket.Keys
          invariant forall b :: b in bucket && b !in remaining ==> !Hit(b, bucket[b], (fromX, fromY), dx, dy)
          decreases |remaining|
        {
          var b :| b in remaining;
          if (b.0 - fromX) * dx >= 0 && (b.1 - fromY) * dy >= 0 {
            var relativeDistance := Chebyshev(b.0 - fromX, b.1 - fromY);
            if relativeDistance <= distance && bucket[b] <= relativeDistance {
              assert Hit(b, bucket[b], (fromX, fromY), dx, dy);
              return false;
            }
          }
          remaining := remaining - {b};
        }
      }
      return true;
    }

    /** The integer numerator of get_memory_usage: 16 bytes per blocked cell
        and 16 per bucket entry; for a valid index, one entry per in-grid
        blocked cell under each direction key. */
    method MemoryUsageBytes() returns (bytes: int)
      ensures bytes == 16 * (|blockedCells| + TotalEntries(visibilityData))
      ensures Valid() ==>
        (bytes == 16 * (|blockedCells| +
                        if InGridCells(gridSize, blockedCells) == {} then 0
                        else |DirectionKeys(gridSize)| * |InGridCells(gridSize, blockedCells)|))
    {
      var blockedCellsMemory := |blockedCells| * 16;
      var visibilityDataMemory := 0;
      var remaining := visibilityData;
      while remaining != map[]
        invariant TotalEntries(visibilityData) == visibilityDataMemory / 16 + TotalEntries(remaining)
        invariant visibilityDataMemory % 16 == 0
        decreases |remaining|
      {
        var k :| k in remaining;
        TotalEntriesRemove(remaining, k);
        visibilityDataMemory := visibilityDataMemory + 16 * |remaining[k]|;
        remaining := remaining - {k};
      }
      bytes := blockedCellsMemory + visibilityDataMemory;
      ExpectedEntries(gridSize, blockedCells);
    }
  }

  /** The asymmetric pair of queries, on the class: a fresh 3 x 3 index with
      (0, 2) added reports (0, 0) -> (2, 1) hidden and (2, 1) -> (0, 0) visible. */
  method AsymmetryScenario() returns (forward: bool, backward: bool)
    ensures !forward && backward
  {
    var index := new CompressedVisibilityMatrix(3);
    index.AddBlockedCell(0, 2);
    forward := index.IsVisible(0, 0, 2, 1);
    backward := index.IsVisible(2, 1, 0, 0);
    QueryAsymmetry();
  }
}
