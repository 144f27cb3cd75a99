/**
  The mathematical meaning of the sparse-matrix operations the dense engine
  uses.  A matrix row is a boolean mask over flattened cell indices (the row
  of a ray matrix); a column vector is a sequence of integers.  `R @ v` is,
  for each row, the sum of `v` over the row's true entries.
 */
module Matrix {

  /** The set of column indices at which a row is true (its sparse view). */
  function Support(row: seq<bool>): set<int>
  {
    set k | 0 <= k < |row| && row[k]
  }

  /** Sum of v[c] over the first k columns c at which the row is true. */
  function DotUpTo(row: seq<bool>, v: seq<int>, k: nat): int
    requires k <= |row| == |v|
  {
    if k == 0 then 0
    else DotUpTo(row, v, k - 1) + (if row[k - 1] then v[k - 1] else 0)
  }

  /** One entry of `R @ v`: the sum of v over the row's support. */
  function Dot(row: seq<bool>, v: seq<int>): int
    requires |row| == |v|
  {
    DotUpTo(row, v, |row|)
  }

  /** Every row of R has as many columns as v has entries. */
  predicate Conformable(R: seq<seq<bool>>, v: seq<int>)
  {
    forall k :: 0 <= k < |R| ==> |R[k]| == |v|
  }

  /** The matrix-vector product `R @ v`. */
  function MatVec(R: seq<seq<bool>>, v: seq<int>): seq<int>
    requires Conformable(R, v)
  {
    seq(|R|, k requires 0 <= k < |R| => Dot(R[k], v))
  }

  /** Entrywise sum of two vectors (`B += ...`). */
  function AddVec(u: seq<int>, v: seq<int>): seq<int>
    requires |u| == |v|
  {
    seq(|u|, k requires 0 <= k < |u| => u[k] + v[k])
  }

  /** The 0/1 column vector of a set of flattened indices. */
  function Indicator(size: nat, s: set<int>): seq<int>
  {
    seq(size, c => if c in s then 1 else 0)
  }

  predicate NonNegative(v: seq<int>)
  {
    forall c :: 0 <= c < |v| ==> v[c] >= 0
  }

  predicate AllZero(v: seq<int>)
  {
    forall c :: 0 <= c < |v| ==> v[c] == 0
  }

  /** Linearity of one product entry in the vector. */
  lemma {:induction false} DotUpToAdd(row: seq<bool>, u: seq<int>, v: seq<int>, k: nat)
    requires k <= |row| == |u| == |v|
    ensures DotUpTo(row, AddVec(u, v), k) == DotUpTo(row, u, k) + DotUpTo(row, v, k)
  {
    if k > 0 {
      DotUpToAdd(row, u, v, k - 1);
    }
  }

  /** `R @ (u + v) == R @ u + R @ v`: the product is linear in the vector. */
  lemma MatVecAdd(R: seq<seq<bool>>, u: seq<int>, v: seq<int>)
    requires |u| == |v| && Conformable(R, u)
    ensures Conformable(R, v) && Conformable(R, AddVec(u, v))
    ensures MatVec(R, AddVec(u, v)) == AddVec(MatVec(R, u), MatVec(R, v))
  {
    forall k | 0 <= k < |R|
      ensures MatVec(R, AddVec(u, v))[k] == AddVec(MatVec(R, u), MatVec(R, v))[k]
    {
      DotUpToAdd(R[k], u, v, |u|);
    }
  }

  lemma {:induction false} DotUpToZero(row: seq<bool>, v: seq<int>, k: nat)
    requires k <= |row| == |v| && AllZero(v)
    ensures DotUpTo(row, v, k) == 0
  {
    if k > 0 {
      DotUpToZero(row, v, k - 1);
    }
  }

  /** The product with an all-zero vector is all zero, so adding it changes nothing. */
  lemma MatVecZero(R: seq<seq<bool>>, v: seq<int>)
    requires Conformable(R, v) && AllZero(v)
    ensures AllZero(MatVec(R, v))
  {
    forall k | 0 <= k < |R| ensures MatVec(R, v)[k] == 0 {
      DotUpToZero(R[k], v, |v|);
    }
  }

  /** With a non-negative vector, each partial sum is at least each of its terms. */
  lemma {:induction false} DotUpToAtLeast(row: seq<bool>, v: seq<int>, k: nat, c: int)
    requires k <= |row| == |v| && NonNegative(v)
    ensures DotUpTo(row, v, k) >= 0
    ensures 0 <= c < k && row[c] ==> DotUpTo(row, v, k) >= v[c]
  {
    if k > 0 {
      DotUpToAtLeast(row, v, k - 1, c);
    }
  }

  /** For a non-negative vector, the sum over a row is zero exactly when v
      vanishes on the row's whole support. */
  lemma {:induction false} DotUpToZeroIff(row: seq<bool>, v: seq<int>, k: nat)
    requires k <= |row| == |v| && NonNegative(v)
    ensures DotUpTo(row, v, k) == 0 <==> forall c :: 0 <= c < k && row[c] ==> v[c] == 0
  {
    if k > 0 {
      DotUpToZeroIff(row, v, k - 1);
      DotUpToAtLeast(row, v, k - 1, 0);
    }
  }

  lemma DotZeroIff(row: seq<bool>, v: seq<int>)
    requires |row| == |v| && NonNegative(v)
    ensures Dot(row, v) == 0 <==> forall c :: 0 <= c < |row| && row[c] ==> v[c] == 0
  {
    DotUpToZeroIff(row, v, |row|);
  }

  /** Against a 0/1 indicator vector, the sum over a row counts the distinct
      indices of the set that the row marks. */
  lemma {:induction false} DotUpToIndicator(row: seq<bool>, s: set<int>, k: nat)
    requires k <= |row|
    ensures DotUpTo(row, Indicator(|row|, s), k) == |set c | 0 <= c < k && row[c] && c in s|
  {
    if k > 0 {
      DotUpToIndicator(row, s, k - 1);
      var before := set c | 0 <= c < k - 1 && row[c] && c in s;
      var after := set c | 0 <= c < k && row[c] && c in s;
      if row[k - 1] && k - 1 in s {
        assert after == before + {k - 1};
      } else {
        assert after == before;
      }
    }
  }

  lemma DotIndicator(row: seq<bool>, s: set<int>)
    ensures Dot(row, Indicator(|row|, s)) == |Support(row) * s|
  {
    DotUpToIndicator(row, s, |row|);
    assert (set c | 0 <= c < |row| && row[c] && c in s) == Support(row) * s;
  }
}
