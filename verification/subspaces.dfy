/** Vector arithmetic shared by both quantizers: the squared Euclidean
    distance, the contiguous slice that one subspace covers, the shape of a
    codebook, and the nearest-centroid search Eigen's `minCoeff` performs.
    Every float of the source is a `real` here. */
module Subspaces {

  /** A vector: one float per dimension. */
  type Vector = seq<real>

  /** A row-major matrix; a codebook holds one centroid per row. */
  type Matrix = seq<Vector>

  /** One element of a code: `uint8_t`. */
  type Byte = x: int | 0 <= x < 256

  /** Squared Euclidean distance `(a - b).squaredNorm()`. It sums over the
      components the two vectors share; every caller passes vectors of equal
      length, as Eigen requires. */
  function SqDist(a: Vector, b: Vector): (r: real)
    ensures r >= 0.0
  {
    if |a| == 0 || |b| == 0 then 0.0
    else (a[0] - b[0]) * (a[0] - b[0]) + SqDist(a[1..], b[1..])
  }

  lemma {:induction false} SqDistSymmetric(a: Vector, b: Vector)
    ensures SqDist(a, b) == SqDist(b, a)
  {
    if |a| != 0 && |b| != 0 {
      SqDistSymmetric(a[1..], b[1..]);
    }
  }

  lemma {:induction false} SqDistSelf(a: Vector)
    ensures SqDist(a, a) == 0.0
  {
    if |a| != 0 {
      SqDistSelf(a[1..]);
    }
  }

  /** Subspace `i` of `v` when each subspace has `d` dimensions:
      `v.segment(i * d, d)`. */
  function Slice(v: Vector, i: nat, d: nat): (r: Vector)
    requires (i + 1) * d <= |v|
    ensures |r| == d
  {
    v[i * d .. (i + 1) * d]
  }

  /** Slice `i` of `m` lies inside a vector of at least `m * d` components. */
  lemma SliceFits(i: nat, m: nat, d: nat, n: nat)
    requires i < m && m * d <= n
    ensures (i + 1) * d <= n
  {
  }

  /** All `m` subspaces of `v`, slice `i` being `Slice(v, i, d)`. */
  function Split(v: Vector, m: nat, d: nat): (parts: seq<Vector>)
    requires m * d <= |v|
    ensures |parts| == m
    ensures forall i :: 0 <= i < m ==> |parts[i]| == d
  {
    seq(m, i requires 0 <= i < m => Slice(v, i, d))
  }

  /** Exchanging two positions of a sequence keeps its elements. */
  lemma SwapPermutes<T>(s: seq<T>, p: nat, m: nat)
    requires p < |s| && m < |s|
    ensures multiset(s[p := s[m]][m := s[p]]) == multiset(s)
  {
  }

  /** Every row of `cb` is a `cols`-vector and there are `rows` of them. */
  ghost predicate Shaped(cb: Matrix, rows: nat, cols: nat) {
    |cb| == rows && forall r :: 0 <= r < |cb| ==> |cb[r]| == cols
  }

  /** Row `m` of `cb` is a centroid nearest to `x` (not necessarily the only one). */
  ghost predicate IsNearest(cb: Matrix, x: Vector, m: nat) {
    m < |cb| && forall j :: 0 <= j < |cb| ==> SqDist(cb[m], x) <= SqDist(cb[j], x)
  }

  /** `(cb.rowwise() - x.transpose()).rowwise().squaredNorm().minCoeff(&m)`:
      the index of some row of `cb` at least as close to `x` as every other. */
  method ArgMinRow(cb: Matrix, x: Vector) returns (m: nat)
    requires |cb| > 0
    ensures IsNearest(cb, x, m)
  {
    m := 0;
    var best := SqDist(cb[0], x);
    var j := 1;
    while j < |cb|
      invariant 1 <= j <= |cb|
      invariant m < j && best == SqDist(cb[m], x)
      invariant forall t :: 0 <= t < j ==> best <= SqDist(cb[t], x)
    {
      var dist := SqDist(cb[j], x);
      if dist < best {
        m, best := j, dist;
      }
      j := j + 1;
    }
  }
}
