/** The product quantizer of PQ.cpp: `subspaceNum` codebooks of `clusterNum`
    centroids over slices of `subDim = 128 / subspaceNum` dimensions, the
    per-subspace centroid-pair distance table, encoding by nearest centroid,
    and top-k search over centroid indices. */
module ProductQuantizer {
  import opened Subspaces

  /** The vector dimension the constructor divides among the subspaces. */
  const Dimension: nat := 128

  /** The first `m` codebooks of `cbs` exist and are `k × d`. */
  ghost predicate HasCodebooks(cbs: seq<Matrix>, m: nat, k: nat, d: nat) {
    |cbs| >= m && forall i :: 0 <= i < m ==> Shaped(cbs[i], k, d)
  }

  /** The squared distances between every pair of centroids of one codebook. */
  function PairTable(cb: Matrix): Matrix {
    seq(|cb|, j requires 0 <= j < |cb| =>
      seq(|cb|, k requires 0 <= k < |cb| => SqDist(cb[j], cb[k])))
  }

  /** A pair table is a square, symmetric, non-negative matrix with a zero diagonal. */
  lemma PairTableIsDistanceMatrix(cb: Matrix)
    ensures Shaped(PairTable(cb), |cb|, |cb|)
    ensures forall j, k :: 0 <= j < |cb| && 0 <= k < |cb| ==>
      PairTable(cb)[j][k] == PairTable(cb)[k][j] && PairTable(cb)[j][k] >= 0.0
    ensures forall j :: 0 <= j < |cb| ==> PairTable(cb)[j][j] == 0.0
  {
    forall j, k | 0 <= j < |cb| && 0 <= k < |cb|
      ensures PairTable(cb)[j][k] == PairTable(cb)[k][j]
    {
      SqDistSymmetric(cb[j], cb[k]);
    }
    forall j | 0 <= j < |cb|
      ensures PairTable(cb)[j][j] == 0.0
    {
      SqDistSelf(cb[j]);
    }
  }

  /** The distance `search` accumulates for centroid index `j` over the first
      `m` subspaces: the sum of the squared distances from query slice `i`
      (`parts[i]`) to row `j` of codebook `i`. */
  function Score(cbs: seq<Matrix>, parts: seq<Vector>, j: nat, m: nat): (r: real)
    requires m <= |cbs| && m <= |parts|
    requires forall i :: 0 <= i < m ==> j < |cbs[i]|
    ensures r >= 0.0
  {
    if m == 0 then 0.0
    else Score(cbs, parts, j, m - 1) + SqDist(cbs[m - 1][j], parts[m - 1])
  }

  /** `dists` of `search`: one score per centroid index. */
  function CentroidScores(cbs: seq<Matrix>, q: Vector, m: nat, k: nat, d: nat): (ds: seq<real>)
    requires HasCodebooks(cbs, m, k, d) && m * d <= |q|
    ensures |ds| == k
  {
    var parts := Split(q, m, d);
    seq(k, j requires 0 <= j < k => Score(cbs, parts, j, m))
  }

  /** `r` is a valid outcome of `partial_sort` followed by taking the first `k`
      indices: `k` distinct indices of `ds`, in non-decreasing `ds` order, and
      no index left out has a smaller value than one taken. */
  ghost predicate IsTopK(ds: seq<real>, k: nat, r: seq<nat>) {
    |r| == k &&
    (forall t :: 0 <= t < k ==> r[t] < |ds|) &&
    (forall s, t :: 0 <= s < t < k ==> r[s] != r[t]) &&
    (forall s, t :: 0 <= s < t < k ==> ds[r[s]] <= ds[r[t]]) &&
    (forall j, t :: 0 <= j < |ds| && j !in r && 0 <= t < k ==> ds[r[t]] <= ds[j])
  }

  /** `b` is what `static_cast<uint8_t>` makes of the index of some
      centroid of `cb` nearest to `x`. */
  ghost predicate IsCodeByte(cb: Matrix, x: Vector, b: Byte) {
    exists c: nat :: IsNearest(cb, x, c) && b == c % 256
  }

  /** `code` is an `m`-byte code of `v`: byte `i` is a code byte for slice
      `i` of `v` and codebook `i`. */
  ghost predicate IsCode(cbs: seq<Matrix>, v: Vector, m: nat, d: nat, code: seq<Byte>)
    requires m <= |cbs| && m * d <= |v|
  {
    var parts := Split(v, m, d);
    |code| == m && forall i :: 0 <= i < m ==> IsCodeByte(cbs[i], parts[i], code[i])
  }

  lemma {:induction false} ScoreIgnoresLaterCodebooks(cbs: seq<Matrix>, extra: seq<Matrix>, parts: seq<Vector>, j: nat, m: nat)
    requires m <= |cbs| && m <= |parts|
    requires forall i :: 0 <= i < m ==> j < |cbs[i]|
    ensures Score(cbs + extra, parts, j, m) == Score(cbs, parts, j, m)
  {
    if m > 0 {
      ScoreIgnoresLaterCodebooks(cbs, extra, parts, j, m - 1);
      assert (cbs + extra)[m - 1] == cbs[m - 1];
    }
  }

  /** Codebooks appended by a later `train` do not change what `search` scores. */
  lemma RetrainKeepsScores(cbs: seq<Matrix>, extra: seq<Matrix>, q: Vector, m: nat, k: nat, d: nat)
    requires HasCodebooks(cbs, m, k, d) && m * d <= |q|
    ensures HasCodebooks(cbs + extra, m, k, d)
    ensures CentroidScores(cbs + extra, q, m, k, d) == CentroidScores(cbs, q, m, k, d)
  {
    assert forall i :: 0 <= i < m ==> (cbs + extra)[i] == cbs[i];
    var parts := Split(q, m, d);
    forall j | 0 <= j < k
      ensures Score(cbs + extra, parts, j, m) == Score(cbs, parts, j, m)
    {
      ScoreIgnoresLaterCodebooks(cbs, extra, parts, j, m);
    }
  }

  /** Codebooks appended by a later `train` do not change which codes `encode` may produce. */
  lemma RetrainKeepsCodes(cbs: seq<Matrix>, extra: seq<Matrix>, v: Vector, m: nat, d: nat, code: seq<Byte>)
    requires m <= |cbs| && m * d <= |v|
    ensures IsCode(cbs + extra, v, m, d, code) == IsCode(cbs, v, m, d, code)
  {
    forall i | 0 <= i < m
      ensures IsCodeByte((cbs + extra)[i], Split(v, m, d)[i], if i < |code| then code[i] else 0)
          == IsCodeByte(cbs[i], Split(v, m, d)[i], if i < |code| then code[i] else 0)
    {
      assert (cbs + extra)[i] == cbs[i];
    }
  }

  /** The state `partial_sort` has reached after placing `p` indices: all of
      `s` index `keys` and are distinct, `s[..p]` is in key order, and no
      key in `s[..p]` exceeds one in `s[p..]`. */
  ghost predicate SelectedUpTo(s: seq<nat>, keys: seq<real>, p: nat) {
    p <= |s| &&
    (forall x :: 0 <= x < |s| ==> s[x] < |keys|) &&
    (forall x, y :: 0 <= x < y < |s| ==> s[x] != s[y]) &&
    (forall x, y :: 0 <= x < y < p ==> keys[s[x]] <= keys[s[y]]) &&
    (forall x, y :: 0 <= x < p <= y < |s| ==> keys[s[x]] <= keys[s[y]])
  }

  /** Swapping a smallest remaining index into position `p` extends the
      selected prefix by one and keeps the contents. */
  lemma SelectStep(s: seq<nat>, keys: seq<real>, p: nat, m: nat)
    requires SelectedUpTo(s, keys, p) && p <= m < |s|
    requires forall z :: p <= z < |s| ==> keys[s[m]] <= keys[s[z]]
    ensures SelectedUpTo(s[p := s[m]][m := s[p]], keys, p + 1)
    ensures multiset(s[p := s[m]][m := s[p]]) == multiset(s)
  {
    SwapPermutes(s, p, m);
    var t := s[p := s[m]][m := s[p]];
    assert forall z :: 0 <= z < |s| && z != p && z != m ==> t[z] == s[z];
    assert t[p] == s[m] && t[m] == s[p];
  }

  /** The position in `a[p..]` of an index with the smallest key. */
  method MinFrom(a: array<nat>, keys: seq<real>, p: nat) returns (m: nat)
    requires p < a.Length
    requires forall x :: 0 <= x < a.Length ==> a[x] < |keys|
    ensures p <= m < a.Length
    ensures forall z :: p <= z < a.Length ==> keys[a[m]] <= keys[a[z]]
  {
    m := p;
    var y := p + 1;
    while y < a.Length
      invariant p <= m < a.Length && p < y <= a.Length
      invariant forall z :: p <= z < y ==> keys[a[m]] <= keys[a[z]]
    {
      if keys[a[y]] < keys[a[m]] {
        m := y;
      }
      y := y + 1;
    }
  }

  /** `std::partial_sort(a.begin(), a.begin() + k, a.end(), cmp)` with
      `cmp(x, y) = keys[x] < keys[y]`: the first `k` positions receive the
      `k` smallest indices in order, the rest follow in some order. */
  method PartialSort(a: array<nat>, keys: seq<real>, k: nat)
    requires k <= a.Length
    requires SelectedUpTo(a[..], keys, 0)
    modifies a
    ensures multiset(a[..]) == multiset(old(a[..]))
    ensures SelectedUpTo(a[..], keys, k)
  {
    var p := 0;
    while p < k
      invariant 0 <= p <= k
      invariant multiset(a[..]) == multiset(old(a[..]))
      invariant SelectedUpTo(a[..], keys, p)
    {
      var m := MinFrom(a, keys, p);
      ghost var s := a[..];
      SelectStep(s, keys, p, m);
      a[p], a[m] := a[m], a[p];
      assert a[..] == s[p := s[m]][m := s[p]];
      p := p + 1;
    }
  }

  /** A permutation of `0..|keys|` whose first `k` entries are ordered and no
      larger than the rest yields a valid top-`k` selection. */
  lemma TopKOfPermutation(keys: seq<real>, a: seq<nat>, k: nat)
    requires |a| == |keys| && k <= |a|
    requires multiset(a) == multiset(seq(|keys|, t => t))
    requires SelectedUpTo(a, keys, k)
    ensures IsTopK(keys, k, a[..k])
  {
    var r := a[..k];
    forall j, t | 0 <= j < |keys| && j !in r && 0 <= t < k
      ensures keys[r[t]] <= keys[j]
    {
      var iota := seq(|keys|, t => t);
      assert iota[j] == j;
      assert j in multiset(a);
      var y :| 0 <= y < |a| && a[y] == j;
      assert y >= k;
    }
  }

  /** The end of `search`: `iota` fills an index array, `partial_sort`
      orders its first `k` entries by `dists`, and those `k` are returned. */
  method SmallestIndices(dists: seq<real>, k: nat) returns (r: seq<nat>)
    requires k <= |dists|
    ensures IsTopK(dists, k, r)
  {
    var indices := new nat[|dists|](t => t);
    assert indices[..] == seq(|dists|, t => t);
    PartialSort(indices, dists, k);
    TopKOfPermutation(dists, indices[..], k);
    r := indices[..k];
  }

  /** The `PQ` class of PQ.cpp. The three sizes never change after
      construction; `codebooks` and `distanceTable` are updated by `Train`. */
  class PQ {
    const subspaceNum: nat
    const clusterNum: nat
    const subDim: nat
    var codebooks: seq<Matrix>
    var distanceTable: map<nat, Matrix>

    /** Every codebook is `clusterNum × subDim`, and every table entry is
        the pair table of the codebook with the same index. */
    ghost predicate Valid()
      reads this
    {
      subspaceNum > 0 && subDim == Dimension / subspaceNum &&
      (forall i :: 0 <= i < |codebooks| ==> Shaped(codebooks[i], clusterNum, subDim)) &&
      (forall i :: i in distanceTable ==>
        i < subspaceNum && i < |codebooks| && distanceTable[i] == PairTable(codebooks[i]))
    }

    /** `train` has run at least once. */
    ghost predicate Trained()
      reads this
    {
      |codebooks| >= subspaceNum && forall i :: 0 <= i < subspaceNum ==> i in distanceTable
    }

    /** `PQ(subspace_num = 8, cluster_num = 256)`. */
    constructor(subspaceNum: nat := 8, clusterNum: nat := 256)
      requires subspaceNum > 0
      ensures Valid()
      ensures this.subspaceNum == subspaceNum && this.clusterNum == clusterNum
      ensures subDim == Dimension / subspaceNum
      ensures codebooks == [] && distanceTable == map[]
    {
      this.subspaceNum := subspaceNum;
      this.clusterNum := clusterNum;
      this.subDim := Dimension / subspaceNum;
      codebooks := [];
      distanceTable := map[];
    }

    /** `train`: appends one codebook per subspace (the `initial` matrices
        stand for what `setRandom()` produces) and rebuilds the table. */
    method Train(items: seq<Vector>, initial: seq<Matrix>)
      requires Valid()
      requires |initial| == subspaceNum
      requires forall i :: 0 <= i < |initial| ==> Shaped(initial[i], clusterNum, subDim)
      modifies this
      ensures Valid() && Trained()
      ensures codebooks == old(codebooks) + initial
      ensures forall i: nat :: i in distanceTable <==> i < subspaceNum
    {
      var i := 0;
      while i < subspaceNum
        invariant 0 <= i <= subspaceNum
        invariant codebooks == old(codebooks) + initial[..i]
        invariant distanceTable == old(distanceTable)
        invariant Valid()
      {
        codebooks := codebooks + [initial[i]];
        i := i + 1;
      }
      assert initial[..i] == initial;
      BuildDistanceTable();
    }

    /** `build_distance_table`: entry `i` becomes the pair table of codebook
        `i`, for every subspace. */
    method BuildDistanceTable()
      requires Valid() && |codebooks| >= subspaceNum
      modifies this`distanceTable
      ensures Valid() && Trained()
      ensures forall i: nat :: i in distanceTable <==> i < subspaceNum
    {
      var i := 0;
      while i < subspaceNum
        invariant 0 <= i <= subspaceNum
        invariant Valid()
        invariant forall key: nat :: key in distanceTable <==> key in old(distanceTable) || key < i
      {
        var value := DistanceMatrix(codebooks[i], clusterNum);
        distanceTable := distanceTable[i := value];
        i := i + 1;
      }
    }

    /** The nested loops of `build_distance_table` for one codebook: cell
        `(j, k)` of the `clusterNum × clusterNum` table is the squared distance
        between centroids `j` and `k`. */
    static method DistanceMatrix(cb: Matrix, clusterNum: nat) returns (value: Matrix)
      requires |cb| == clusterNum
      ensures value == PairTable(cb)
    {
      var table := new real[clusterNum, clusterNum];
      var j := 0;
      while j < clusterNum
        invariant 0 <= j <= clusterNum
        invariant forall r, c :: 0 <= r < j && 0 <= c < clusterNum ==> table[r, c] == SqDist(cb[r], cb[c])
      {
        var k := 0;
        while k < clusterNum
          invariant 0 <= k <= clusterNum
          invariant forall r, c :: 0 <= r < j && 0 <= c < clusterNum ==> table[r, c] == SqDist(cb[r], cb[c])
          invariant forall c :: 0 <= c < k ==> table[j, c] == SqDist(cb[j], cb[c])
        {
          table[j, k] := SqDist(cb[j], cb[k]);
          k := k + 1;
        }
        j := j + 1;
      }
      value := seq(clusterNum, r requires 0 <= r < clusterNum reads table =>
        seq(clusterNum, c requires 0 <= c < clusterNum reads table => table[r, c]));
      forall r | 0 <= r < clusterNum
        ensures value[r] == PairTable(cb)[r]
      {
        assert forall c :: 0 <= c < clusterNum ==> value[r][c] == PairTable(cb)[r][c];
      }
    }

    /** `encode`: byte `i` of the code is a centroid of codebook `i` nearest to
        slice `i` of `v`; when there are at most 256 centroids the cast to
        `uint8_t` keeps the index itself. */
    method Encode(v: Vector) returns (code: seq<Byte>)
      requires Valid() && Trained() && clusterNum > 0
      requires |v| >= subspaceNum * subDim
      ensures IsCode(codebooks, v, subspaceNum, subDim, code)
      ensures clusterNum <= 256 ==> forall i :: 0 <= i < subspaceNum ==>
        code[i] < clusterNum && IsNearest(codebooks[i], Split(v, subspaceNum, subDim)[i], code[i])
    {
      code := NearestCodes(codebooks, v, subspaceNum, clusterNum, subDim);
    }

    /** `search`: the `topk` centroid indices with the smallest summed
        distance to `q`. */
    method Search(q: Vector, topk: nat) returns (r: seq<nat>)
      requires Valid() && Trained()
      requires |q| >= subspaceNum * subDim && topk <= clusterNum
      ensures IsTopK(CentroidScores(codebooks, q, subspaceNum, clusterNum, subDim), topk, r)
    {
      var dists := SubspaceScores(codebooks, q, subspaceNum, clusterNum, subDim);
      r := SmallestIndices(dists, topk);
    }
  }

  /** The first loop of `search`: `dists` starts at zero and, for each of
      the `m` subspaces, grows by the squared distances from the query slice
      to the rows of that subspace's codebook. */
  method SubspaceScores(cbs: seq<Matrix>, q: Vector, m: nat, k: nat, d: nat) returns (ds: seq<real>)
    requires HasCodebooks(cbs, m, k, d) && m * d <= |q|
    ensures ds == CentroidScores(cbs, q, m, k, d)
  {
    ghost var parts := Split(q, m, d);
    var dists := new real[k](_ => 0.0);
    var i := 0;
    while i < m
      invariant 0 <= i <= m
      invariant forall t :: 0 <= t < k ==> dists[t] == Score(cbs, parts, t, i)
    {
      SliceFits(i, m, d, |q|);
      var sub := Slice(q, i, d);
      assert sub == parts[i];
      AddSubspace(dists, cbs[i], sub);
      i := i + 1;
    }
    ds := dists[..];
    assert forall t :: 0 <= t < k ==> ds[t] == CentroidScores(cbs, q, m, k, d)[t];
  }

  /** The cast of a nearest index to `uint8_t` is a code byte, and below 256
      it is the index itself. */
  lemma CastNearest(cb: Matrix, x: Vector, c: nat)
    requires IsNearest(cb, x, c)
    ensures IsCodeByte(cb, x, c % 256)
    ensures |cb| <= 256 ==> c % 256 == c
  {
  }

  /** The loop of `encode` over the first `m` codebooks of `cbs`, each `k × d`. */
  method NearestCodes(cbs: seq<Matrix>, v: Vector, m: nat, k: nat, d: nat) returns (code: seq<Byte>)
    requires HasCodebooks(cbs, m, k, d) && k > 0 && m * d <= |v|
    ensures IsCode(cbs, v, m, d, code)
    ensures k <= 256 ==> forall i :: 0 <= i < m ==> code[i] < k && IsNearest(cbs[i], Split(v, m, d)[i], code[i])
  {
    ghost var parts := Split(v, m, d);
    code := seq(m, _ => 0);
    var i := 0;
    while i < m
      invariant 0 <= i <= m && |code| == m
      invariant forall t :: 0 <= t < i ==> IsCodeByte(cbs[t], parts[t], code[t])
      invariant k <= 256 ==> forall t :: 0 <= t < i ==> code[t] < k && IsNearest(cbs[t], parts[t], code[t])
    {
      SliceFits(i, m, d, |v|);
      var sub := Slice(v, i, d);
      assert sub == parts[i];
      var c := ArgMinRow(cbs[i], sub);
      CastNearest(cbs[i], sub, c);
      code := code[i := c % 256];
      i := i + 1;
    }
  }

  /** `dists += diff.rowwise().squaredNorm()` for one subspace: entry `t`
      grows by the squared distance from row `t` of `cb` to `sub`. */
  method AddSubspace(dists: array<real>, cb: Matrix, sub: Vector)
    requires dists.Length <= |cb|
    modifies dists
    ensures forall t :: 0 <= t < dists.Length ==> dists[t] == old(dists[t]) + SqDist(cb[t], sub)
  {
    var j := 0;
    while j < dists.Length
      invariant 0 <= j <= dists.Length
      invariant forall t :: 0 <= t < j ==> dists[t] == old(dists[t]) + SqDist(cb[t], sub)
      invariant forall t :: j <= t < dists.Length ==> dists[t] == old(dists[t])
    {
      dists[j] := dists[j] + SqDist(cb[j], sub);
      j := j + 1;
    }
  }

  /** The defaults `PQ(8, 256)` give 16-dimensional subspaces. */
  method DefaultSubDim() returns (subDim: nat)
    ensures subDim == 16
  {
    var pq := new PQ();
    subDim := pq.subDim;
  }
}
