/** The second quantizer, pq2.cpp: a corpus `codes` of per-subspace centroid
    indices, answered by a linear scan (`query`) or by sorting every
    `(distance, index)` pair (`search`). pq2.h declares only `codebooks_`
    and `codes_`; the sizes `subspaceNum`, `clusterNum` and `subDim` that
    pq2.cpp uses are taken to be fields fixed at construction. */
module ScanQuantizer {
  import opened Subspaces

  /** `std::numeric_limits<float>::max()`, the largest finite float. */
  const FloatMax: real := 340282346638528859811704183484516925440.0

  /** Every stored code has at least `m` bytes, and byte `j` names a row of
      codebook `j`. Nothing is demanded of the codebooks while the corpus is
      empty. */
  ghost predicate Fits(cbs: seq<Matrix>, codes: seq<seq<Byte>>, m: nat) {
    forall i :: 0 <= i < |codes| ==>
      |codes[i]| >= m && m <= |cbs| && forall j :: 0 <= j < m ==> codes[i][j] < |cbs[j]|
  }

  /** Appending codebooks keeps every stored code fitting. */
  lemma FitsExtends(cbs: seq<Matrix>, extra: seq<Matrix>, codes: seq<seq<Byte>>, m: nat)
    requires Fits(cbs, codes, m)
    ensures Fits(cbs + extra, codes, m)
  {
    forall i | 0 <= i < |codes|
      ensures |codes[i]| >= m && m <= |cbs + extra|
      ensures forall j :: 0 <= j < m ==> codes[i][j] < |(cbs + extra)[j]|
    {
      forall j | 0 <= j < m
        ensures codes[i][j] < |(cbs + extra)[j]|
      {
        assert (cbs + extra)[j] == cbs[j];
      }
    }
  }

  /** The approximate distance of one code over its first `m` subspaces: the
      sum of the squared distances from row `code[j]` of codebook `j` to the
      query slice `parts[j]`. */
  function CodeDistance(cbs: seq<Matrix>, code: seq<Byte>, parts: seq<Vector>, m: nat): (r: real)
    requires m <= |cbs| && m <= |code| && m <= |parts|
    requires forall j :: 0 <= j < m ==> code[j] < |cbs[j]|
    ensures r >= 0.0
  {
    if m == 0 then 0.0
    else CodeDistance(cbs, code, parts, m - 1) + SqDist(cbs[m - 1][code[m - 1]], parts[m - 1])
  }

  /** The approximate distance of every corpus entry to `q`, by corpus index. */
  function Distances(cbs: seq<Matrix>, codes: seq<seq<Byte>>, q: Vector, m: nat, d: nat): (ds: seq<real>)
    requires Fits(cbs, codes, m) && m * d <= |q|
    ensures |ds| == |codes|
  {
    var parts := Split(q, m, d);
    seq(|codes|, i requires 0 <= i < |codes| => CodeDistance(cbs, codes[i], parts, m))
  }

  /** `(idx, dist)` is what the scan of `query` leaves: `dist` is the smallest
      of `FloatMax` and all distances; below `FloatMax` it is the distance of
      entry `idx` and every earlier entry is strictly farther; otherwise
      `idx` is still 0. */
  ghost predicate IsQueryResult(ds: seq<real>, idx: nat, dist: real) {
    dist <= FloatMax &&
    (forall i :: 0 <= i < |ds| ==> dist <= ds[i]) &&
    if dist < FloatMax then
      idx < |ds| && ds[idx] == dist && forall i :: 0 <= i < idx ==> dist < ds[i]
    else
      idx == 0
  }

  /** `operator<` of `std::pair<float, int>`: by distance, then by index. */
  predicate Before(x: (real, nat), y: (real, nat)) {
    x.0 < y.0 || (x.0 == y.0 && x.1 < y.1)
  }

  /** The pair `search` builds for corpus entry `i`. */
  function Key(ds: seq<real>, i: nat): (real, nat)
    requires i < |ds|
  {
    (ds[i], i)
  }

  /** The guard `i < top_k && i < distances.size()` of the loop that reads
      the indices off the sorted pairs. */
  predicate ReadsOff(i: nat, topK: int, n: nat) {
    i < topK && i < n
  }

  /** How many indices `search` returns: the read-off loop runs for exactly
      those `i` that pass its guard. */
  function ResultLength(topK: int, n: nat): (len: nat)
    ensures len <= n
    ensures forall i: nat :: i < len <==> ReadsOff(i, topK, n)
  {
    if topK <= 0 then 0 else if topK < n then topK else n
  }

  /** `r` is what `search` returns: `min(topK, |ds|)` distinct corpus
      indices (none when `topK <= 0`) in increasing `(distance, index)`
      order, and every index left out comes after every index returned. */
  ghost predicate IsSearchResult(ds: seq<real>, topK: int, r: seq<nat>) {
    |r| == ResultLength(topK, |ds|) &&
    (forall t :: 0 <= t < |r| ==> r[t] < |ds|) &&
    (forall s, t :: 0 <= s < t < |r| ==> r[s] != r[t]) &&
    (forall s, t :: 0 <= s < t < |r| ==> Before(Key(ds, r[s]), Key(ds, r[t]))) &&
    (forall j, t :: 0 <= j < |ds| && j !in r && 0 <= t < |r| ==> Before(Key(ds, r[t]), Key(ds, j)))
  }

  /** The scan on an empty corpus yields `(0, FloatMax)`. */
  lemma QueryOnEmptyCorpus(idx: nat, dist: real)
    requires IsQueryResult([], idx, dist)
    ensures idx == 0 && dist == FloatMax
  {
  }

  /** The scan's result is determined by the distances. */
  lemma QueryResultUnique(ds: seq<real>, idx1: nat, dist1: real, idx2: nat, dist2: real)
    requires IsQueryResult(ds, idx1, dist1) && IsQueryResult(ds, idx2, dist2)
    ensures idx1 == idx2 && dist1 == dist2
  {
    if dist1 < FloatMax {
      assert dist2 <= ds[idx1];
    }
    if dist2 < FloatMax {
      assert dist1 <= ds[idx2];
    }
  }

  /** One iteration of the scan: entry `i` replaces the best so far exactly
      when it is strictly closer. */
  lemma QueryStep(ds: seq<real>, i: nat, idx: nat, dist: real)
    requires i < |ds| && IsQueryResult(ds[..i], idx, dist)
    ensures ds[i] < dist ==> IsQueryResult(ds[..i + 1], i, ds[i])
    ensures !(ds[i] < dist) ==> IsQueryResult(ds[..i + 1], idx, dist)
  {
    assert forall t :: 0 <= t < i ==> ds[..i + 1][t] == ds[..i][t];
    assert ds[..i + 1][i] == ds[i];
  }

  /** The first index `search` returns is the index `query` returns, whenever
      some entry lies closer than `FloatMax`. */
  lemma SearchHeadIsQueryIndex(ds: seq<real>, topK: int, r: seq<nat>, idx: nat, dist: real)
    requires IsSearchResult(ds, topK, r) && IsQueryResult(ds, idx, dist)
    requires |ds| > 0 && topK >= 1 && dist < FloatMax
    ensures r[0] == idx
  {
    assert !Before(Key(ds, r[0]), Key(ds, idx));
    LeastRemaining(ds, topK, r, 0, idx);
  }

  /** Without the `FloatMax` bound the two disagree: when every distance is
      at least `FloatMax`, `query` reports index 0 while `search` orders the
      entries by their distances. */
  lemma SearchHeadDiffersAtFloatMax()
    ensures IsQueryResult([FloatMax + 1.0, FloatMax], 0, FloatMax)
    ensures IsSearchResult([FloatMax + 1.0, FloatMax], 1, [1])
  {
    var ds := [FloatMax + 1.0, FloatMax];
    forall j, t | 0 <= j < |ds| && j !in [1] && 0 <= t < 1
      ensures Before(Key(ds, [1][t]), Key(ds, j))
    {
      assert j == 0;
    }
  }

  /** Position `t` of a search result holds the least index, in
      `(distance, index)` order, of those not returned before it. */
  lemma LeastRemaining(ds: seq<real>, topK: int, r: seq<nat>, t: nat, j: nat)
    requires IsSearchResult(ds, topK, r) && t < |r|
    requires j < |ds| && j !in r[..t]
    ensures j == r[t] || Before(Key(ds, r[t]), Key(ds, j))
  {
    if j in r {
      var s :| 0 <= s < |r| && r[s] == j;
      assert forall u :: 0 <= u < t ==> r[..t][u] == r[u];
    }
  }

  /** Two results that both satisfy `IsSearchResult` agree on their first
      `t` indices. */
  lemma {:induction false} SearchPrefixUnique(ds: seq<real>, topK: int, r1: seq<nat>, r2: seq<nat>, t: nat)
    requires IsSearchResult(ds, topK, r1) && IsSearchResult(ds, topK, r2)
    requires t <= |r1|
    ensures r1[..t] == r2[..t]
  {
    if t > 0 {
      SearchPrefixUnique(ds, topK, r1, r2, t - 1);
      var a, b := r1[t - 1], r2[t - 1];
      assert a !in r2[..t - 1] by {
        assert r2[..t - 1] == r1[..t - 1];
      }
      assert b !in r1[..t - 1] by {
        assert r2[..t - 1] == r1[..t - 1];
      }
      LeastRemaining(ds, topK, r2, t - 1, a);
      LeastRemaining(ds, topK, r1, t - 1, b);
      assert a == b;
      assert r1[..t] == r1[..t - 1] + [a];
      assert r2[..t] == r2[..t - 1] + [b];
    }
  }

  /** The order `search` returns is fully determined: ties in distance are
      broken by index, so two calls on the same state agree. */
  lemma SearchResultUnique(ds: seq<real>, topK: int, r1: seq<nat>, r2: seq<nat>)
    requires IsSearchResult(ds, topK, r1) && IsSearchResult(ds, topK, r2)
    ensures r1 == r2
  {
    SearchPrefixUnique(ds, topK, r1, r2, |r1|);
  }

  /** The state selection sort has reached after placing `p` pairs: the
      pairs are distinct, `s[..p]` is in increasing order, and every pair of
      `s[..p]` comes before every pair of `s[p..]`. */
  ghost predicate SortedUpTo(s: seq<(real, nat)>, p: nat) {
    p <= |s| &&
    (forall x, y :: 0 <= x < y < |s| ==> s[x] != s[y]) &&
    (forall x, y :: 0 <= x < y < p ==> Before(s[x], s[y])) &&
    (forall x, y :: 0 <= x < p <= y < |s| ==> Before(s[x], s[y]))
  }

  /** Swapping a least remaining pair into position `p` extends the sorted
      prefix by one and keeps the contents. */
  lemma SortStep(s: seq<(real, nat)>, p: nat, m: nat)
    requires SortedUpTo(s, p) && p <= m < |s|
    requires forall z :: p <= z < |s| && z != m ==> Before(s[m], s[z])
    ensures SortedUpTo(s[p := s[m]][m := s[p]], p + 1)
    ensures multiset(s[p := s[m]][m := s[p]]) == multiset(s)
  {
    SwapPermutes(s, p, m);
    var t := s[p := s[m]][m := s[p]];
    assert forall z :: 0 <= z < |s| && z != p && z != m ==> t[z] == s[z];
    assert t[p] == s[m] && t[m] == s[p];
  }

  /** The position in `a[p..]` of the least pair. */
  method MinPairFrom(a: array<(real, nat)>, p: nat) returns (m: nat)
    requires p < a.Length
    requires forall x, y :: 0 <= x < y < a.Length ==> a[x] != a[y]
    ensures p <= m < a.Length
    ensures forall z :: p <= z < a.Length && z != m ==> Before(a[m], a[z])
  {
    m := p;
    var y := p + 1;
    while y < a.Length
      invariant p <= m < y <= a.Length
      invariant forall z :: p <= z < y && z != m ==> Before(a[m], a[z])
    {
      if Before(a[y], a[m]) {
        m := y;
      }
      y := y + 1;
    }
  }

  /** `std::sort(distances.begin(), distances.end())` on distinct pairs. */
  method SortPairs(a: array<(real, nat)>)
    requires SortedUpTo(a[..], 0)
    modifies a
    ensures multiset(a[..]) == multiset(old(a[..]))
    ensures SortedUpTo(a[..], a.Length)
  {
    var p := 0;
    while p < a.Length
      invariant 0 <= p <= a.Length
      invariant multiset(a[..]) == multiset(old(a[..]))
      invariant SortedUpTo(a[..], p)
    {
      var m := MinPairFrom(a, p);
      ghost var s := a[..];
      SortStep(s, p, m);
      a[p], a[m] := a[m], a[p];
      assert a[..] == s[p := s[m]][m := s[p]];
      p := p + 1;
    }
  }

  /** The pairs `(ds[i], i)`, sorted, yield a valid `search` result when the
      first `ResultLength` indices are read off. */
  lemma SortedPairsGiveSearchResult(ds: seq<real>, a: seq<(real, nat)>, topK: int)
    requires multiset(a) == multiset(seq(|ds|, i requires 0 <= i < |ds| => Key(ds, i)))
    requires |a| == |ds| && SortedUpTo(a, |a|)
    ensures IsSearchResult(ds, topK, seq(ResultLength(topK, |ds|), t requires 0 <= t < |a| => a[t].1))
  {
    var pairs := seq(|ds|, i requires 0 <= i < |ds| => Key(ds, i));
    var len := ResultLength(topK, |ds|);
    var r := seq(len, t requires 0 <= t < |a| => a[t].1);
    forall x | 0 <= x < |a|
      ensures a[x].1 < |ds| && a[x] == (ds[a[x].1], a[x].1)
    {
      assert a[x] in multiset(pairs);
      var i :| 0 <= i < |ds| && pairs[i] == a[x];
      assert a[x] == Key(ds, i);
    }
    forall j, t | 0 <= j < |ds| && j !in r && 0 <= t < len
      ensures Before(Key(ds, r[t]), Key(ds, j))
    {
      assert pairs[j] in multiset(a);
      var y :| 0 <= y < |a| && a[y] == pairs[j];
      assert forall u :: 0 <= u < len ==> r[u] == a[u].1;
    }
  }

  /** The end of `search`: `std::sort` on the pairs `(ds[i], i)`, then the
      indices of the first `topK` of them. */
  method SortAndTake(distances: seq<(real, nat)>, ghost ds: seq<real>, topK: int) returns (results: seq<nat>)
    requires distances == seq(|ds|, i requires 0 <= i < |ds| => Key(ds, i))
    ensures IsSearchResult(ds, topK, results)
  {
    var a := new (real, nat)[|distances|](t requires 0 <= t < |distances| => distances[t]);
    assert a[..] == distances;
    SortPairs(a);
    ghost var sorted := a[..];
    SortedPairsGiveSearchResult(ds, sorted, topK);
    results := [];
    var n := 0;
    while ReadsOff(n, topK, a.Length)
      invariant n <= ResultLength(topK, a.Length)
      invariant |results| == n
      invariant forall t :: 0 <= t < n ==> results[t] == sorted[t].1
      decreases a.Length - n
    {
      results := results + [a[n].1];
      n := n + 1;
    }
    assert results == seq(ResultLength(topK, |ds|), t requires 0 <= t < |sorted| => sorted[t].1);
  }

  /** The `PQ` class of pq2.cpp. */
  class PQ {
    const subspaceNum: nat
    const clusterNum: nat
    const subDim: nat
    var codebooks: seq<Matrix>
    var codes: seq<seq<Byte>>

    /** Every codebook is `clusterNum × subDim` and every stored code names
        rows of the first `subspaceNum` codebooks. */
    ghost predicate Valid()
      reads this
    {
      (forall i :: 0 <= i < |codebooks| ==> Shaped(codebooks[i], clusterNum, subDim)) &&
      Fits(codebooks, codes, subspaceNum)
    }

    /** pq2.cpp itself never fills `codes_`; the corpus is taken as given. */
    constructor(subspaceNum: nat, clusterNum: nat, subDim: nat, codebooks: seq<Matrix>, codes: seq<seq<Byte>>)
      requires forall i :: 0 <= i < |codebooks| ==> Shaped(codebooks[i], clusterNum, subDim)
      requires Fits(codebooks, codes, subspaceNum)
      ensures Valid()
      ensures this.subspaceNum == subspaceNum && this.clusterNum == clusterNum && this.subDim == subDim
      ensures this.codebooks == codebooks && this.codes == codes
    {
      this.subspaceNum := subspaceNum;
      this.clusterNum := clusterNum;
      this.subDim := subDim;
      this.codebooks := codebooks;
      this.codes := codes;
    }

    /** `train`: appends one codebook per subspace (the `initial` matrices
        stand for what `setRandom()` produces). */
    method Train(items: seq<Vector>, initial: seq<Matrix>)
      requires Valid()
      requires |initial| == subspaceNum
      requires forall i :: 0 <= i < |initial| ==> Shaped(initial[i], clusterNum, subDim)
      modifies this`codebooks
      ensures Valid()
      ensures codebooks == old(codebooks) + initial
    {
      var i := 0;
      while i < subspaceNum
        invariant 0 <= i <= subspaceNum
        invariant codebooks == old(codebooks) + initial[..i]
        invariant Valid()
      {
        FitsExtends(codebooks, [initial[i]], codes, subspaceNum);
        codebooks := codebooks + [initial[i]];
        i := i + 1;
      }
      assert initial[..i] == initial;
    }

    /** The inner loop shared by `query` and `search`: the approximate
        distance of one code to `q`. */
    static method CodeDistanceTo(cbs: seq<Matrix>, code: seq<Byte>, q: Vector, m: nat, d: nat) returns (dist: real)
      requires m <= |cbs| && m <= |code| && m * d <= |q|
      requires forall j :: 0 <= j < m ==> code[j] < |cbs[j]|
      ensures dist == CodeDistance(cbs, code, Split(q, m, d), m)
    {
      ghost var parts := Split(q, m, d);
      dist := 0.0;
      var j := 0;
      while j < m
        invariant 0 <= j <= m
        invariant dist == CodeDistance(cbs, code, parts, j)
      {
        SliceFits(j, m, d, |q|);
        var sub := Slice(q, j, d);
        assert sub == parts[j];
        dist := dist + SqDist(cbs[j][code[j]], sub);
        j := j + 1;
      }
    }

    /** `query`: a linear scan keeping the first strictly smaller distance. */
    method Query(q: Vector) returns (minIdx: nat, minDist: real)
      requires Valid() && |q| >= subspaceNum * subDim
      ensures IsQueryResult(Distances(codebooks, codes, q, subspaceNum, subDim), minIdx, minDist)
    {
      ghost var ds := Distances(codebooks, codes, q, subspaceNum, subDim);
      minIdx, minDist := 0, FloatMax;
      var i := 0;
      while i < |codes|
        invariant 0 <= i <= |codes|
        invariant IsQueryResult(ds[..i], minIdx, minDist)
      {
        var dist := CodeDistanceTo(codebooks, codes[i], q, subspaceNum, subDim);
        assert dist == ds[i];
        QueryStep(ds, i, minIdx, minDist);
        if dist < minDist {
          minDist := dist;
          minIdx := i;
        }
        i := i + 1;
      }
      assert ds[..i] == ds;
    }

    /** `search`: every `(distance, index)` pair, sorted, and the indices of
        the first `topK` of them. */
    method Search(q: Vector, topK: int) returns (results: seq<nat>)
      requires Valid() && |q| >= subspaceNum * subDim
      ensures IsSearchResult(Distances(codebooks, codes, q, subspaceNum, subDim), topK, results)
    {
      ghost var ds := Distances(codebooks, codes, q, subspaceNum, subDim);
      var distances: seq<(real, nat)> := [];
      var i := 0;
      while i < |codes|
        invariant 0 <= i <= |codes|
        invariant distances == seq(i, t requires 0 <= t < i => Key(ds, t))
      {
        var dist := CodeDistanceTo(codebooks, codes[i], q, subspaceNum, subDim);
        distances := distances + [(dist, i)];
        i := i + 1;
      }
      results := SortAndTake(distances, ds, topK);
    }
  }
}
