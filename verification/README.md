# Product quantization and interaction loading, in Dafny

This project models the core of a small C++ product-quantization (PQ)
library and the loader that feeds it. It has three parts.

- **`ProductQuantizer`** (PQ.cpp, PQ.h) covers the product quantizer.
  - A 128-dimensional vector is cut into `subspaceNum` slices of `subDim = 128 / subspaceNum` dimensions.
  - Each slice has a codebook of `clusterNum` centroids.
  - `train` appends one codebook per subspace and rebuilds the per-subspace table of centroid-pair distances.
  - `encode` replaces each slice by the index of a nearest centroid, cast to a byte.
  - `search` adds up, for every centroid index, the squared distances from the query slices to that centroid in each codebook. It returns the `topk` indices with the smallest sums, by way of `std::partial_sort`.
- **`ScanQuantizer`** (pq2.cpp, pq2.h) covers the second PQ class. It keeps a corpus of codes and answers queries in two ways.
  - `query` scans the corpus linearly, starting from `FLT_MAX`, and keeps the first strictly smaller distance.
  - `search` sorts all `(distance, index)` pairs with `std::sort` and returns the first `top_k` indices.
- **`DataLoading`** (DataLoader.cpp, DataLoader.h) covers the per-line state machine of `load`.
  - A first-seen user id gets the next row and a fresh row of 128 zeros.
  - A first-seen item id gets the next column index.
  - The weight is stored when its column is below 128.

`Subspaces` holds the vector helpers. Both quantizers use the squared Euclidean distance, the slice `segment(i * d, d)` and codebook shape. Only `ProductQuantizer` uses the nearest-centroid search that Eigen's `minCoeff` performs (`IsNearest`, `ArgMinRow`).

Modelling choices:
- Floats are `real`.
- `uint8_t` is `Byte` (0..255). The cast is `% 256`.
- `FLT_MAX` is the exact value 340282346638528859811704183484516925440.
- The codebooks that `setRandom()` fills are an argument `initial` of `Train`, of the required shape.
- A log line reaches `Load` already parsed, as `Some((user, item, weight))`, or as `None` when it does not parse.
- Classes whose methods update fields in place stay classes. Their methods are proved against specification functions:
  - `CentroidScores`, `IsTopK` and `IsCode` for PQ.cpp;
  - `Distances`, `IsQueryResult` and `IsSearchResult` for pq2.cpp;
  - `Ingest` and `IngestAll` for DataLoader.cpp.
- The in-place algorithms keep their arrays:
  - the accumulation of `dists`;
  - the distance table loops;
  - `partial_sort`, modelled as a partial selection sort;
  - `std::sort`, modelled as a selection sort.

## Model

| member | source | states |
|---|---|---|
| Subspaces.SqDist | PQ.cpp:67 | `squaredNorm()` of a difference is never negative |
| Subspaces.SqDistSymmetric | PQ.cpp:67 | the squared distance from a to b equals that from b to a |
| Subspaces.SqDistSelf | PQ.cpp:67 | a vector is at squared distance 0 from itself |
| Subspaces.Slice | PQ.cpp:32 | `segment(i * d, d)` has exactly `d` components, provided it lies inside the vector |
| Subspaces.SliceFits | PQ.cpp:31-32 | for every subspace `i < m`, its segment lies inside a vector of at least `m * d` components |
| Subspaces.Split | PQ.cpp:31-32 | the `m` subspace slices of a vector number `m`, and each has `d` components |
| Subspaces.ArgMinRow | PQ.cpp:35-37 | `minCoeff(&min_index)` over the rows' squared distances returns a row no farther from `x` than any other row |
| ProductQuantizer.PQ.constructor | PQ.cpp:8-10 | stores both sizes, sets `subDim` to `128 / subspaceNum` by integer division, and starts with no codebooks and an empty table; requires a non-zero `subspaceNum`, as the division does |
| ProductQuantizer.DefaultSubDim | PQ.h:8 | the default arguments (8, 256) give 16-dimensional subspaces |
| ProductQuantizer.PQ.Train | PQ.cpp:12-27 | appends exactly the `subspaceNum` new `clusterNum × subDim` codebooks after the existing ones, without clearing them; afterwards the table has exactly the keys `0..subspaceNum-1`, each holding the pair table of its codebook |
| ProductQuantizer.PQ.BuildDistanceTable | PQ.cpp:62-72 | every key below `subspaceNum` gets the pair table of the codebook with the same index; no other key is added, and the class invariant is kept |
| ProductQuantizer.PQ.DistanceMatrix | PQ.cpp:64-69 | cell `(j, k)` of the filled `clusterNum × clusterNum` table is the squared distance between centroids `j` and `k` |
| ProductQuantizer.PairTableIsDistanceMatrix | PQ.cpp:64-69 | each distance table is square, symmetric and non-negative, with a zero diagonal |
| ProductQuantizer.NearestCodes | PQ.cpp:30-40 | the loop of `encode` over the codebooks yields, in byte `i`, a code byte of a nearest centroid of codebook `i` for slice `i`, and that centroid's index itself when there are at most 256 |
| ProductQuantizer.CastNearest | PQ.cpp:38 | `static_cast<uint8_t>` of a nearest index is a valid code byte, and equals the index when the codebook has at most 256 rows |
| ProductQuantizer.PQ.Encode | PQ.cpp:29-41 | the code has `subspaceNum` bytes; byte `i` is `(index of a centroid of codebook i nearest to slice i) mod 256`; with at most 256 clusters, byte `i` is that nearest index itself |
| ProductQuantizer.Score | PQ.cpp:47-51 | the distance summed over the first `m` subspaces for one centroid index is never negative |
| ProductQuantizer.CentroidScores | PQ.cpp:44-51 | `dists` holds one score per centroid index, `clusterNum` in all |
| ProductQuantizer.PQ.Search | PQ.cpp:43-60 | returns `topk` distinct centroid indices in non-decreasing order of `dists`, and no index left out has a smaller distance than one returned; requires `topk <= clusterNum`, since `begin() + topk` must stay inside `indices` |
| ProductQuantizer.SubspaceScores | PQ.cpp:44-51 | the accumulation loop leaves in `dists` exactly the score of every centroid index |
| ProductQuantizer.AddSubspace | PQ.cpp:48-50 | `dists += diff.rowwise().squaredNorm()` adds to each entry the squared distance of its row to the query slice, and to nothing else |
| ProductQuantizer.SmallestIndices | PQ.cpp:54-59 | `iota`, then `partial_sort` by `dists`, then the first `k` entries, form a valid top-`k` selection |
| ProductQuantizer.PartialSort | PQ.cpp:56-57 | keeps the same multiset of indices; the first `k` are in key order and none exceeds any later entry |
| ProductQuantizer.MinFrom | PQ.cpp:56-57 | finds a position in `a[p..]` whose key is no greater than any other key there |
| ProductQuantizer.SelectStep | PQ.cpp:56-57 | swapping a least remaining index into position `p` extends the ordered prefix by one and keeps the contents |
| ProductQuantizer.TopKOfPermutation | PQ.cpp:54-59 | a permutation of `0..n-1` whose first `k` entries are ordered and not larger than the rest yields a valid top-`k` selection |
| ProductQuantizer.ScoreIgnoresLaterCodebooks | PQ.cpp:47-50 | the score over the first `m` subspaces does not depend on codebooks beyond index `m` |
| ProductQuantizer.RetrainKeepsScores | PQ.cpp:47-50 | codebooks appended by a second `train` leave every score `search` computes unchanged |
| ProductQuantizer.RetrainKeepsCodes | PQ.cpp:31-37 | codebooks appended by a second `train` leave the set of codes `encode` may produce unchanged |
| ScanQuantizer.PQ.constructor | pq2.cpp:42-75 | the corpus and codebooks are taken as given; they must fit each other, since every stored byte must index a row of its subspace's codebook |
| ScanQuantizer.PQ.Train | pq2.cpp:4-15 | appends exactly the `subspaceNum` new codebooks after the existing ones, and keeps the corpus valid |
| ScanQuantizer.CodeDistance | pq2.cpp:46-50 | the approximate distance of a code is never negative |
| ScanQuantizer.Distances | pq2.cpp:45-50 | there is one approximate distance per corpus entry |
| ScanQuantizer.PQ.CodeDistanceTo | pq2.cpp:46-50 | the inner loop computes the summed squared distance from each subspace's chosen centroid to the query slice |
| ScanQuantizer.QueryStep | pq2.cpp:51-54 | one scan step: entry `i` replaces the best so far exactly when it is strictly closer, and the scan's specification extends to the longer prefix |
| ScanQuantizer.FitsExtends | pq2.cpp:11-12 | codebooks appended by `train` keep every stored code valid |
| ScanQuantizer.PQ.Query | pq2.cpp:42-57 | the returned distance is the least of `FLT_MAX` and all entry distances; below `FLT_MAX` it belongs to the returned index, and every earlier entry is strictly farther; otherwise the index is 0 |
| ScanQuantizer.QueryOnEmptyCorpus | pq2.cpp:43-45 | with no codes, `query` returns `(0, FLT_MAX)` |
| ScanQuantizer.QueryResultUnique | pq2.cpp:51-54 | the distances determine the scan's result: two results both meeting the scan's specification are equal |
| ScanQuantizer.ResultLength | pq2.cpp:71 | the result has exactly one entry per `i >= 0` that passes the loop guard `i < top_k && i < distances.size()`, and never more than `n` |
| ScanQuantizer.PQ.Search | pq2.cpp:59-75 | returns `min(top_k, n)` distinct corpus indices in strictly increasing `(distance, index)` order, and every index left out comes after every index returned |
| ScanQuantizer.SortAndTake | pq2.cpp:69-74 | sorting the pairs `(distance, index)` and reading off the first `top_k` indices gives such a search result |
| ScanQuantizer.SortPairs | pq2.cpp:69 | `std::sort` keeps the multiset of pairs and puts them in strictly increasing pair order |
| ScanQuantizer.MinPairFrom | pq2.cpp:69 | finds the position in `a[p..]` of the pair that comes before every other pair there |
| ScanQuantizer.SortStep | pq2.cpp:69 | swapping the least remaining pair into position `p` extends the sorted prefix by one and keeps the contents |
| ScanQuantizer.SortedPairsGiveSearchResult | pq2.cpp:67-73 | a sorted permutation of the pairs `(ds[i], i)` yields a valid search result when its first `min(top_k, n)` indices are read off |
| ScanQuantizer.LeastRemaining | pq2.cpp:69-73 | result position `t` holds the least index, in pair order, among those not returned before it |
| ScanQuantizer.SearchPrefixUnique | pq2.cpp:69-73 | two valid search results agree on every common prefix |
| ScanQuantizer.SearchResultUnique | pq2.cpp:69-73 | ties in distance are broken by index, so the result of `search` is fully determined by the distances |
| ScanQuantizer.SearchHeadIsQueryIndex | pq2.cpp:42-75 | when some entry is closer than `FLT_MAX`, the first index `search` returns is the index `query` returns |
| ScanQuantizer.SearchHeadDiffersAtFloatMax | pq2.cpp:44-53 | with distances `[FLT_MAX + 1, FLT_MAX]`, `query` returns `(0, FLT_MAX)` while `search` ranks entry 1 first |
| DataLoading.Zeros | DataLoader.cpp:27 | `emplace_back(item_dimension_, 0.0f)` appends a row of the given width whose every cell is 0 |
| DataLoading.AddUser | DataLoader.cpp:25-28 | after the step, the user id has a row and the item map is untouched; the bijection and row-width invariants still hold |
| DataLoading.AddItem | DataLoader.cpp:31-33 | after the step, the item id has a column index and the user map and matrix are untouched; the invariants still hold |
| DataLoading.Store | DataLoader.cpp:36-40 | the cell store leaves both maps unchanged and keeps the invariants |
| DataLoading.Ingest | DataLoader.cpp:20-40 | one line keeps the invariants (users biject onto rows, items onto `0..|items|-1`, rows are 128 wide); a line that does not parse leaves the state unchanged |
| DataLoading.IngestAll | DataLoader.cpp:15-41 | any sequence of lines keeps the invariants |
| DataLoading.IngestEffect | DataLoader.cpp:24-40 | a parsed line's effect on the state: the user keeps its row or gets row `|rows|` with exactly one zero row appended; the item keeps its index or gets index `|items|`; `weight` overwrites only cell `(row, column)` and only when the column is below 128; every other cell is unchanged |
| DataLoading.IngestAllAppend | DataLoader.cpp:8-41 | loading `a` and then `b` gives the same state as loading `a + b`, so repeated `load` calls accumulate |
| DataLoading.DataLoader.constructor | DataLoader.h:13-16 | a new loader has empty maps and an empty matrix, and satisfies the invariants |
| DataLoading.IngestAllSnoc | DataLoader.cpp:15-41 | feeding one more line is one more `Ingest` step on the state so far |
| DataLoading.DataLoader.IngestLine | DataLoader.cpp:16-40 | one pass of the loop body changes the loader's state exactly as `Ingest` says |
| DataLoading.DataLoader.Load | DataLoader.cpp:8-42 | the state after the loop is `IngestAll` of the state before and the lines, and the invariants hold |
| DataLoading.DataLoader.GetUserItemMatrix | DataLoader.cpp:44-46 | the matrix has one row per distinct user id, and every row is 128 wide |
| DataLoading.DataLoader.GetItemDimension | DataLoader.cpp:48-50 | always 128 |

## Left out

- Opening the file, the `runtime_error` when it cannot be opened, `getline` and `istringstream` number parsing (DataLoader.cpp:9-20) are I/O. A line arrives as an already-parsed `Option`.
- The `print_*` functions of pq2.cpp (lines 17-40) only write to the console.
- `setRandom()` (PQ.cpp:22, pq2.cpp:12) is randomness. Its matrices are the `initial` argument of `Train`. The k-means step is only a TODO comment in the source, so nothing models it.
- The `subspace_vectors` copies in both `train`s (PQ.cpp:15-18, pq2.cpp:7-10) are never read, and are not modelled. The `items` argument of `Train` is accordingly unused.
- Float rounding is not modelled: every float is a `real`, so sums are exact.
- Subspaces.SqDist: it sums over the components the two vectors share. It is total, where Eigen asserts equal sizes. Every call in the model passes equal lengths.
- ProductQuantizer.PQ.Encode: it promises only *some* nearest centroid. Eigen's `minCoeff` does not specify which of several equally near rows it picks, although the model's loop picks the first.
- ProductQuantizer.PQ.Search: the order among equal distances is not fixed. `std::partial_sort` is not stable, and the model's selection sort is one of its allowed outcomes.
- pq2.h declares neither the sizes nor `build_distance_table`.
  - The sizes are taken to be fields fixed at construction.
  - The `build_distance_table()` call at pq2.cpp:14 has no definition in that class, and is not modelled there.
- `codes_` of pq2 has no writer in the source. The constructor of `ScanQuantizer.PQ` takes the corpus as given.
- ScanQuantizer.PQ.CodeDistanceTo: the model does not follow the source's shapes. At pq2.cpp:49 and pq2.cpp:65 the source subtracts `sub_query`, a column vector, from `codebooks_[j].row(...)`, a row vector, with no `.transpose()` (compare PQ.cpp:35 and PQ.cpp:49). Eigen rejects that subtraction at run time unless `subDim == 1`. The model uses the evidently intended squared distance between the centroid and the query slice.
- ProductQuantizer.PQ.Encode: requires `clusterNum > 0`. With an empty codebook, Eigen's `minCoeff` asserts, so `encode` has no result to model.
- ScanQuantizer.PQ.Query: requires `|q| >= subspaceNum * subDim` even when the corpus is empty. The source then never reads `q` and returns `(0, FLT_MAX)`, so a short query on an empty corpus is not covered.
- ScanQuantizer.PQ.Search: requires `|q| >= subspaceNum * subDim` even when the corpus is empty. The source then never reads `q` and returns an empty result, so a short query on an empty corpus is not covered.
- ScanQuantizer.SearchHeadIsQueryIndex: it holds only when some distance is below `FLT_MAX`. Otherwise `query` reports index 0 while `search` still ranks the entries, as `SearchHeadDiffersAtFloatMax` shows.
- DataLoading.Ingest: a first-seen item gets the map's size before insertion. That is the C++17 rule for `item_id_map_[item_id] = item_id_map_.size()`; older standards leave the order unspecified.
- DataLoading.DataLoader.GetUserItemMatrix: it returns the matrix as a value. The C++ returns a `const` reference, so aliasing is not modelled.
- Integer widths (`size_t` and `int`) are unbounded here. Index conversions such as `int` in pq2's pairs cannot overflow in the model.
- SimilarityComputer.cpp and main.cpp are not part of this model. They hold floating-point linear algebra and a console driver.
