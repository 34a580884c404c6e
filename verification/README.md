# Cover-tree node and partition engine, modelled in Dafny

This project models two sequential pieces of the `grandma` cover-tree library.

1. **The `CoverNode` vertex** (`grandma/src/node.rs`). It owns a centre address, a radius, a
   cover count, singleton outliers and an optional routing structure: the nested child's
   scale plus the sibling addresses. It is modelled as an immutable record with pure update
   functions that return `(node, result)`. It also covers the per-node k-nearest-neighbour
   query protocol and the persistence mapping to and from a flat record.
2. **The construction-time partition engine** (`grandma/src/data_caches.rs`). `CoveredData`
   holds a centre and the points it covers with their distances. `UncoveredData` holds a
   pool of unassigned points. `split` and `pick_center` are one order-preserving linear pass
   that sends an entry to a "close" bucket when its distance is strictly below a threshold
   and to a "far" bucket otherwise. `find_split` is an unused binary search over a sorted
   slice.

Modules, one file each (`wrappers.dfy` holds two):

- `Wrappers` and `Errors` (`wrappers.dfy`): `Option`, `Result` and `Outcome`, plus the
  crate's error kinds `DoubleNest`, `InsertBeforeNest` and `MetricFailure`.
- `Seqs` (`seqs.dfy`): the shorter-of-two length and Rust's `zip`, shared by every module that
  pairs up two parallel sequences.
- `PointClouds` (`point_clouds.dfy`): the point store, seen only through what the core
  consumes. It has a validity predicate on indexes, an abstract distance `dist(i, j): real`
  and an abstract adjacency minimum. A query point is its distance to each stored point.
  Every store call fails with `MetricFailure` exactly when one of its indexes cannot be
  resolved.
- `Partitions` (`partitions.dfy`): the shared linear pass `PartitionEntries`. Its reference
  definition is `Positions`, the ascending positions of the entries each bucket receives.
- `DataCaches` (`data_caches.dfy`): `CoveredData`, `UncoveredData`, `new`, `split`,
  `pick_center`, `to_indexes`, `max_distance`, `len` and `find_split`.
- `Nodes` (`nodes.dfy`): the node record, its mutation API, and a replay of any sequence of
  mutation calls, used to state the accounting and nest-once invariants.
- `NodeProtos` (`node_protos.dfy`): `save` and `load`.
- `NodeQueries` (`node_queries.dfy`): `singleton_knn`, `child_knn`, `knn` and
  `check_seperation`. The query heap is an append-only log of its push calls.
  `PointOffers` and `NodeOffers` flatten the log into the entries it offered, in order.

Behaviour of the code that the model reproduces and that a reader may not expect:

- Both `insert_nested_child` and `insert_child` add the coverage to `cover_count` before
  checking the node's state (node.rs:87, node.rs:200). A rejected insert therefore still
  changes the count.
- `pick_center` removes the chosen centre from the pool (data_caches.rs:45) before measuring
  distances (data_caches.rs:46). When measuring fails, the pool has still lost the centre.
- `knn` and `child_knn` evaluate `unwrap_or(distances_to_point(..)?[0])` eagerly
  (node.rs:150-151, node.rs:181-182). The centre distance is always computed, and its error
  propagates even when the caller supplied the distance.
- `check_seperation` returns `scale > min` (node.rs:309), while its doc comment (node.rs:296)
  asks for the points to be separated by at least `scale`. See "Findings".
- A failed `knn` or `child_knn` keeps the pushes it made before the failure (node.rs:148,
  node.rs:184-193).
- `split` is declared fallible but never fails, so it is modelled as a total function.

## Model

| member | source | states |
|---|---|---|
| `Partitions.PartitionEntries` | grandma/src/data_caches.rs:116-126 | the linear pass is exactly a filter: the close bucket holds the entries at the ascending positions whose distance is below the threshold, with aligned distances; the far bucket holds the indexes at the other positions, in order; together the two are a permutation of the input indexes |
| `Partitions.BucketMembers` | grandma/src/data_caches.rs:119-126 | an entry is in a bucket if and only if it is an input entry whose distance selects that bucket (strict `<` for close) |
| `DataCaches.NewCovered` | grandma/src/data_caches.rs:104-113 | the last reference index is the centre; every other reference index is covered, in order, with its distance to the centre aligned; `len` equals the number of reference indexes; fails exactly when the store cannot resolve an index; requires a non-empty reference set |
| `DataCaches.Split` | grandma/src/data_caches.rs:115-134 | close keeps the centre and exactly the entries with distance below `thresh`, in order, with aligned distances; far holds exactly the other indexes, in order; the buckets are a permutation of the cached indexes; `close.len() + far.len() == len()` for an aligned cache |
| `DataCaches.SplitSeparates` | grandma/src/data_caches.rs:119-126 | the close bucket's entries are exactly the cached entries below the threshold; the far pool's indexes are exactly those of entries at or above it |
| `DataCaches.SplitAllFar` | grandma/src/data_caches.rs:119-126 | when no cached distance is below the threshold, close is the centre alone and far is the whole coverage |
| `DataCaches.SplitsCorrectlyScenario` | grandma/src/data_caches.rs:158-179 | with twenty points whose last one is at least 3 from all others, `new` then `split(1.0)` gives `close.len() == 1` and `far.len() == 19` |
| `DataCaches.Len` | grandma/src/data_caches.rs:147-149 | `CoveredData::len` is never 0, since it counts the centre, and for an aligned cache is one more than the entries a pass walks |
| `DataCaches.UncoveredLen` | grandma/src/data_caches.rs:68-70 | `UncoveredData::len` is the number of points in the pool, repeats included |
| `DataCaches.ToIndexes` | grandma/src/data_caches.rs:136-138 | the returned indexes are one fewer than `len()` (the centre is excluded) and, for an aligned cache, are exactly the indexes the pass walks |
| `DataCaches.FoldMax` | grandma/src/data_caches.rs:140-145 | the fold from negative infinity is at least every distance, equals one of them when there is one, and is negative infinity exactly for no distances |
| `DataCaches.MaxDistance` | grandma/src/data_caches.rs:140-145 | `max_distance` is at least every cached distance, equals one of them, and is negative infinity exactly when nothing is cached |
| `DataCaches.PickCenter` | grandma/src/data_caches.rs:38-66 | the centre is the pool's element at the chosen position; the covered bucket is exactly the remaining points closer than `radius`, in order, with their distances; the new pool is exactly the others, in order; the buckets are a permutation of the pool without the centre; the pool always shrinks, even on a failure, which happens exactly when the store cannot resolve a pool index; requires a non-empty pool |
| `DataCaches.PickCenterSeparates` | grandma/src/data_caches.rs:46-58 | when every pool point can be resolved, each covered point's cached distance is its true distance to the centre and is below `radius`; each point left in the pool is at least `radius` from the centre |
| `DataCaches.PickCenterDisjoint` | grandma/src/data_caches.rs:43-65 | on a pool of distinct, resolvable points the centre is in neither bucket, the buckets are disjoint, and their union is the old pool without the centre |
| `DataCaches.SplitOfDistinct` | grandma/src/data_caches.rs:203-210 | two sequences whose multisets add up to a distinct pool minus one member miss that member, are disjoint and cover the rest of the pool |
| `DataCaches.FindSplit` | grandma/src/data_caches.rs:83-101 | terminates with a position at most the length; on a sorted slice, entries before it are at most `thresh` and entries from it on are at least `thresh`, both strictly when no entry equals `thresh`; requires a non-empty slice |
| `Nodes.New` | grandma/src/node.rs:59-68 | a new node is a leaf with radius 0, count 0, no singletons and no summary |
| `Nodes.InsertNestedChild` | grandma/src/node.rs:82-97 | the count grows by `coverage` in every case; a leaf becomes a routing node with the given nested scale and no siblings; a routing node reports `DoubleNest` and keeps its children; nothing else changes |
| `Nodes.InsertChild` | grandma/src/node.rs:199-207 | the count grows by `coverage` in every case; a routing node gets the address appended after its siblings, keeping the nested scale; a leaf reports `InsertBeforeNest` and stays a leaf; nothing else changes |
| `Nodes.InsertSingletons` | grandma/src/node.rs:210-213 | the points are appended in order after the singletons and counted; nothing else changes |
| `Nodes.InsertSingleton` | grandma/src/node.rs:215-218 | the point is appended after the singletons and counted once; nothing else changes |
| `Nodes.RemoveChildren` | grandma/src/node.rs:100-102 | returns the previous children and leaves a leaf with `children_len() == 0` and the same count |
| `Nodes.ChildrenLen` | grandma/src/node.rs:124-130 | `children_len` is 0 exactly for a leaf, and the number of siblings plus one (the nested child) for a routing node |
| `Nodes.Children` | grandma/src/node.rs:132-137 | `children` is absent exactly for a leaf, and otherwise gives the nested scale and the sibling addresses |
| `Nodes.ChildrenLenMatchesChildren` | grandma/src/node.rs:125-137 | `children_len` is 0 exactly for a leaf and otherwise the number of siblings plus one |
| `Nodes.ReplayCoverCount` | grandma/src/node.rs:82-218 | after any sequence of mutation calls, rejected inserts included, the count has grown by exactly the coverage passed in |
| `Nodes.CoverCountFromNew` | grandma/src/node.rs:59-68 | from a new node, the count equals the total coverage passed to all inserts |
| `Nodes.ReplaySingles` | grandma/src/node.rs:209-218 | singletons are only appended: after any sequence of calls they are the old ones followed by all inserted ones, in order, and the address is unchanged |
| `Nodes.NestOnce` | grandma/src/node.rs:82-97 | without a removal, a routing node stays a routing node with the same nested scale, and its siblings are the old ones followed by every added child, in order |
| `Nodes.StepKeepsNest` | grandma/src/node.rs:199-207 | a single call other than removal keeps a routing node's nested scale and appends at most the one added sibling |
| `Nodes.LeafWithoutNest` | grandma/src/node.rs:198-207 | without a nesting call a leaf stays a leaf, whatever siblings are inserted |
| `NodeProtos.Save` | grandma/src/node.rs:269-294 | the record's leaf flag is set exactly for a leaf; it copies count, centre, radius and singletons; for a routing node it records the nested scale, and the sibling scales and sibling centres as two columns in sibling order, one shorter than `children_len`; a leaf's routing fields stay at their defaults |
| `NodeProtos.Load` | grandma/src/node.rs:233-267 | the node's address is the given scale with the record's centre; count, radius and singletons are copied; the summary is an empty one; it is a leaf exactly when the flag is set; a routing node gets the record's nested scale, and siblings that pair up the two child columns position by position up to the shorter column |
| `NodeProtos.LoadSave` | grandma/src/node.rs:233-294 | saving and then loading under the node's own scale index reproduces the node, except that the summary becomes an empty one |
| `NodeProtos.SaveLoad` | grandma/src/node.rs:233-294 | loading a record `save` could produce and saving the node again gives the record back |
| `NodeProtos.SaveInjective` | grandma/src/node.rs:269-294 | two nodes under the same scale index with equal records agree on everything but the summary |
| `NodeQueries.CenterDistance` | grandma/src/node.rs:150-151 | the centre is always measured: the call fails exactly when the centre cannot be resolved, even when a distance is supplied, and otherwise yields the supplied distance or the true one |
| `NodeQueries.SingletonKnn` | grandma/src/node.rs:161-170 | one push of every singleton, in order, at its true distance, and nothing else; on a failure the heap is untouched |
| `NodeQueries.ChildKnn` | grandma/src/node.rs:174-196 | a leaf leaves the heap unchanged; a routing node offers the nested child at the centre distance with no parent, then each sibling in order at its true distance with this node as parent, `children_len` node offers in all and no point offers; fails exactly when a needed point cannot be resolved; an unresolvable centre leaves the log unchanged, and an unresolvable sibling leaves the nested child's push in it |
| `NodeQueries.Knn` | grandma/src/node.rs:141-158 | offers the singletons in order, then the centre as a point only for a leaf; offers the nested child and the siblings only for a routing node; fails exactly when a needed point cannot be resolved; the log is exact on every path: nothing when a singleton cannot be resolved, the singletons' push when the centre cannot, and the singletons' and nested child's pushes when a sibling cannot |
| `NodeQueries.OffersAppend` | grandma/src/node.rs:141-196 | the heap log is append-only in meaning: the offers of two logs in sequence are the offers of each, in order |
| `NodeQueries.KnnFailsOnCenter` | grandma/src/node.rs:148-151 | with a supplied centre distance and an unresolvable centre, `knn` still fails, after the singletons were already offered |
| `NodeQueries.KnnMixedNode` | grandma/src/node.rs:348-375 | the test node with three singletons and three siblings offers four nodes and three points |
| `NodeQueries.KnnLeafNode` | grandma/src/node.rs:405-430 | the test leaf with six singletons offers no nodes and seven points |
| `NodeQueries.CheckSeparation` | grandma/src/node.rs:298-310 | as written: fails exactly when a point cannot be resolved, and otherwise returns whether `scale` exceeds the adjacency minimum of the singletons, the centre and the sibling centres |
| `NodeQueries.SeparationPointsMembers` | grandma/src/node.rs:303-307 | the check looks at exactly the singletons, the centre and the sibling centres: the number of singletons plus `children_len` points for a routing node, and one more than the singletons for a leaf |
| `NodeQueries.CheckSeparationRejectsSeparated` | grandma/src/node.rs:296-310 | as written, a node whose points are all at least `scale` apart is reported as not separated |
| `NodeQueries.CheckSeparationCorrected` | grandma/src/node.rs:296-310 | the documented check: true exactly when the adjacency minimum is at least `scale` |
| `NodeQueries.CheckSeparationCorrectedNegates` | grandma/src/node.rs:296-310 | on every input the store can measure, the documented check answers the opposite of the check as written |

## Left out

- The point store (`distances_to_point`, `distances_to_point_index`, `adj`, `get_metasummary`, `reference_indexes`) is abstract. Distances are reals from an abstract total function. A failure is modelled as "some index cannot be resolved". No `f32` arithmetic or NaN is modelled. `reference_indexes` is a parameter of `NewCovered`.
- The query heap's internals (best-k bounding, tie-breaking, `unpack` ordering, `len` and `node_len`) are left out. Only the log of push calls is modelled. The tests' `heap.len() == 5` and result-order checks depend on those internals.
- `thread_rng` in `pick_center` is replaced by the chosen position parameter.
- Protobuf wire encoding is left out; the record is a plain datatype. The `u64`, `usize` and `i32` casts are the identity on in-range values.
- Integer widths are left out: `cover_count` is unbounded, so the model has no `usize` overflow, and scale indexes are unbounded integers. `find_split` needs no wrap-around: its `len() - 1` is excluded by its non-empty precondition, and `m - 1` is only taken when `m > 0`.
- The radius is an opaque copied real. `set_radius` is a plain overwrite (`Nodes.SetRadius`), with no contract.
- `update_metasummary` and the contents of `MetaSummary` are left out. Only the empty summary that `load` installs is modelled.
- The plain accessors `radius`, `singleton_len`, `singletons`, `center_index` and `scale_index` are the record's fields. `is_leaf` is `Nodes.IsLeaf`.
- The `Debug` impl (data_caches.rs:73-81) and the `SmallVec` inline capacities are left out; sequences are used instead.
- The MNIST and tree-builder tests (node.rs:433-517) depend on code that is not part of this model.
- `DataCaches.ToIndexes`: ownership transfer (the consumed `CoveredData`) is not modelled. Values are immutable, and callers simply do not reuse the old cache.

## Findings

| source | as written | input that shows it | evidently intended | confidence | as-written member | corrected member |
|---|---|---|---|---|---|---|
| grandma/src/node.rs:296-310 | `check_seperation` returns `scale > adj.min()` | any node whose singletons, centre and sibling centres have adjacency minimum 5 with `scale` 1: the node is separated but the check returns false | the doc comment at node.rs:296 says the check verifies that the points are separated by at least `scale`, so it should return `adj.min() >= scale` | medium (the store's `adj` is not part of this model; not executed) | `NodeQueries.CheckSeparation`, exhibited by `NodeQueries.CheckSeparationRejectsSeparated` | `NodeQueries.CheckSeparationCorrected`, related by `NodeQueries.CheckSeparationCorrectedNegates` |
