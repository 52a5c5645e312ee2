# KDTree-Rust in Dafny

This project models KDTree-Rust, an in-memory k-nearest-neighbour index
over K-dimensional points that carry a payload. It is written in Dafny 4.11
and its properties are proved there.

- `KDTree::build` sorts the points on a randomly drawn axis, stores the
  median element at the node together with the bounding box of all the
  points, and recurses on the two halves.
- `search` (through `search_bfs_impl`) walks the tree with a `VecDeque` used
  as a stack: both children are added with `push_front` and taken with
  `pop_front`, so the walk is depth-first, right child first. It keeps
  a bounded max-heap of `(distance, payload)` pairs (`OrdT`). A subtree is
  pruned when the lower bound `cdist` of its box exceeds the heap's largest
  distance.
- `batch_search` cuts the queries into `DIVIDE = 8` contiguous chunks. It
  searches each chunk and concatenates the answers in chunk order.
- `StupidKNN` is the brute-force oracle used by the tests.
- The test `check_sanity` checks that the tree and the oracle give the same
  answers, compared as sets of `OrdT`.

The modules follow the source files:

- `Util` (util.dfy) covers `src/util.rs`: `pdist`, `BoundBox::cdist`,
  `BoundBox::from_vec` and the comparison traits of `OrdT`.
- `Knn` (knn.dfy) covers the bounded heap both searches share. The heap is a
  `seq<OrdT<T>>`. `Offer` stands for `push` followed by `pop` when the heap
  has grown past k, and `Peek` stands for `peek`. The predicate
  `KNearest(h, all, k)` is the specification of the heap: h is a sub-multiset
  of `all` with `min(k, |all|)` entries, and no entry left out is closer than
  an entry kept.
- `Batch` (batch.dfy) covers the chunk arithmetic of both `batch_search`
  functions.
- `KdTree` (kdtree.dfy) covers `src/lib.rs`:
  - the tree datatype;
  - `build`, both as the function `Build` and as the recursive method
    `BuildTree` proved equal to it;
  - the imperative search loop;
  - `search` and `batch_search`.
- `Baseline` (baseline.dfy) covers `src/baseline.rs`. `StupidKNN::build` only stores
  the data, so `Baseline.Build` is that identity and has no property of its own.
- `Sanity` (sanity.dfy) covers the `check_sanity` test: on any data and
  queries, the tree's answers and the oracle's answers have the same sets of
  distances.

How the source is modelled:

- Points are `seq<real>`.
- The distance is `pdist` with p = 1, i.e. the sum of absolute differences
  (`Util.Dist`).
- `Option<Box<KDTree>>` becomes the `Empty` constructor of the tree
  datatype.
- `thread_rng()` becomes a function `draws: nat -> nat` and a counter of the
  draws used so far.

## Model

| member | source | states |
|---|---|---|
| Util.PDist | src/util.rs:4-9 | the loop's accumulated sum equals the p = 1 distance, the sum of absolute coordinate differences |
| Util.DistIsMetric | src/util.rs:4-9 | the distance is non-negative, zero on equal points, symmetric, and satisfies the triangle inequality |
| Util.CDist | src/util.rs:22-25 | `pdist(x, cent) - pdist(0, diff)` is at most the distance from x to every point inside the box |
| Util.BoxOf | src/util.rs:27-43 | the box from from_vec has K half-widths and K centre coordinates, its half-widths are non-negative, and every scanned point lies inside it |
| Util.MinMaxBound | src/util.rs:30-35 | the scanned maximum and minimum of a coordinate bound that coordinate of every point |
| Util.MinMaxAttained | src/util.rs:30-35 | the scanned maximum and minimum of a coordinate are each attained by some point |
| Util.BoxOfTight | src/util.rs:38-41 | each face of the box touches a point: the centre plus or minus the half-width is a coordinate of some point |
| Util.Widen | src/util.rs:31-34 | one pass of the inner loop raises each entry of the max corner to the point's coordinate and lowers each entry of the min corner to it, and changes nothing else |
| Util.Corners | src/util.rs:28-35 | after all points are scanned, corner entry a is the largest and the smallest coordinate a over the points |
| Util.FromVec | src/util.rs:27-43 | the corner loops and the centre/half-width loop produce exactly the box BoxOf describes |
| Util.Eq | src/util.rs:51 | OrdT equality holds exactly when partial_cmp says Equal |
| Util.Ne | src/util.rs:52 | ne is the negation of eq |
| Util.PartialCmp | src/util.rs:55-63 | Less, Equal and Greater hold exactly when the distances compare that way |
| Util.Cmp | src/util.rs:69-71 | cmp says Less, Equal and Greater exactly when the distances compare that way, and Equal exactly when eq holds |
| Util.CmpIsTotalOrder | src/util.rs:59-61 | cmp is reflexive, antisymmetric and transitive, i.e. a total preorder |
| Util.CmpIgnoresPayload | src/util.rs:50-62 | changing the payloads changes neither cmp nor eq |
| Knn.CandsOfPerm | src/lib.rs:145-146 | two indexes built from the same pairs in a different order yield the same multiset of heap entries for a query |
| Knn.Peek | src/lib.rs:59 | peek returns an entry of the heap whose distance is the largest in the heap |
| Knn.Offer | src/lib.rs:57-58 | push then pop-when-over-k on a heap of at most k entries keeps k smallest entries of the old heap plus the new one |
| Knn.OfferKeeps | src/baseline.rs:21-24 | if the heap keeps k smallest of what it has seen, then after one offer it keeps k smallest of what it has seen plus the new entry |
| Knn.PruneKeeps | src/lib.rs:60-63 | when a subtree's lower bound exceeds the heap's largest distance, the heap is full and still keeps k smallest after that subtree's entries are added unseen |
| Knn.KNearestSameDists | src/lib.rs:154-160 | any two k-smallest selections from the same entries have the same multiset of distances |
| Batch.ChunkStart | src/lib.rs:84 | chunk 0 starts at 0 and every chunk starts within the n queries |
| Batch.ChunkEnd | src/lib.rs:85-95 | each chunk ends at or after its start and within the n queries; each of the first seven ends where the next one starts, and the last ends at n |
| Batch.BoundsOrdered | src/lib.rs:81-95 | the chunk boundaries start at 0, end at n and never decrease |
| Batch.ChunksCover | src/lib.rs:81-103 | the chunks concatenated in order visit the indices 0, 1, ..., n - 1 exactly once and in order |
| KdTree.SortOn | src/lib.rs:27 | sort_by on axis t gives a permutation of the data of the same length that is ordered on coordinate t |
| KdTree.SortOnStable | src/lib.rs:27 | for every key value, the pairs with that key on axis t appear in the sorted result in the same order as in the input, as the stable sort_by keeps them |
| KdTree.InsertOnStable | src/lib.rs:27 | inserting one pair into a sorted run places it ahead of every pair with the same key and keeps their order |
| KdTree.PlaceStable | src/lib.rs:27 | a pair placed after the entries with smaller keys comes first among the entries sharing its key |
| KdTree.Axis | src/lib.rs:26 | the drawn axis is below K |
| KdTree.Build | src/lib.rs:24-36 | the tree is None exactly for no data, and its nodes hold exactly the given pairs, as many as were given |
| KdTree.BuildWf | src/lib.rs:28-35 | every node stores a K-dimensional box that contains every point of its subtree |
| KdTree.BuildPivot | src/lib.rs:27-30 | the node keeps sorted[len / 2] as its pair and the box of all the sorted points |
| KdTree.BuildShape | src/lib.rs:29-34 | the left subtree is built from the len / 2 pairs before the pivot with the next draw, and the right subtree from the pairs after it with the draws after those the left used |
| KdTree.PivotSplit | src/lib.rs:27-32 | in a sequence sorted on t, every pair of any rearrangement of the prefix before position i is at most s[i] on t, and every pair of any rearrangement of the suffix after it is at least s[i] on t |
| KdTree.BuildOrdered | src/lib.rs:27-34 | every point on the left is at most the pivot on the drawn axis, and every point on the right is at least it |
| KdTree.BuildTree | src/lib.rs:24-36 | the recursive build returns exactly the tree Build describes and uses one draw per pair |
| KdTree.BoxBoundsCands | src/lib.rs:52 | cdist of a node's box is at most the distance from the query to every point of that subtree |
| KdTree.PushFront | src/lib.rs:61-62 | pushing a child to the front adds exactly that subtree's entries to the pending work |
| KdTree.PushChildren | src/lib.rs:61-62 | pushing both children adds exactly the entries of both subtrees to the pending work |
| KdTree.Visit | src/lib.rs:56-63 | one visit accounts for the node's own entry and, when it prunes, for its subtrees, and it keeps the heap a k-smallest selection of what has been accounted for |
| KdTree.SearchBfsImpl | src/lib.rs:41-66 | after the loop the heap holds k smallest entries among all pairs of the tree |
| KdTree.Search | src/lib.rs:68-72 | search returns k smallest (distance, payload) pairs of the tree, min(k, n) of them |
| KdTree.SearchChunk | src/lib.rs:86-91 | a worker answers queries start..end in order |
| KdTree.FanOut | src/lib.rs:80-102 | the eight workers' results: worker c returns one answer per query of chunk c, in order, each holding k smallest pairs |
| KdTree.FanIn | src/lib.rs:103 | joining the workers in order gives one answer per query, answer j holding k smallest pairs for query j |
| KdTree.BatchSearch | src/lib.rs:73-105 | batch_search returns one answer per query, in query order, and answer j holds k smallest pairs for query j |
| Baseline.Search | src/baseline.rs:18-26 | the scan returns k smallest pairs of all stored pairs, min(k, n) of them (none for k = 0) |
| Baseline.SearchChunk | src/baseline.rs:40-45 | a worker answers queries start..end in order |
| Baseline.FanOut | src/baseline.rs:34-56 | the eight workers' results: worker c returns one oracle answer per query of chunk c, in order, each holding k smallest stored pairs |
| Baseline.FanIn | src/baseline.rs:57 | joining the workers in order gives one oracle answer per query, in query order |
| Baseline.BatchSearch | src/baseline.rs:27-59 | one answer per query, in query order, and answer j holds k smallest stored pairs for query j |
| Sanity.EqAsSet | src/lib.rs:123-127 | two answers are equal as BTreeSets of OrdT: each entry has an eq-equal entry in the other, both ways |
| Sanity.CoveredIffDists | src/lib.rs:123-127 | every entry of one answer has an eq entry in the other exactly when the first answer's distances are among the second's |
| Sanity.EqAsSetIffDists | src/lib.rs:123-127 | two answers are equal as sets of OrdT exactly when they have the same set of distances |
| Sanity.SearchAgreesWithOracle | src/lib.rs:154-160 | a tree answer and an oracle answer over the same pairs have the same distances, counted with multiplicity and as sets |
| Sanity.CheckSanity | src/lib.rs:129-162 | building both indexes from the same data and batch searching them gives, for every query, answers that are equal as sets of OrdT under eq, as eq_as_set checks |

## Left out

- Threads: `Arc` and `std::thread::spawn`/`join` are not modelled. The eight chunks are searched one after another and their results are concatenated in chunk order. This gives the same result, because the tree is only read.
- Floating point: `f32` rounding, `powf` and a general exponent p are not modelled. The distance is the p = 1 norm over reals. The test uses p = 2.0; the model proves its properties for p = 1 only.
- NaN: the panics of `partial_cmp`, and the `unwrap` in `sort_by`, cannot happen over reals. They are not modelled.
- Util.FromVec: requires at least one point. The `f32::MIN`/`f32::MAX` starting corners are not modelled; each corner starts at the first point's coordinate instead. The two agree for every non-empty input, and `build` never boxes an empty one.
- KdTree.Build: requires K > 0 (`dim > 0`) when there is data, and so does KdTree.Axis. With K = 0, `gen::<usize>() % K` in `build` panics.
- `thread_rng`: the random source is a parameter `draws`, so every drawn axis is possible.
- KdTree.SortOn: `sort_by` is modelled as an insertion sort that returns the sorted sequence. It does not reorder the vector in place. The sort is stable (KdTree.SortOnStable), so for the same draws the tree is the one `sort_by` gives.
- `BinaryHeap` and `VecDeque`: their internal layouts are not modelled.
  - The heap is a sequence of entries, and pop removes an entry of largest distance.
  - Which entry pop removes among several equal largest distances is not fixed.
- `into_iter().map(...)`: `search` returns `OrdT` pairs instead of tuples. The order of the returned pairs is not stated.
- The test's data generation, and the benchmarks `bench_throughput` and its neighbours (timing), are not modelled.
- KdTree.Search: requires k >= 1. With k = 0, `h.peek().unwrap()` in `search_bfs_impl` panics on the empty heap.
- KdTree.Search: the contract does not say which pairs are returned when distances tie. It says they are k smallest, which is what the oracle comparison relies on.
- Sanity.CheckSanity: requires non-empty data, because the test unwraps `KDTree::build`.
