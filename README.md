# Vantage-point tree, modelled in Dafny

This project models the vantage-point tree (vp-tree) in `client/js/lib/ds/VPTree.js`. It is a
nearest-neighbour index over a set `S` of elements with a caller-supplied distance function. It
has four parts, and each has its own module:

- `Selection` (`selection.dfy`) holds the in-place selection primitive: `partition`,
  `medianOf3`, the iterative quickselect `nth_element` with its 1-based rank, and `select`,
  which wraps it with a 0-based rank. These are methods on an `array`. The error the source
  throws for a rank out of range is a `Failure` result.
- `PriorityQueues` (`priority_queue.dfy`) holds the bounded priority queue. It is a class whose
  `contents` sequence is kept sorted by priority. Its binary search `binaryIndexOf`, `insert`,
  `list` and `length` are members of that class. A ghost multiset records everything ever
  inserted, so the contracts can say which entries the queue keeps.
- `VPTrees` (`vptree.dfy`) holds the builder. The tree is a datatype
  `Node = Null | Bucket(items) | Point(i) | Inner(i, m, M, mu, L, R)`. `RecurseVPTree` builds it
  recursively:
  - it removes a vantage point;
  - it measures every other element's distance to it, recording the minimum `m` and maximum `M`;
  - it splits the rest at the median distance `mu` with `select`;
  - it stops at buckets of at most `nb` elements.

  `Build` and `Load` are the factory entries.
- `VPSearch` (`search.dfy`) holds the k-nearest-neighbour search. `searchVPTree` is a
  depth-first branch-and-bound. It threads a priority queue `W` and a shrinking radius `tau`
  through the recursive `doSearch`.

`Wrappers` (`Option`, `Result`) and `Distances` (`Bound = Finite(r) | Infinity`, the radius with
its unbounded case) are small support modules.

Each build and search operation has a partner:
- The builder is proved to put every index in the tree exactly once. It also keeps the distance
  bounds every inner node records (`Bounded`) and the shape the construction gives (`Shaped`).
- The search is proved sound for every input. Its results are sorted, there are at most `limit`
  of them, and each is a real element of the tree at its true query distance that passes the
  filter and lies inside the radius.
- The search is also proved complete, assuming the query distance and the tree's distance
  satisfy the triangle inequality (`VPSearch.Triangle`), on a tree whose recorded bounds hold
  (`Bounded`, as every tree from `Build` does; a `Load`-ed tree with wrong bounds can lose
  elements). Every eligible element of the tree is
  then either returned, or the result list is full of elements no farther away. Full means
  `limit` results for a positive `limit`; with `limit = 0` (uncapped) every eligible element is
  returned, and with a negative `limit` the queue never inserts. On a tree that
  holds each index once, as `Build` gives, no index is returned twice. Together these are the
  brute-force equivalence up to ties.

Two behaviours of the source are reproduced on purpose:
- A worst priority of `0` returned by `insert` does not tighten the radius (`VPSearch.Tighten`).
- A `maxDistance` of `0` means no bound (`VPSearch.Radius`).

Following the code, the median split puts the items before the median position on the left,
each no farther than `mu`. The median item itself goes on the right with the farther items, each
no closer than `mu`.

## Model

| member | source | states |
|---|---|---|
| Selection.Swap | client/js/lib/ds/VPTree.js:20-22 | exchanges two cells of the array and leaves every other cell and the multiset of the array unchanged |
| Selection.Partition | client/js/lib/ds/VPTree.js:18-36 | the returned `storeIndex` lies in `[left, right]` and holds the old pivot value; everything in `[left, storeIndex)` is comp-less than it and nothing in `(storeIndex, right]` is; cells outside `[left, right]` are unchanged and the range is a permutation of what it was |
| Selection.MedianOf3 | client/js/lib/ds/VPTree.js:40-45 | returns one of `a`, `b`, `c`; for an asymmetric comparator the returned element lies between the other two |
| Selection.PartitionStep | client/js/lib/ds/VPTree.js:69-84 | one quickselect step keeps the outer split points of the narrowed range and adds split points on both sides of the pivot's final place, which is the loop invariant of `nth_element` |
| Selection.RangeKeepsMultiset | client/js/lib/ds/VPTree.js:72-83 | permuting the current sub-range keeps the multiset of the whole `[left, right]` range |
| Selection.SplitSelects | client/js/lib/ds/VPTree.js:47-50 | being split at `k` and at `k + 1` means that the element at `k` is the one of that rank: nothing before it compares greater, nothing after it compares less |
| Selection.NthElement | client/js/lib/ds/VPTree.js:66-85 | an `nth` outside `[1, right-left+1]` is an error and changes nothing; otherwise the result is the element at `left+nth-1`, nothing to its left compares greater, nothing to its right compares less, the range is a permutation of what it was and cells outside it are unchanged |
| Selection.Select | client/js/lib/ds/VPTree.js:92-97 | a `k` outside `[0, length)` is an error and changes nothing; otherwise the result is the element of rank `k` left at position `k`, with the array split at `k` and `k + 1` and permuted |
| Selection.PermutationKeeps | client/js/lib/ds/VPTree.js:18-36 | a property held by every element of a list holds for every element of any permutation of it, as the in-place swaps produce |
| PriorityQueues.PriorityQueue.constructor | client/js/lib/ds/VPTree.js:255-256 | a new queue has the given cap, empty contents and nothing inserted |
| PriorityQueues.PriorityQueue.Length | client/js/lib/ds/VPTree.js:284-286 | the number of queued entries, which never exceeds a positive cap |
| PriorityQueues.PriorityQueue.BinaryIndexOf | client/js/lib/ds/VPTree.js:258-280 | on sorted contents, returns an index holding exactly the priority, or `-1 - p` where `p` is the sorted insertion point: everything before `p` has a smaller priority and everything from `p` on a larger one |
| PriorityQueues.PriorityQueue.Insert | client/js/lib/ds/VPTree.js:288-298 | keeps the queue invariant over everything offered, counting copies; drops the entry exactly when the cap is non-zero and better entries fill it, otherwise splices it in at a sorted insertion point and evicts the tail; returns `Worst` of the new contents, which bounds every queued priority; every entry the queue accounted for stays accounted for |
| PriorityQueues.PriorityQueue.List | client/js/lib/ds/VPTree.js:300-302 | hands out every entry as a result with `i` the datum and `d` the priority, in the queue's order, so sorted by distance |
| PriorityQueues.InsertKeepsInvariant | client/js/lib/ds/VPTree.js:288-296 | an insertion at the binary search's insertion point keeps the queue invariant: sorted, within the cap, made only of offered entries, and every offered entry it does not hold, counted with multiplicity, no better than all it holds, with the queue full; so it holds the cap's worth of smallest priorities offered so far. The entry is rejected exactly when the cap is non-zero and its insertion point reaches it |
| PriorityQueues.InvariantCovers | client/js/lib/ds/VPTree.js:288-298 | under the invariant, every offered entry is held or the full queue holds only entries no worse than it |
| PriorityQueues.Spliced | client/js/lib/ds/VPTree.js:292-295 | the splice keeps the entries before the insertion point, puts the new entry at it, and has one more entry than before unless the cap is exceeded; the multiset gains the new entry and, on eviction, loses exactly the old tail (or the new entry itself when it went last) |
| PriorityQueues.Worst | client/js/lib/ds/VPTree.js:297 | a report exactly when the cap is non-zero and the queue holds that many entries; the reported priority is one the queue holds and, on sorted contents, no queued priority exceeds it |
| PriorityQueues.SplicedKeepsInvariant | client/js/lib/ds/VPTree.js:291-295 | splicing an entry in at its insertion point below the cap, with or without eviction, keeps the invariant for everything offered, accounts for every entry already accounted for, and keeps every full-queue bound the entry respects |
| PriorityQueues.EvictsTail | client/js/lib/ds/VPTree.js:293-295 | when a full queue takes a new entry, dropping the tail leaves a sorted queue of exactly the cap's length whose entries are all no worse than the dropped one, and the dropped tail is the only old entry lost |
| PriorityQueues.EvictedKeepsCovers | client/js/lib/ds/VPTree.js:293-295 | after an eviction both the dropped tail and the new entry remain accounted for, as a queue full of entries no worse than them |
| PriorityQueues.RejectedKeepsInvariant | client/js/lib/ds/VPTree.js:291 | an entry whose insertion point is at or past a non-zero cap is rejected, and the unchanged queue still satisfies the invariant for everything inserted |
| PriorityQueues.SplicedParts | client/js/lib/ds/VPTree.js:292 | inserting an entry at its insertion point keeps the contents sorted, adds exactly the new entry to the multiset and loses no old entry |
| PriorityQueues.CoversKeptTrans | client/js/lib/ds/VPTree.js:288-298 | "every accounted-for entry stays accounted for" composes over successive insertions |
| PriorityQueues.WithinMonotone | client/js/lib/ds/VPTree.js:297 | a full queue whose priorities are all within `t` has them within any larger bound |
| VPTrees.SelectVPIndex | client/js/lib/ds/VPTree.js:108-110 | the vantage position is within the list, and it is the caller's pick whenever that pick is in range |
| VPTrees.DistanceComparator | client/js/lib/ds/VPTree.js:112 | `a` does not come before `b` exactly when `b` is no farther from the vantage point, which is what the median split reads off `select` |
| VPTrees.ComparatorIsStrict | client/js/lib/ds/VPTree.js:112 | comparing items by distance is a strict order, as `select` needs |
| VPTrees.MeasureDistances | client/js/lib/ds/VPTree.js:170-185 | each remaining item gets its distance to the vantage point; `m` is the smallest of them and `M` the largest, never below 0 |
| VPTrees.IdsOfPermutation | client/js/lib/ds/VPTree.js:187-189 | reordering the items by `select` keeps the multiset of their indices |
| VPTrees.MedianSplits | client/js/lib/ds/VPTree.js:188-194 | after selecting the median position, the items before it are no farther than the median and the items from it on are no closer |
| VPTrees.SelectedParts | client/js/lib/ds/VPTree.js:187-193 | the two halves of the selected items hold exactly the remaining indices, each within its distance bounds |
| VPTrees.SplitAroundMedian | client/js/lib/ds/VPTree.js:170-194 | `m` is the smallest distance from the vantage point to a remaining index and `M` the largest, or 0 when that is larger; the left part has `n/2` indices with distances in `[m, mu]` and the right part the rest with distances in `[mu, M]`, together exactly the remaining indices; `mu` is the right part's first distance |
| VPTrees.InnerBounded | client/js/lib/ds/VPTree.js:184-196 | an inner node built from bounded subtrees over the two parts satisfies the distance bounds |
| VPTrees.InnerShaped | client/js/lib/ds/VPTree.js:188-196 | an inner node over the two halves is balanced, its left side at most one element smaller |
| VPTrees.InnerCount | client/js/lib/ds/VPTree.js:162-196 | the vantage point plus the two subtrees hold exactly the input indices |
| VPTrees.RecurseVPTree | client/js/lib/ds/VPTree.js:146-198 | returns `null` exactly for an empty list, a bucket exactly when `nb > 0` and the list is no longer than `nb`, with the list's indices in order; the tree holds every input index exactly as often as the list does and satisfies the distance bounds at every inner node |
| VPTrees.CountRange | client/js/lib/ds/VPTree.js:134-140 | the list `0, 1, ..., n-1` holds each index below `n` exactly once and nothing else |
| VPTrees.Build | client/js/lib/ds/VPTree.js:122-144 | the tree indexes every element of `S` exactly once and nothing else, satisfies the distance bounds and the construction's shape, and is empty exactly for an empty `S` |
| VPTrees.BuildFromCount | client/js/lib/ds/VPTree.js:123-143 | a count below 0 or past the largest array length is the RangeError of `new Array`; otherwise the element set is `0..n-1` and the tree indexes each of them exactly once, with the distance bounds and the construction's shape |
| VPTrees.Load | client/js/lib/ds/VPTree.js:420-422 | `VPTreeFactory.load` wraps its arguments in a new `VPTree` object (:403-406): the loaded tree has exactly the given elements, distance and structure |
| VPSearch.Radius | client/js/lib/ds/VPTree.js:327-328 | the radius is unbounded exactly when the maximum distance is missing or 0, and otherwise equals it |
| VPSearch.QueryDistance | client/js/lib/ds/VPTree.js:331 | the query distance is the caller's when one is given, else the tree's own |
| VPSearch.Passes | client/js/lib/ds/VPTree.js:345 | with no filter every element passes; with one, exactly the elements it accepts |
| VPSearch.AboveLower | client/js/lib/ds/VPTree.js:374-375 | the lower-bound test fails exactly for a finite radius with `dist + tau <= lo`, so only a subtree entirely at least `tau` away from the query by the triangle inequality is skipped |
| VPSearch.BelowUpper | client/js/lib/ds/VPTree.js:378-379 | the upper-bound test fails exactly for a finite radius with `hi + tau <= dist`, so only a subtree entirely at least `tau` away from the query by the triangle inequality is skipped |
| VPSearch.Tighten | client/js/lib/ds/VPTree.js:346 | a reported worst priority other than 0 becomes the radius; no report, or a report of 0, keeps the radius |
| VPSearch.FarIsCovered | client/js/lib/ds/VPTree.js:344 | an eligible element at least `tau` away, which the test skips, is already accounted for by the queue |
| VPSearch.PrunedBelow | client/js/lib/ds/VPTree.js:374-375 | under the triangle inequality, a subtree whose elements lie within the recorded bounds and that is skipped because its lower bound less `tau` is not below the query's distance holds no element that the queue is missing |
| VPSearch.PrunedAbove | client/js/lib/ds/VPTree.js:378-379 | under the triangle inequality, a subtree whose elements lie within the recorded bounds and that is skipped because its upper bound plus `tau` is not above the query's distance holds no element that the queue is missing |
| VPSearch.CoveredPartKept | client/js/lib/ds/VPTree.js:373-380 | a part of the tree the queue accounts for stays accounted for through later insertions |
| VPSearch.Offer | client/js/lib/ds/VPTree.js:344-348 | an element closer than `tau` that passes the filter is offered to the queue once and `tau` becomes `Tighten` of the queue's reported worst priority; any other element leaves the queue and `tau` unchanged; afterwards an eligible element is accounted for, everything queued is sound and `tau` is still justified by the queue |
| VPSearch.Accepted | client/js/lib/ds/VPTree.js:345-346 | an accepted insertion keeps the queue sound, makes the tightened radius justified and accounts for the new entry |
| VPSearch.SearchBucket | client/js/lib/ds/VPTree.js:338-350 | offering every bucket element in turn offers each at most once per occurrence and accounts for every eligible element of the bucket |
| VPSearch.BucketStep | client/js/lib/ds/VPTree.js:339-349 | one more bucket element offered extends the offered and accounted-for prefix of the bucket by that element |
| VPSearch.DoSearch | client/js/lib/ds/VPTree.js:334-381 | visiting a subtree offers only its elements, each at most once per occurrence, keeps the queue sound and `tau` justified, and, under the triangle inequality on a tree whose recorded bounds hold (`Bounded`, as every tree from `Build` does), accounts for every eligible element of the subtree |
| VPSearch.SearchInner | client/js/lib/ds/VPTree.js:353-365 | offers the vantage point, which is then accounted for whatever the triangle inequality, and then visits the children; offers only the node's elements, and under the triangle inequality on a tree whose recorded bounds hold (`Bounded`, as every tree from `Build` does) accounts for every eligible element of the node |
| VPSearch.SearchChildren | client/js/lib/ds/VPTree.js:367-380 | visits the two children through their bound tests; offers only the children's elements, loses no covered entry, and under the triangle inequality on a tree whose recorded bounds hold (`Bounded`, as every tree from `Build` does) accounts for every eligible element of both children |
| VPSearch.SecondVisit | client/js/lib/ds/VPTree.js:373-380 | after the second child's visit, the first child stays accounted for and the offers come from both children |
| VPSearch.Descend | client/js/lib/ds/VPTree.js:373-380 | a child that is null or fails its bound test is skipped, leaving the queue and `tau` unchanged; a visited child offers only its own elements; a skipped child has, under the triangle inequality on a tree whose recorded bounds hold (`Bounded`, as every tree from `Build` does), nothing the queue is missing |
| VPSearch.Skipped | client/js/lib/ds/VPTree.js:373-380 | a child skipped because it is null or fails its bound test holds, under the triangle inequality on a tree whose recorded bounds hold (`Bounded`, as every tree from `Build` does), no eligible element the queue is missing |
| VPSearch.InnerCovered | client/js/lib/ds/VPTree.js:360-380 | the vantage point accounted for after its test and both children after their visits account for the whole node, and no covered entry is lost over the two steps |
| VPSearch.InnerOffered | client/js/lib/ds/VPTree.js:353-380 | the vantage point's offer followed by the children's offers come exactly from the node's indices |
| VPSearch.OfferedTrans | client/js/lib/ds/VPTree.js:334-381 | offering from one set of indices and then another offers from their union |
| VPSearch.OfferedOne | client/js/lib/ds/VPTree.js:346 | inserting one entry offers from its own index, and inserting nothing offers from any indices |
| VPSearch.ChildrenWithin | client/js/lib/ds/VPTree.js:371-379 | the children of a node in the tree are in the tree and keep its index bounds |
| VPSearch.SearchResults | client/js/lib/ds/VPTree.js:383-385 | the final queue's list is sorted, within a positive `limit`, empty for a negative one, and sound; when each tree index occurs once, no index is listed twice; under the triangle inequality on a tree whose recorded bounds hold (`Bounded`, as every tree from `Build` does) every eligible element is listed, or the list holds exactly `limit > 0` entries (any list when `limit < 0`) no farther; with `limit = 0` every eligible element is listed |
| VPSearch.ResultsSound | client/js/lib/ds/VPTree.js:385 | every listed hit comes from an offered entry, so it is an element of the tree at its true query distance, passing the filter and inside the radius |
| VPSearch.ResultsComplete | client/js/lib/ds/VPTree.js:385 | a queue that accounts for every eligible element lists each of them, or holds exactly `size > 0` entries (any number when `size < 0`) no farther; an uncapped queue (`size = 0`) lists every one |
| VPSearch.DistinctData | client/js/lib/ds/VPTree.js:383-385 | when every index was offered at most once, two queued entries at different positions have different indices |
| VPSearch.Search | client/js/lib/ds/VPTree.js:325-386 | results are ordered by increasing distance, at most `limit` of them when `limit > 0`; each is an element of the tree at its true query distance that passes the filter and is closer than the maximum distance; on a tree holding each index once, as `Build` gives, no index is returned twice; under the triangle inequality on a tree whose recorded bounds hold (`Bounded`, as every tree from `Build` does) each eligible element is returned, or there are exactly `limit > 0` results (any when `limit < 0`) all no farther; with `limit = 0` every eligible element is returned |

## Left out

- `stringify` is not modelled. Its output depends on how JavaScript formats floating-point distances.
- The `comparisons` counter and the commented-out `hist` field are not modelled. They are diagnostics that influence nothing.
- `Math.random` in `selectVPIndex` is not modelled. The draw is a caller-supplied function `pick`, taken modulo the list length. No claim is made about the tree's quality.
- Distances are exact reals, and an unbounded radius is the `Infinity` case of `Bound`. IEEE-754 behaviour is not modelled: NaN distances, and `Infinity` arithmetic other than "minus or plus an infinite radius admits everything".
- Search: when `limit` is left undefined, the queue is uncapped. That is `limit = 0` here, since both are falsy to the queue. A negative `limit` gives a queue that never inserts.
- Search requires every index in the tree to address an element of `S`. On other trees the source would read `undefined` elements. Trees from `Build` satisfy it.
- A `Load`-ed structure with an empty bucket array is not modelled as the source reads it. The source treats an empty array as a non-leaf node with no vantage point; the model's `Bucket([])` holds nothing. Built trees never have empty buckets.
- VPSearch.Search: completeness is stated only under the triangle-inequality hypothesis `Triangle` and only on a tree whose recorded bounds hold (`Bounded`). Every tree from `Build` is bounded; a tree passed to `Load` with wrong bounds is not, and the source's pruning can then skip an element (for example `S = [0, 10]`, tree `Inner(0, 0, 0, 0, Null, Point(1))`, query 10, limit 1 misses index 1). Among elements at the same distance as the last result, which ones are kept is not stated.
- VPTrees.RecurseVPTree: the source splices the caller's item list in place and writes `dist` into the items. The model measures into a fresh array of items and passes index sequences down, so that aliasing of the caller's list is not modelled.
- VPTrees.BuildFromCount: a count that is not an integer (a fraction or NaN), for which `new Array` also throws, is not modelled; the count is an integer.
- VPTrees.BuildFromCount: `listLength >> 1` in `recurseVPTree` (VPTree.js:188), like the other halvings below, is a 32-bit signed shift in JavaScript; the model halves exactly. For lists of 2^30 elements or more the shifts can turn negative, so the source reads `undefined` or `select` throws (from a count of 2^31 + 1 with no buckets), while the model returns `Success`. Such sizes are outside the model.
- VPTrees.RecurseVPTree: the split size `listLength >> 1` (VPTree.js:188) is a 32-bit signed shift in JavaScript; the model halves exactly, so lists of 2^31 elements or more are outside the model.
- Selection.NthElement: the midpoint `(left + right) >> 1` (VPTree.js:71) is a 32-bit signed shift in JavaScript; the model halves exactly, so ranges with `left + right` of 2^31 or more are outside the model.
- Selection.Select: inherits the exact halving of `Selection.NthElement`; arrays of 2^30 elements or more are outside the model.
- PriorityQueues.PriorityQueue.BinaryIndexOf: the midpoint `(minIndex + maxIndex) >> 1` (VPTree.js:265) is a 32-bit signed shift in JavaScript; the model halves exactly, so queues of 2^30 entries or more are outside the model.
- VPSearch.SearchChildren: the order in which the two children are visited (right first when the vantage point's distance is at least `mu`) is in the method body but not in its contract. The order changes only which of several equally distant elements are kept and how much is pruned, and stating it would need a trace of every visit.
- VPSearch.Offer: the contract states that the entry is offered to the queue and how `tau` changes, not where it is spliced; that is `PriorityQueue.Insert`'s contract.
- VPTrees.Load: its contract only restates the three fields, because loading does no work.
- `server/proj/scannet/index.js` is not part of this model. It is web-route glue with no algorithmic content.
