# iitii in Dafny

A model of `iitii.h`, the implicit interval tree with an interpolation index, together with proofs about it.

**The base tree (`iit_base`).** The items are sorted by begin position. They are laid out as the in-order array of a perfect binary tree. The level of rank r is its number of trailing one bits, and imaginary ranks past the array complete the tree. Every real node carries `inside_max_end`, the largest end in its subtree. A query [qbeg, qend) scans top-down from the root and prunes subtrees whose `inside_max_end` does not reach past qbeg. At levels 0 to 2 it switches to a linear loop over the subtree's ranks.

**The index (`iitii`).** Every node also carries `outside_max_end`, the largest end among the items outside its subtree that begin before it. A query first predicts a start node from a per-domain model. It then climbs parent by parent until nothing outside the current subtree can overlap the query, and scans that subtree.

Modules, one per file:

- `Arith` (arith.dfy): powers of two and the integer division facts the proofs need.
- `Options` (option.dfy): `Option`, which stands for the source's `nrank` sentinel.
- `Geometry` (geometry.dfy): `level`, the children, `parent`, the leftmost and rightmost leaves, and the rank/level-rank conversions.
- `Intervals` (intervals.dfy): the item order and the overlap test. Also `Matches`, the reference answer: every rank in a range whose item overlaps the query, in ascending order.
- `ImplicitTree` (tree.dfy): the constructor of `iit_base`, covering the geometry, the right border and the bottom-up `inside_max_end` pass.
- `TreeScan` (scan.dfy): `scan` and `overlap` of `iit_base`.
- `Iitii` (iitii.dfy): `outside_min_beg`, `outside_max_end`, `which_domain`, `interpolate`, `predict`, the constructor and the climbing `overlap`.
- `HeaderExample` (examples.dfy): the worked example from the header comment.

The main results:

- `TreeScan.OverlapCorrect`: on a valid tree, the base query returns exactly the overlapping ranks in rank order.
- `Iitii.IitiiOverlapCorrect`: the index query returns the same hits as the base query for every prediction the model could make.
- `ImplicitTree.Build` and `Iitii.BuildIndex`: the constructors produce exactly those valid structures.

## Model

| member | source | states |
|---|---|---|
| Intervals.LessIsStrictTotalOrder | iitii.h:69-75 | The node order is irreflexive, transitive, asymmetric and total on distinct intervals. It orders by beg, then by end. |
| Intervals.SortedIsSortedByBeg | iitii.h:69-75 | An array sorted by the node order has non-decreasing begs, which is what the constructor's debug assertion demands. |
| Intervals.AdjacentSortedIsSorted | iitii.h:225-230 | The constructor's debug assertion on adjacent pairs passes exactly when every item begins no later than every later item. |
| Intervals.MatchesMembers | iitii.h:188-192 | The reference answer holds a rank exactly when its item ends after qbeg and begins before qend, and lists the ranks in strictly increasing order. |
| Intervals.MaxEndIsMax | iitii.h:574-577 | The maximum end over a range bounds every end in the range and is attained by one of them. |
| Geometry.LevelTrailingOnes | iitii.h:98-108 | A rank is on level k exactly when its k low bits are ones and bit k is zero. Level 0 means even. |
| Geometry.LevelRankRoundTrip | iitii.h:442-448 | `rank_of_levelrank(k, o)` lies on level k, and `levelrank_of_rank` gives o back. |
| Geometry.RankLevelRankRoundTrip | iitii.h:442-448 | Every rank is `rank_of_levelrank` of its own level and level-rank. |
| Geometry.NodeShape | iitii.h:442-444 | The node with level-rank o on level k has the expected leaf range, and on levels above 0 its children are the level-rank 2o and 2o+1 nodes one level down. |
| Geometry.ChildrenOfNode | iitii.h:131-147 | A node has children exactly when its level is above 0. They sit at n minus and plus 2^(k-1), one level down, and split the node's leaf range at n. |
| Geometry.ChildOfParent | iitii.h:110-125 | `parent` has no answer exactly at the root. Otherwise the parent is one level up and has n as its left or its right child. |
| Geometry.ParentOfChildren | iitii.h:110-147 | The parent of either child of a node is that node, unless the child is the root passed in. |
| Geometry.SubtreeIsRange | iitii.h:149-169 | The ranks under a node are exactly those from its leftmost to its rightmost leaf. |
| Geometry.SameLevelContainment | iitii.h:149-169 | Two nodes on the same level whose leaf ranges share a rank are the same node. |
| Geometry.RootShape | iitii.h:223 | The root 2^R - 1 is on level R and spans the ranks 0 to 2^(R+1) - 2. |
| Geometry.ParentInTree | iitii.h:111-125 | A non-root rank inside the full tree has a parent inside it, one level up, whose leaf range covers its own. |
| ImplicitTree.RightmostRealLeaf | iitii.h:235-237 | The rightmost real leaf is an even, level-0 rank among the last two of the array. |
| ImplicitTree.ImpliedGeometry | iitii.h:220-223 | The geometry loop gives root 2^R - 1. The empty array gets R = 0 and full_size 0. Any other array gets the least R >= 1 whose full tree of 2^(R+1) - 1 ranks holds it. |
| ImplicitTree.GeometryMinimal | iitii.h:221-222 | No full tree with a root level from 1 to rootLevel - 1 holds the array: each such tree has fewer nodes than the array has items. |
| ImplicitTree.GeometryUnique | iitii.h:221-223 | The geometry is determined by the array length. |
| ImplicitTree.SingleNodeGeometry | iitii.h:221-223 | A one-item array gets height 1, full_size 3 and the imaginary root 1. |
| ImplicitTree.RightBorder | iitii.h:232-240 | The memoized border has one node per level, from the rightmost real leaf to the root. Each holds that leaf under it and is the parent of the one below. |
| ImplicitTree.BorderStep | iitii.h:238-239 | Below the root, the parent of the topmost border node recorded so far exists, and appending it keeps the path well formed, one level higher, with every node inside the tree and covering the rightmost real leaf. |
| ImplicitTree.ImaginaryRightChild | iitii.h:251-256 | A real node whose right child is imaginary is the border node of its level. Its subtree maximum combines its own end, its left child's and that of the level-(k-1) border node, which is one of its children. |
| ImplicitTree.ImaginaryBorder | iitii.h:260-263 | An imaginary border node's real part is the real part of the border node below it, so the tracked border value carries over unchanged. |
| ImplicitTree.IndexLevel | iitii.h:244-264 | Say every real node below level k holds its subtree's largest end, and the others hold their own end. Then one pass over level k extends this to level k, leaves the levels above at their own end, and leaves as the tracked border value the largest end under the level-k border node. |
| ImplicitTree.InsideMaxEnd | iitii.h:242-265 | After the bottom-up indexing, every real node's `inside_max_end` is the largest end among the real nodes of its subtree. |
| ImplicitTree.Build | iitii.h:215-267 | From any beg-sorted array, the constructor yields a valid tree over the same items. |
| ImplicitTree.InsideMaxEndIsSubtreeMax | iitii.h:57 | A valid tree's `inside_max_end` bounds every end in the node's subtree and is the end of one of its real nodes. |
| TreeScan.LeafScan | iitii.h:183-195 | The low-level loop stops at the first rank that begins at or after qend, or past the last rank. It reports no more items than it visits. |
| TreeScan.LeafScanMatches | iitii.h:183-195 | On beg-sorted items, the low-level loop reports exactly the overlapping ranks of its range, in order. |
| TreeScan.LeafRangeMatches | iitii.h:183-195 | The low-level loop over ranks lo to hi, cut off at the last real rank, reports exactly the overlapping items of lo to hi. |
| TreeScan.Scan | iitii.h:173-213 | A scan reports no more items than it visits and visits no more nodes than its subtree has. |
| TreeScan.PrunedCase | iitii.h:199-201 | A subtree whose `inside_max_end` is at most qbeg holds no overlapping item, so pruning it loses nothing. |
| TreeScan.PastQueryMatches | iitii.h:204-210 | When a node begins at or after qend, nothing in its right subtree overlaps, so descending only left loses nothing. |
| TreeScan.ImaginaryMatches | iitii.h:177-180 | An imaginary node's overlapping ranks are those of its left subtree. |
| TreeScan.ScanMatches | iitii.h:173-213 | On a valid tree, scanning any node reports exactly the overlapping real ranks under it, in rank order. |
| TreeScan.Overlap | iitii.h:271-274 | The query's cost is at least its number of hits and at most the size of the full tree. |
| TreeScan.OverlapCorrect | iitii.h:270-274 | On a valid tree, the query returns exactly the overlapping items, in rank order. |
| TreeScan.OverlapMembers | iitii.h:270-281 | A rank is in the answer exactly when its item overlaps the query, and the answer has no repeats and is ascending. |
| TreeScan.PointQuery | iitii.h:188-192 | A zero-width query [p, p) returns exactly the items with beg < p < end. |
| TreeScan.ScanEntryCheckNonEmpty | iitii.h:174 | On a non-empty tree, the entry assertion of `scan` admits exactly the ranks of the full tree. |
| TreeScan.EmptyTreeFailsScanEntryCheck | iitii.h:174 | On an empty tree, the root rank 0 fails the entry assertion, because full_size is 0 (see Findings). |
| TreeScan.EmptyTreeOverlap | iitii.h:177-180 | With the entry assertion corrected, the empty tree answers every query with no hits at the cost of one node. |
| Iitii.OutsideMinBegIsMin | iitii.h:423-436 | On beg-sorted items, `outside_min_beg` is the least beg among the items outside the subtree that begin no earlier than the node, or +infinity when there are none. This includes the tie case. |
| Iitii.RunningMaxEnd | iitii.h:574-577 | Entry i of the running maximum is the largest end among ranks 0 to i. |
| Iitii.OutsideMaxEnds | iitii.h:579-599 | Every node's computed `outside_max_end` is the largest end among the items outside its subtree that begin before it, or -infinity when there are none. |
| Iitii.BeforeIsPrefix | iitii.h:584-594 | After the tie-skipping loop stops at a rank with a smaller beg, the items outside the subtree that begin before the node are exactly ranks 0 to that rank. |
| Iitii.TiedToStart | iitii.h:588-597 | When every rank left of the subtree ties with the node, no item outside begins before it, so -infinity is right. |
| Iitii.WhichDomain | iitii.h:467-472 | The domain is always below the number of domains. |
| Iitii.WhichDomainIsSlice | iitii.h:467-472 | A position falls in domain d exactly when it lies in d's slice. The first slice also takes everything below min_beg and the last takes everything past its start. |
| Iitii.WhichDomainMonotone | iitii.h:467-472 | A later position never falls in an earlier domain. |
| Iitii.ItemDomainUnclamped | iitii.h:567-571 | With the constructor's domain width, every item's beg lies at or after min_beg and within the domains without clamping. |
| Iitii.Interpolate | iitii.h:474-484 | The start node is always real. When the level-rank's rank is real, it is exactly that node on level k. Otherwise it is the rightmost real leaf. |
| Iitii.Predict | iitii.h:545-558 | There is no prediction exactly when qbeg's domain has a negative level. Any prediction is a real rank. |
| Iitii.Climb | iitii.h:622-632 | The climb ends on an ancestor of the start node (or the node itself) inside the tree, whose leaf range covers the start's. That node is the root or one where the three conditions for going on all fail, and when the start node already is such a node the climb does not move. Every node on the parent chain from the start up to, but not including, the end node is not the root and has one of the three conditions hold (`ClimbsPast`), so the climb stops at the first node where it may. |
| Iitii.ClimbStep | iitii.h:626-630 | From a node other than the root where one of the three conditions for going on holds, the parent exists, lies one level up inside the tree, and the climb from the node ends where the climb from the parent ends. |
| Iitii.PassedNodes | iitii.h:626-630 | If the climb from a node goes on through every level below e, then every node on a level from the start's up to e - 1 that covers a leaf under the start is not the root and has one of the three conditions for going on hold. |
| Iitii.ClimbIsFirst | iitii.h:626-631 | Every node that covers a leaf under the start and lies on a level from the start's up to, but not including, the level where the climb ends is not the root and has one of the three conditions for going on hold. So no node the loop passes could have stopped it, and the climb cost counts only levels the loop had to take. |
| Iitii.OutsideMisses | iitii.h:357-362 | At a real node with `outside_max_end` <= qbeg and qend <= `outside_min_beg`, no item outside the subtree overlaps the query. |
| Iitii.StopIsSound | iitii.h:357-362 | At such a node, the overlapping items of the whole array are those of its subtree. |
| Iitii.ClimbEndAgrees | iitii.h:622-643 | Scanning the node where the climb stops reports exactly the overlapping items of the whole array. |
| Iitii.IitiiOverlap | iitii.h:611-644 | The query's cost is at least its number of hits. |
| Iitii.IitiiOverlapCorrect | iitii.h:611-644 | Whatever the model predicts, the index query returns the same hits as the base query, which are exactly the overlapping items in rank order. |
| Iitii.BuildIndex | iitii.h:560-604 | From any beg-sorted array and any trained levels, the constructor yields a valid index with max(1, domains) domains. An empty array gets no prediction in any domain. |
| HeaderExample.HeaderGeometry | iitii.h:16-27 | Three items give height 1, root 1 and full_size 3. |
| HeaderExample.HeaderTree | iitii.h:16-31 | The example tree has `inside_max_end` 23, 56, 56, and the query [22, 25) returns the first two items. |
| HeaderExample.HeaderOutsideMaxEnd | iitii.h:579-599 | In the example, `outside_max_end` is -infinity for ranks 0 and 1 and 34 for rank 2. |
| HeaderExample.ClimbFromLeafZero | iitii.h:622-632 | On the three-item example, the query [22, 25) started from leaf 0 climbs to the root, because item 1, right of the leaf, begins at 12 < 25. |
| HeaderExample.StopAtLeafTwo | iitii.h:622-632 | On the example, the query [40, 50) started from leaf 2 stops at once: nothing left of the leaf ends after 34 <= 40 and nothing lies right of it. |
| HeaderExample.LeafTwo | iitii.h:183-195 | Scanning leaf 2 for [40, 50) finds item 2 at the cost of one node. |
| HeaderExample.HeaderEdgeQueries | iitii.h:181-196 | [22, 22) returns items 0 and 1. [22, 12) returns item 0. [-10, -5) costs nothing at all. |

## Left out

- Sorting and the builder (`iit_sort`, `iit_builder_base`, iitii.h:284-323): the model takes the array already sorted by beg, which is what the constructor's debug assertion demands.
- `NodeArray` and pointers into it: the node array is split into a sequence of items and sequences of augment values. Results are ranks instead of item pointers.
- `regress`, `log2ull` and `train` (iitii.h:370-401, 486-542): floating-point regression and a cost heuristic. The trained level per domain is a parameter of `Iitii.BuildIndex`, limited to what `train` can store (negative, or a level below the root's). The per-domain float estimate is a function parameter of `Iitii.Predict`, giving the level-rank after rounding and clamping at zero. Correctness is proved for every such parameter.
- The prefetch hints and the `queries` / `total_climb_cost` counters (iitii.h:620, 631, 635-637, 646-647): they do not affect results.
- The debug assertion `ime != npos` (iitii.h:54, 257): the model does not reproduce the debug abort when an item's end equals npos; `ImplicitTree.Build` accepts such an item and computes its `inside_max_end` like any other.
- Position width: `Pos` is modelled as an unbounded integer, with -infinity and +infinity as the signed 64-bit limits. Overflow in `beg - min_beg` or in `1 + (last - first) / domains` is not modelled.
- Other position types: only a signed 64-bit `Pos` is modelled, although the header names `uint32_t` and `double` as examples (iitii.h:9-10). For `double`, `numeric_limits<Pos>::min()` (iitii.h:366, 597) is the smallest positive normal number rather than a lower bound, so `qbeg < outside_max_end` can hold where the model's -infinity would not. That makes the climb go further, which changes the cost but not the hits.
- Rank width: `size_t` wrap-around in rank arithmetic is not modelled. Ranks are unbounded naturals.
- The debug self-check in `level` (iitii.h:102-106): `Geometry.LevelTrailingOnes` states the property it checks.

## Findings

| source | as written | input that shows it | evidently intended | confidence | as-written member | corrected member |
|---|---|---|---|---|---|---|
| iitii.h:174 | The constructor leaves `full_size` at 0 and `root` at 0 for an empty array (iitii.h:221-223). `overlap` then calls `scan(0, 0, ...)`, whose entry assertion `subtree < full_size` fails. | Build from no items, then query any interval. | An empty structure answers every query with no results (a one-node cost, as the code computes past the assertion). | not executed | TreeScan.EmptyTreeFailsScanEntryCheck | TreeScan.EmptyTreeOverlap |

The model of `scan` requires only that the rank lie in the full tree of height `root_level`, which has one imaginary rank for the empty array. Under that corrected assertion, `TreeScan.EmptyTreeOverlap` gives the empty tree's answer.

## Behaviour worth noting

- A one-item array gets height 1, full_size 3 and the imaginary root 1, because the geometry loop starts from full_size 0 and always grows at least once (iitii.h:221-223; `ImplicitTree.SingleNodeGeometry`).
- The low-level loop's cost is the number of ranks it passes, which is 0 when the first rank already begins at or after qend (iitii.h:186-195). So a query on a non-empty tree can cost 0 (`HeaderExample.HeaderEdgeQueries`).
- A zero-width query [p, p) returns the items with beg < p < end, since the tests are `beg >= qend` and `end > qbeg` (iitii.h:188-191; `TreeScan.PointQuery`).
- A reversed query [qbeg, qend) with qend < qbeg returns the items with beg < qend and end > qbeg, by the same tests (`HeaderExample.HeaderEdgeQueries`).
- Past the entry assertion, a query on the empty tree costs one visit to the imaginary root (iitii.h:180; see Findings).
- `which_domain` divides the offset from min_beg by the domain width 1 + (max_beg - min_beg) / domains that the constructor fixes (iitii.h:471, 570). This differs from the formula in the comment at iitii.h:450-452, which scales by the number of domains over the range.
