# Point-cloud mapping core: models and proofs

A Dafny project about the data structures that a LiDAR mapping stack stands on: the incremental k-d
tree that holds the map (ikd-Tree), the k-d tree library used for loop closure (nanoflann), the JSON
library of the sensor driver (RapidJSON: encodings, stream detection, pool allocator, document
events), the Scan Context place descriptor, and the sliding local map that drives deletions in the
ikd-Tree. Each module models one component and proves what the component is for. Run
`dafny verify dfyconfig.toml`.

## How the project is laid out

| files | component |
|---|---|
| `Geometry`, `SquareRoot`, `Sorting`, `NthElements` | points, boxes, the square root by its defining property, sorting, a function that meets the contract of nth_element |
| `IkdTree` | the ikd-Tree's operations as functions on trees with flags and counters |
| `IkdInvariant`, `IkdOperations` | the invariant of every reachable tree; each operation against a multiset of live points |
| `IkdNode` | nodes as objects changed in place, with footprints; every method refines its function |
| `IkdBalance`, `IkdOrder` | balance, share of deleted points and height; the k-d order |
| `IkdDownsample`, `IkdRadius`, `IkdSearch` | voxel downsampling, radius search, k-nearest search |
| `KNearest`, `ManualHeap`, `VisitOrder`, `ManualQueue` | what k nearest means; the bounded heap; what it makes of candidates in any order; the operation log |
| `KdTree`, `DisorderlyTree` | the public class and all its runs; a run on which the k-nearest search errs |
| `IkdConcurrent` | the background rebuild as a two-thread step system |
| `SlidingMap` | the local map box and the slabs it deletes |
| `NanoResultSet`, `NanoBuild`, `NanoSearch`, `NanoDynamic` | nanoflann: result set, build, branch-and-bound search, the binary counter of trees |
| `Utf`, `UtfStreams`, `UtfIo` | Unicode encodings, byte order and detection, the stream classes |
| `PoolAllocator`, `Dom` | the chunk allocator; values, events and the document stack |
| `ScanContext` | descriptors, keys, alignment and distance |

The ikd-Tree is the centre. Its abstract value is the multiset of live points, written `Live`. A
point is live when neither it nor any ancestor still waiting to push down has deleted it. `Inv` is
the invariant of a tree: exact counters, tight ranges, and which flags may be pending. The function
level (`IkdTree`) is proved against `Live`; the object level (`IkdNode`, `KdTree`) is proved equal to
the function level.

## Results that go against expectation

- The k-nearest search breaks ties within 1e-10 by the x coordinate. A pair for which this contradicts
  distance is disorderly, and then the heap may keep the nearer one on top.
  `DisorderlyTree.NearestSearchGoesWrong` gives runs over three points: with two of them the search
  with k = 2 lists them in the wrong order, and with the third it loses one of the two nearest. The
  search is exact when squared distances within reach are equal or at least 1e-10 apart, and more
  generally for k = 1 and whenever every disorderly pair has at least k candidates strictly nearer
  than its nearer member (`KdTree.KD_TREE.Nearest_Search`); and that is exactly when every order
  of visiting the candidates, and every nearest part of them, gives the right list
  (`VisitOrder.VisitsExactIff`).
- The background rebuild clears `rebuild_flag` after releasing the lock. An operation in between is
  logged although the swap is over, and the next rebuild replays it a second time, before everything
  logged later. A run is exact if and only if all its swaps are harmless in this respect
  (`IkdConcurrent.RunExactIff`): for every point that a later operation does not remove anyway, the
  stale operations add no copy, or remove those of the snapshot and add as many. A stale insertion is
  never harmless by itself, a stale deletion is when it covers no point of the snapshot
  (`HarmlessOne`). `RunDuplicates` is a run that ends with a point too many. The next rebuild may be
  of another subtree, and then the operation is made on that one: `RunStrays` has a run for every
  operation and every two large subtrees, with a subtree emptied that no operation touched among them.
- The local map moves by 0.9 of half the free space, at least half a detection range. For a sensor
  that comes no nearer to the edge than the detection range, one move is enough exactly when the cube
  is longer than 3.5 ranges, or so short, at most 2.5, that no position is like that
  (`SlidingMap.MoveSettlesIff`; `SettlesIff` for any margin). Between 3 and
  3.5 ranges it can bounce for ever (`Bounces`). Up to 3 ranges, as in config/avia.yaml and with the
  declared default parameters, every position inside is near an edge (`ShortCubeNeverQuiet`), and from
  half a range on the cube never comes to rest (`ShortCubeNeverSettles`).
- The point test of the radius search compares squares, so a negative radius would count like its
  absolute value, but the skip test then discards even coincident points; the search is exact
  exactly for radii that are not negative (`IkdRadius.RadiusExactIff`).
- UTF-16LE text that starts with U+0000 is taken for UTF-32LE behind its byte order mark
  (`UtfStreams.BomDetected`); UTF-8 text without mark that starts with U+FEFF loses it
  (`UtfStreams.PatternDetectedIff`); the UTF-8 memory stream skips the three bytes of the mark one by one
  and so eats a leading 0xEF of a text without mark (`UtfIo.Utf8BomSkipped`).
- UTF-32 decoding accepts surrogates (`Utf.Utf32DecodeExact`).
- The capacity of a user buffer of the pool allocator is computed from the plain header size, but
  blocks start behind the aligned one: all blocks stay inside the buffer exactly when the header size
  is a multiple of the alignment (`PoolAllocator.HeaderAlignedIff`), and otherwise the first
  allocation can end behind it (`Overrun`).
- `Value(kNumberType)` is a zero with the flags of all number types, the integer ones included. Accept
  takes it for a double, so it comes back as one and is no integer any more
  (`Dom.AnyNumberChanges`). A value comes back from a document with its flags exactly when no such
  number is in it (`Dom.ResentIff`); its structure, strings and numbers always do (`Dom.ResentSame`).
- A shifted copy of a Scan Context descriptor need not be at distance 0. The alignment takes the first
  shift that makes the sector keys equal, and only shifts near that are compared: the distance is 0
  exactly when one of these matches (`ScanContext.CopyZeroIff`; `CopyMissed` is a copy for which none
  does). It always is 0 when only one shift makes the keys equal (`CopyAtZero`).
- The operation log overwrites its oldest entry when it is full (`ManualQueue.MANUAL_Q.push`).

## Model

| member | source | states |
|---|---|---|
| IkdInvariant.LiveOrDeleted | FAST_LIO_ROS2/include/ikd-Tree/ikd_Tree.cpp:1458-1624 | Any tree keeping the invariant: it holds no live point exactly when it is null or flagged tree-deleted |
| IkdInvariant.CountersExact | FAST_LIO_ROS2/include/ikd-Tree/ikd_Tree.cpp:140-163 | Any tree keeping the invariant, with any pending flags: the number of live points is TreeSize minus invalid_point_num |
| IkdInvariant.SizeIsCount | FAST_LIO_ROS2/include/ikd-Tree/ikd_Tree.cpp:70-97 | TreeSize is the number of nodes |
| IkdInvariant.LabelsExact | FAST_LIO_ROS2/include/ikd-Tree/ikd_Tree.cpp:1360-1455 | down_del_num counts exactly the nodes that downsampling has deleted, by their own flag or by one still to be pushed down, and the subtree flag is set iff these are all nodes |
| IkdInvariant.RangeTight | FAST_LIO_ROS2/include/ikd-Tree/ikd_Tree.cpp:1458-1609 | A tree that is not tree-deleted has as stored range the exact bounding box of its live points: all inside, every face touched |
| IkdInvariant.PushToKeeps | FAST_LIO_ROS2/include/ikd-Tree/ikd_Tree.cpp:1372-1383 | What one push does to a child: a deleting push empties its live set, any other leaves it and its counters alone; the invariant is kept |
| IkdInvariant.PushDownKeeps | FAST_LIO_ROS2/include/ikd-Tree/ikd_Tree.cpp:1360-1455 | Push_Down keeps the invariant and the live multiset, settles both children, and changes nothing else of the node |
| IkdInvariant.UpdateKeeps | FAST_LIO_ROS2/include/ikd-Tree/ikd_Tree.cpp:1458-1624 | Update re-establishes the invariant from the two children, whatever the old aggregates were; the node is tree-deleted afterwards iff nothing below it is live |
| IkdInvariant.LiveSplits | FAST_LIO_ROS2/include/ikd-Tree/ikd_Tree.cpp:1360-1455 | After Push_Down the live points are the node's own point (unless deleted) and those of the two children |
| IkdOperations.FlattenLive | FAST_LIO_ROS2/include/ikd-Tree/ikd_Tree.cpp:1627-1658 | flatten lists exactly the live points, each as often as it is live |
| IkdOperations.PushedKeeps | FAST_LIO_ROS2/include/ikd-Tree/ikd_Tree.cpp:1627-1658 | The push-downs done while flattening keep the invariant and the live points |
| IkdOperations.BuildExact | FAST_LIO_ROS2/include/ikd-Tree/ikd_Tree.cpp:679-733 | For every correct nth_element: the tree built from a slice keeps the invariant and holds exactly the slice as live points, none invalid |
| IkdOperations.SettleExact | FAST_LIO_ROS2/include/ikd-Tree/ikd_Tree.cpp:842-850 | The rebuild at the end of an operation, done or not, keeps the invariant and the live multiset |
| IkdOperations.UncoveredSurvivor | FAST_LIO_ROS2/include/ikd-Tree/ikd_Tree.cpp:780-795 | A tight range not inside the deletion box has a live point outside the box, so a partly covered node never loses its last live point |
| IkdOperations.CoveredBox | FAST_LIO_ROS2/include/ikd-Tree/ikd_Tree.cpp:780-795 | A tight range inside the box: no live point survives the deletion |
| IkdOperations.MissedBox | FAST_LIO_ROS2/include/ikd-Tree/ikd_Tree.cpp:774-779 | A tight range disjoint from the half-open box: deletion touches no live point |
| IkdOperations.BoxTestsExact | FAST_LIO_ROS2/include/ikd-Tree/ikd_Tree.cpp:780-795 | For nonempty boxes and ranges: the first early return is taken iff the box has no point of the range, the second iff it has all of them |
| IkdOperations.DeletePointExact | FAST_LIO_ROS2/include/ikd-Tree/ikd_Tree.cpp:796-842 | The partial branch, given exact children: own point and children lose exactly what lies in the box, the node stays alive, the counts add up |
| IkdOperations.DeleteExact | FAST_LIO_ROS2/include/ikd-Tree/ikd_Tree.cpp:767-851 | Delete_by_range on every tree: the live multiset afterwards is the old one outside the box, the invariant holds, and the returned number is the number of live points removed |
| IkdOperations.DeleteLabels | FAST_LIO_ROS2/include/ikd-Tree/ikd_Tree.cpp:767-851 | Without a rebuild a plain deletion adds nothing to down_del_num; one for downsampling adds at least the number it removes, and exactly that if all earlier deletions were for downsampling too |
| IkdOperations.AddExact | FAST_LIO_ROS2/include/ikd-Tree/ikd_Tree.cpp:995-1056 | Add_by_point on every tree: the live multiset grows by exactly the given point and the invariant holds |
| IkdOperations.SearchExact | FAST_LIO_ROS2/include/ikd-Tree/ikd_Tree.cpp:1247-1289 | Search_by_range returns exactly the live points in the half-open box, with multiplicity; the tree afterwards keeps the invariant, live points and counters |
| IkdNode.KD_TREE_NODE.constructor | FAST_LIO_ROS2/include/ikd-Tree/ikd_Tree.cpp:709-731 | A fresh node over two disjoint valid subtrees denotes the leaf record with these children |
| IkdNode.KD_TREE_NODE.Push_Down | FAST_LIO_ROS2/include/ikd-Tree/ikd_Tree.cpp:1360-1455 | The in-place push-down changes the two child objects and the node to what the specification says and keeps the footprint |
| IkdNode.KD_TREE_NODE.Update | FAST_LIO_ROS2/include/ikd-Tree/ikd_Tree.cpp:1458-1624 | The in-place aggregate update equals the specification's Update of the node's fields |
| IkdNode.KD_TREE_NODE.MarkDeleted | FAST_LIO_ROS2/include/ikd-Tree/ikd_Tree.cpp:780-795 | The fully covered branch sets the box or downsample flags and counters of the specification |
| IkdNode.KD_TREE_NODE.GoesLeft | FAST_LIO_ROS2/include/ikd-Tree/ikd_Tree.cpp:1012-1031 | The direction Add_by_point takes on the division axis |
| IkdNode.flatten | FAST_LIO_ROS2/include/ikd-Tree/ikd_Tree.cpp:1627-1658 | Appends the specification's list to the storage and leaves the pushed-down tree behind |
| IkdNode.BuildTree | FAST_LIO_ROS2/include/ikd-Tree/ikd_Tree.cpp:679-733 | Builds in place on an array slice, leaves the rest of the array alone, and returns fresh nodes that denote the specification's tree |
| IkdNode.LongestAxis | FAST_LIO_ROS2/include/ikd-Tree/ikd_Tree.cpp:688-709 | The axis chosen by the three running minima and maxima of the slice |
| IkdNode.Criterion_Check | FAST_LIO_ROS2/include/ikd-Tree/ikd_Tree.cpp:1335-1357 | Rebuild is asked for iff the deletion or balance ratio is exceeded and the tree is larger than the minimum |
| IkdNode.Rebuild | FAST_LIO_ROS2/include/ikd-Tree/ikd_Tree.cpp:736-764 | The rebuilt subtree denotes the specification's rebuild and consists of fresh or old nodes only |
| IkdNode.Delete_by_range | FAST_LIO_ROS2/include/ikd-Tree/ikd_Tree.cpp:767-851 | The pointer-level recursion refines the deletion specification, for both flag settings |
| IkdNode.Add_by_point | FAST_LIO_ROS2/include/ikd-Tree/ikd_Tree.cpp:995-1056 | The pointer-level recursion refines the insertion specification |
| IkdNode.Search_by_range | FAST_LIO_ROS2/include/ikd-Tree/ikd_Tree.cpp:1247-1289 | The pointer-level recursion refines the search specification, including the push-downs it leaves behind |
| IkdBalance.BuildBalanced | FAST_LIO_ROS2/include/ikd-Tree/ikd_Tree.cpp:679-733 | A tree built from n points has children of floor((n-1)/2) and ceil((n-1)/2) points, and every node of it meets the balance share |
| IkdBalance.BuildNotRetriggered | FAST_LIO_ROS2/include/ikd-Tree/ikd_Tree.cpp:1335-1357 | A freshly built tree never triggers the criterion again (balance parameter at least 6/11) |
| IkdBalance.CriterionIff | FAST_LIO_ROS2/include/ikd-Tree/ikd_Tree.cpp:1335-1357 | On any tree with the invariant the criterion holds iff there are more than 10 nodes and the deleted ones exceed their share or one child's nodes exceed theirs, all in numbers of nodes and live points |
| IkdBalance.CheckedBalanced | FAST_LIO_ROS2/include/ikd-Tree/ikd_Tree.cpp:1335-1357 | A node that passes the criterion, which looks at one child only, has both children within the balance share, and its deleted points within the delete share |
| IkdBalance.SettleBalanced | FAST_LIO_ROS2/include/ikd-Tree/ikd_Tree.cpp:842-850 | Settling a node whose children are within limits leaves a tree within limits, since a node that is not is rebuilt at once |
| IkdBalance.DeleteBalanced | FAST_LIO_ROS2/include/ikd-Tree/ikd_Tree.cpp:767-851 | Deletion with inline rebuild keeps every node of more than 10 points balanced and, unless deleted itself, its deleted points within the delete share |
| IkdBalance.AddBalanced | FAST_LIO_ROS2/include/ikd-Tree/ikd_Tree.cpp:995-1056 | Insertion with inline rebuild keeps the same two limits at every node |
| IkdBalance.SearchBalanced | FAST_LIO_ROS2/include/ikd-Tree/ikd_Tree.cpp:1247-1289 | A box search, although it pushes deletions down, keeps both limits |
| IkdBalance.HeightBound | FAST_LIO_ROS2/include/ikd-Tree/ikd_Tree.cpp:1335-1357 | With balance parameter 0.6 a balanced tree of height h > 10 has 5^(h-10) <= 3^(h-10) * TreeSize |
| IkdOrder.BuildOrdered | FAST_LIO_ROS2/include/ikd-Tree/ikd_Tree.cpp:709-731 | For every correct nth_element, ties included: in a built tree everything left of a node is at most, everything right of it at least, its coordinate on its axis |
| IkdOrder.AxisIsLongest | FAST_LIO_ROS2/include/ikd-Tree/ikd_Tree.cpp:701-706 | The division axis is the first one of greatest extent |
| IkdOrder.DeleteFits | FAST_LIO_ROS2/include/ikd-Tree/ikd_Tree.cpp:767-851 | Deletion, with any rebuilds on the way, keeps the k-d order and puts no node into a half-space that held none |
| IkdOrder.AddFits | FAST_LIO_ROS2/include/ikd-Tree/ikd_Tree.cpp:995-1056 | Insertion keeps the k-d order, because it goes left only when strictly smaller, and brings nothing but the new point into any half-space |
| IkdOrder.SearchSame | FAST_LIO_ROS2/include/ikd-Tree/ikd_Tree.cpp:1247-1289 | A box search moves no point |
| NthElements.NthExists | FAST_LIO_ROS2/include/ikd-Tree/ikd_Tree.cpp:712-724 | The contract of nth_element that is assumed everywhere can be met: sorting meets it |
| IkdDownsample.VoxelHolds | FAST_LIO_ROS2/include/ikd-Tree/ikd_Tree.cpp:486-492 | The box computed from floor(x/size)*size holds a point iff it falls into the same voxel; points of one voxel compute the same box |
| IkdDownsample.ClosestIsClosest | FAST_LIO_ROS2/include/ikd-Tree/ikd_Tree.cpp:497-509 | The scan returns a candidate none is closer to the centre than, and keeps the new point on ties |
| IkdDownsample.AddDownsampledExact | FAST_LIO_ROS2/include/ikd-Tree/ikd_Tree.cpp:483-517 | One downsampled insertion, for every voxel by its slots: that of the new point holds exactly one live point afterwards, and no old point there and not the new one is closer to ((i+0.5) size, (j+0.5) size, (k+0.5) size); any other is unchanged |
| IkdDownsample.SettledStep | FAST_LIO_ROS2/include/ikd-Tree/ikd_Tree.cpp:483-517 | If all earlier batch points left the voxel of p settled, so does one more, whichever voxel it hits |
| IkdDownsample.AddBatchExact | FAST_LIO_ROS2/include/ikd-Tree/ikd_Tree.cpp:478-573 | After any downsampled batch, for every voxel by its slots: one that the batch hits holds exactly one live point, one of the old live points and batch points there, and none of these is closer to the centre in coordinates; any other is unchanged |
| IkdDownsample.PassedOverIff | FAST_LIO_ROS2/include/ikd-Tree/ikd_Tree.cpp:483-525 | A point is passed over and not counted iff its voxel holds exactly one live point, which is strictly closer to the centre and at least 0.000001 away along some axis; otherwise it counts as one insertion |
| KNearest.NearestIsPrefix | FAST_LIO_ROS2/include/ikd-Tree/ikd_Tree.cpp:446-460 | k nearest, listed in ascending order, have entry by entry the distances of the ascending sort of all candidates, and there are min(k, m) of them |
| ManualHeap.LessIsOrder | FAST_LIO_ROS2/include/ikd-Tree/ikd_Tree.h:102-108 | As long as no disorderly pair (within 1e-10 of each other, x against distance) has its nearer member below a cut, the comparison answers by distance, then x, with everything beyond the cut on top |
| ManualHeap.OrderlyIsNeeded | FAST_LIO_ROS2/include/ikd-Tree/ikd_Tree.h:102-108 | There is no disorderly pair at all exactly when the comparison is the strict order by distance, then x |
| ManualHeap.TopIsFarthest | FAST_LIO_ROS2/include/ikd-Tree/ikd_Tree.h:136-139 | The root of a heap is a farthest candidate, or one beyond the cut |
| ManualHeap.FloatStep | FAST_LIO_ROS2/include/ikd-Tree/ikd_Tree.h:181-198 | One upward move keeps the heap order everywhere but at the hole |
| ManualHeap.DownStep | FAST_LIO_ROS2/include/ikd-Tree/ikd_Tree.h:161-179 | One downward move to the greater child keeps the heap order everywhere but below the hole |
| ManualHeap.PushKeeps | FAST_LIO_ROS2/include/ikd-Tree/ikd_Tree.h:140-148 | Whatever the comparison answers: pushing adds exactly the candidate, and the top is the old one or it |
| ManualHeap.PopKeeps | FAST_LIO_ROS2/include/ikd-Tree/ikd_Tree.h:127-135 | Whatever the comparison answers: popping removes exactly the top |
| ManualHeap.PushHeap | FAST_LIO_ROS2/include/ikd-Tree/ikd_Tree.h:140-148 | Pushing keeps heap order, given that the cut keeps disorderly pairs away |
| ManualHeap.PopHeap | FAST_LIO_ROS2/include/ikd-Tree/ikd_Tree.h:127-135 | Popping keeps heap order, given that the cut keeps disorderly pairs away |
| ManualHeap.MANUAL_HEAP.constructor | FAST_LIO_ROS2/include/ikd-Tree/ikd_Tree.h:115-121 | An empty heap of the given capacity |
| ManualHeap.MANUAL_HEAP.top | FAST_LIO_ROS2/include/ikd-Tree/ikd_Tree.h:136-139 | The first element; if they are in heap order below a cut, a farthest one or one beyond it |
| ManualHeap.MANUAL_HEAP.push | FAST_LIO_ROS2/include/ikd-Tree/ikd_Tree.h:140-148 | A full heap ignores the point; otherwise the array becomes the one of the specification |
| ManualHeap.MANUAL_HEAP.pop | FAST_LIO_ROS2/include/ikd-Tree/ikd_Tree.h:127-135 | The array becomes the one of the specification; an empty heap stays empty |
| ManualHeap.MANUAL_HEAP.FloatUp | FAST_LIO_ROS2/include/ikd-Tree/ikd_Tree.h:181-198 | The loop with a moving hole computes the recursive floating by swaps |
| ManualHeap.MANUAL_HEAP.MoveDown | FAST_LIO_ROS2/include/ikd-Tree/ikd_Tree.h:161-179 | The loop with a moving hole computes the recursive sinking by swaps |
| ManualHeap.MANUAL_HEAP.size | FAST_LIO_ROS2/include/ikd-Tree/ikd_Tree.h:149-152 | The number of candidates held |
| ManualQueue.MANUAL_Q.constructor | FAST_LIO_ROS2/include/ikd-Tree/ikd_Tree.h:203-208 | An empty ring buffer |
| ManualQueue.MANUAL_Q.push | FAST_LIO_ROS2/include/ikd-Tree/ikd_Tree.h:238-246 | Appends to the queue, wrapping around the array; when full, it overwrites the oldest operation in place and counts one more than there are slots |
| ManualQueue.MANUAL_Q.pop | FAST_LIO_ROS2/include/ikd-Tree/ikd_Tree.h:211-221 | Drops the oldest operation; nothing on an empty log |
| ManualQueue.MANUAL_Q.front | FAST_LIO_ROS2/include/ikd-Tree/ikd_Tree.h:222-225 | The oldest operation |
| ManualQueue.MANUAL_Q.empty | FAST_LIO_ROS2/include/ikd-Tree/ikd_Tree.h:247-250 | The flag kept beside the counter says exactly whether the log is empty |
| ManualQueue.MANUAL_Q.size | FAST_LIO_ROS2/include/ikd-Tree/ikd_Tree.h:251-254 | The number of queued operations |
| VisitOrder.OfferHolds | FAST_LIO_ROS2/include/ikd-Tree/ikd_Tree.cpp:1086-1096 | Offering one candidate keeps what the heap holds: k of those seen, leaving out only what is no nearer or beyond the cut |
| VisitOrder.OfferAllHolds | FAST_LIO_ROS2/include/ikd-Tree/ikd_Tree.cpp:1086-1096 | So does any sequence of offers from the empty heap |
| VisitOrder.ListedAscending | FAST_LIO_ROS2/include/ikd-Tree/ikd_Tree.cpp:450-460 | Candidates below the cut are listed in ascending order |
| VisitOrder.HoldsExact | FAST_LIO_ROS2/include/ikd-Tree/ikd_Tree.cpp:450-460 | With k candidates below the cut the list is the k nearest in ascending order |
| VisitOrder.VisitExact | FAST_LIO_ROS2/include/ikd-Tree/ikd_Tree.cpp:426-461 | If k is 1, or every disorderly pair has k candidates strictly nearer than its nearer member, every order of visiting lists exactly the k nearest |
| VisitOrder.ApartIsTame | FAST_LIO_ROS2/include/ikd-Tree/ikd_Tree.cpp:426-461 | Distances that are equal or at least 0.0000000001 apart meet the condition |
| VisitOrder.VisitGoesWrong | FAST_LIO_ROS2/include/ikd-Tree/ikd_Tree.cpp:426-461 | Otherwise some order of visiting lists a wrong result: of all candidates if k - 1 are strictly nearer than the pair's farther member, else of those nearer than it and it |
| VisitOrder.VisitsExactIff | FAST_LIO_ROS2/include/ikd-Tree/ikd_Tree.cpp:426-461 | That condition holds exactly if every visit, of all candidates and of any nearest part of them, lists the k nearest in ascending order |
| IkdSearch.BoxDistBound | FAST_LIO_ROS2/include/ikd-Tree/ikd_Tree.cpp:1691-1708 | The box distance is at most the squared distance to any point of the box |
| IkdSearch.BoxDistAttained | FAST_LIO_ROS2/include/ikd-Tree/ikd_Tree.cpp:1691-1708 | It is the distance to a point of the box, so the bound is the best possible |
| IkdSearch.NodeBound | FAST_LIO_ROS2/include/ikd-Tree/ikd_Tree.cpp:1062-1072 | Every live point of a subtree is at least as far as its range, and a range beyond max_dist has no candidate at all |
| IkdSearch.Pruned | FAST_LIO_ROS2/include/ikd-Tree/ikd_Tree.cpp:1097-1243 | Skipping a subtree whose range is not nearer than the heap top keeps what the heap holds of everything, that subtree included |
| IkdSearch.OwnHolds | FAST_LIO_ROS2/include/ikd-Tree/ikd_Tree.cpp:1086-1096 | So does offering a node's own point, or not offering it |
| IkdSearch.SearchKept | FAST_LIO_ROS2/include/ikd-Tree/ikd_Tree.cpp:1062-1244 | On every consistent tree and with any heap a search keeps invariant, live points and nodes, although flags are pushed down |
| IkdSearch.BothHolds | FAST_LIO_ROS2/include/ikd-Tree/ikd_Tree.cpp:1097-1243 | Both visiting orders, both pruning branches: afterwards the heap holds the k nearest of everything seen and of both children |
| IkdSearch.SearchHolds | FAST_LIO_ROS2/include/ikd-Tree/ikd_Tree.cpp:1062-1244 | On every consistent tree: the heap ends as if every live point within max_dist had been offered, whatever was pruned |
| IkdSearch.calc_box_dist | FAST_LIO_ROS2/include/ikd-Tree/ikd_Tree.cpp:1691-1708 | The distance the code computes, infinite for a null child |
| IkdSearch.SearchOwn | FAST_LIO_ROS2/include/ikd-Tree/ikd_Tree.cpp:1086-1096 | The tests, pop and push on the heap object equal the specification |
| IkdSearch.SearchChildren | FAST_LIO_ROS2/include/ikd-Tree/ikd_Tree.cpp:1097-1243 | The branches over the child pointers equal the specification |
| IkdSearch.Search | FAST_LIO_ROS2/include/ikd-Tree/ikd_Tree.cpp:1062-1244 | The pointer-level recursion refines the specification: same tree, same heap array, for all trees and heaps |
| IkdRadius.CauchySchwarz | FAST_LIO_ROS2/include/ikd-Tree/ikd_Tree.cpp:1296-1308 | Cauchy-Schwarz in three dimensions, from which the triangle inequality of the sphere tests follows |
| IkdRadius.Triangle | FAST_LIO_ROS2/include/ikd-Tree/ikd_Tree.cpp:1296-1308 | The triangle inequality for squared distances |
| IkdRadius.RangeInSphere | FAST_LIO_ROS2/include/ikd-Tree/ikd_Tree.cpp:1606-1609 | Every point of a box lies in its circumscribed sphere, whose squared radius Update stores |
| IkdRadius.SphereTests | FAST_LIO_ROS2/include/ikd-Tree/ikd_Tree.cpp:1297-1307 | Skip test: every point of the box is outside the radius. Take-all test: every point is inside |
| IkdRadius.SphereTestsExact | FAST_LIO_ROS2/include/ikd-Tree/ikd_Tree.cpp:1297-1307 | When the first test fails some point of the sphere is within the radius, when the second fails some is not: for the sphere both tests are exact |
| IkdRadius.CornerOnSphere | FAST_LIO_ROS2/include/ikd-Tree/ikd_Tree.cpp:1606-1609 | The sphere goes through a corner of the range, so it is the smallest around its centre |
| IkdRadius.RadiusExact | FAST_LIO_ROS2/include/ikd-Tree/ikd_Tree.cpp:1292-1332 | Search_by_radius returns exactly the live points within the radius and keeps the tree's live points |
| IkdRadius.NegativeRadiusSkips | FAST_LIO_ROS2/include/ikd-Tree/ikd_Tree.cpp:1301-1302 | With a negative radius the search misses even the centre point |
| IkdRadius.RadiusExactIff | FAST_LIO_ROS2/include/ikd-Tree/ikd_Tree.cpp:1292-1332 | The search is exact on all trees and centres iff the radius is not negative |
| IkdRadius.RadiusKeeps | FAST_LIO_ROS2/include/ikd-Tree/ikd_Tree.cpp:1292-1332 | With any radius the tree stays equivalent; with a negative one nothing is listed that the point test refuses |
| IkdRadius.Search_by_radius | FAST_LIO_ROS2/include/ikd-Tree/ikd_Tree.cpp:1292-1332 | The pointer-level recursion refines that specification |
| KdTree.DeleteSound | FAST_LIO_ROS2/include/ikd-Tree/ikd_Tree.cpp:767-851 | Deletion keeps invariant, limits and order together, and reports the number of points lost |
| KdTree.AddSound | FAST_LIO_ROS2/include/ikd-Tree/ikd_Tree.cpp:995-1056 | Insertion keeps invariant, limits and order together |
| KdTree.AddPlainStep | FAST_LIO_ROS2/include/ikd-Tree/ikd_Tree.cpp:547-571 | Adding one more point of a batch without downsampling |
| KdTree.AddPlain | FAST_LIO_ROS2/include/ikd-Tree/ikd_Tree.cpp:547-571 | A batch without downsampling adds exactly the batch |
| KdTree.BatchSound | FAST_LIO_ROS2/include/ikd-Tree/ikd_Tree.cpp:478-573 | A downsampled batch keeps invariant, limits and order |
| KdTree.DeleteBoxes | FAST_LIO_ROS2/include/ikd-Tree/ikd_Tree.cpp:632-658 | Deleting a list of boxes keeps the root, leaves exactly the live points in none of them, and the counter is the number removed |
| KdTree.StepMeans | FAST_LIO_ROS2/include/ikd-Tree/ikd_Tree.cpp:426-658 | What each public call does to the live multiset: add exactly the batch, settle every voxel, clear every box; box, radius and nearest searches nothing |
| KdTree.NearestFound | FAST_LIO_ROS2/include/ikd-Tree/ikd_Tree.cpp:426-461 | What Nearest_Search lists on any consistent tree: min(k, m) of the m live points within max_dist; and under the condition of VisitsExactIff the k nearest, ascending |
| KdTree.ListIs | FAST_LIO_ROS2/include/ikd-Tree/ikd_Tree.cpp:426-461 | The same in coordinates: every listed point is live, within max_dist and has its squared distance beside it; fewer than k are listed only if they are all there are; and with gaps of at least 1e-10 the distances ascend and no live point left out is nearer than a listed one |
| KdTree.InvIsExact | FAST_LIO_ROS2/include/ikd-Tree/ikd_Tree.cpp:1458-1624 | The invariant gives exact sizes, exact downsample counts, exact live counts and tight ranges at every node, not only at the root |
| KdTree.RunSafe | FAST_LIO_ROS2/include/ikd-Tree/ikd_Tree.cpp:409-658 | For every run of Build (nonempty), Add_Points, Delete_Point_Boxes and box, radius and nearest searches in any order: the root exists with a valid division axis, every node is exact, the tree is in k-d order and, with usual criteria, within its limits, and each call changes the live multiset as specified |
| KdTree.RunBounds | FAST_LIO_ROS2/include/ikd-Tree/ikd_Tree.cpp:1335-1357 | In every such run with balance parameter 0.6, below the multi-thread limit: a height h > 10 has 5^(h-10) <= 3^(h-10) * TreeSize, and the live points are at least (1 - delete parameter) of the nodes unless the root is deleted |
| KdTree.KD_TREE.constructor | FAST_LIO_ROS2/include/ikd-Tree/ikd_Tree.cpp:10-18 | An empty index |
| KdTree.KD_TREE.Build | FAST_LIO_ROS2/include/ikd-Tree/ikd_Tree.cpp:409-423 | Contents become exactly the given cloud |
| KdTree.KD_TREE.size | FAST_LIO_ROS2/include/ikd-Tree/ikd_Tree.cpp:70-97 | The number of nodes, deleted ones included |
| KdTree.KD_TREE.validnum | FAST_LIO_ROS2/include/ikd-Tree/ikd_Tree.cpp:140-163 | The number of live points |
| KdTree.KD_TREE.Box_Search | FAST_LIO_ROS2/include/ikd-Tree/ikd_Tree.cpp:464-468 | Exactly the live points in the box, contents unchanged |
| KdTree.KD_TREE.Radius_Search | FAST_LIO_ROS2/include/ikd-Tree/ikd_Tree.cpp:471-475 | Exactly the live points in the ball, contents unchanged; with a negative radius some of those within its square |
| KdTree.KD_TREE.Nearest_Search | FAST_LIO_ROS2/include/ikd-Tree/ikd_Tree.cpp:426-461 | Contents unchanged; as many live points within max_dist as asked for, or all, with their squared distances; if any two live points within max_dist are at the same squared distance or at least 0.0000000001 apart, exactly the k nearest in ascending order; and also whenever no disorderly pair reaches into the k nearest |
| KdTree.KD_TREE.Add_Downsampled | FAST_LIO_ROS2/include/ikd-Tree/ikd_Tree.cpp:483-517 | The search, deletion and insertion of one downsampled point, in the code's order, equal the specification |
| KdTree.KD_TREE.Add_Points | FAST_LIO_ROS2/include/ikd-Tree/ikd_Tree.cpp:478-573 | Contents change as the voxel law of AddBatchExact or the plain law says; the counter is the number of insertions let through |
| KdTree.KD_TREE.Delete_Point_Boxes | FAST_LIO_ROS2/include/ikd-Tree/ikd_Tree.cpp:632-658 | Contents lose exactly the points of the boxes; the counter is their number |
| KdTree.ClosestOf | FAST_LIO_ROS2/include/ikd-Tree/ikd_Tree.cpp:497-509 | The loop over the voxel's points computes the scan of the specification |
| KdTree.Drain | FAST_LIO_ROS2/include/ikd-Tree/ikd_Tree.cpp:450-460 | The loop of top and pop computes the list of the specification |
| DisorderlyTree.TreesOfRun | FAST_LIO_ROS2/include/ikd-Tree/ikd_Tree.cpp:409-571 | Building from one point and adding two others placed at the same x, computed node by node |
| DisorderlyTree.PlacedExample | FAST_LIO_ROS2/include/ikd-Tree/ikd_Tree.cpp:102-108 | Such placements exist, at squared distances below 1e-9 |
| DisorderlyTree.NearestSearchGoesWrong | FAST_LIO_ROS2/include/ikd-Tree/ikd_Tree.cpp:426-461 | For every placement of two points within the tolerance of each other and a nearer third one, all at the same x: on this run Nearest_Search with k = 2 lists two points in the wrong order, and after the third point loses the second nearest |
| IkdConcurrent.PushDownDeletes | FAST_LIO_ROS2/include/ikd-Tree/ikd_Tree.cpp:1360-1455 | A push-down into a child of more than one node always carries the deleting flag, so logged push-downs delete |
| IkdConcurrent.RunExact | FAST_LIO_ROS2/include/ikd-Tree/ikd_Tree.cpp:370-406 | Replaying a logged operation on any tree has exactly the operation's effect on its live multiset |
| IkdConcurrent.RunAll | FAST_LIO_ROS2/include/ikd-Tree/ikd_Tree.cpp:296-301 | Replaying a whole log has the effect of its operations in order and never shrinks the tree |
| IkdConcurrent.DeleteKeepsSize | FAST_LIO_ROS2/include/ikd-Tree/ikd_Tree.cpp:767-851 | A deletion without rebuild keeps the number of nodes, so the replayed tree never becomes empty |
| IkdConcurrent.AddGrowsSize | FAST_LIO_ROS2/include/ikd-Tree/ikd_Tree.cpp:995-1056 | An insertion without rebuild adds one node |
| IkdConcurrent.StepKeeps | FAST_LIO_ROS2/include/ikd-Tree/ikd_Tree.cpp:237-354 | Every step of either thread keeps: snapshot plus stale log plus operations since the snapshot is the old subtree, and the new tree plus the operation in flight plus the remaining log is the replay of all of them |
| IkdConcurrent.SwapOutcome | FAST_LIO_ROS2/include/ikd-Tree/ikd_Tree.cpp:305-351 | What the swap puts in place, exactly: the snapshot with the stale log replayed first, then everything since |
| IkdConcurrent.ReplayCount | FAST_LIO_ROS2/include/ikd-Tree/ikd_Tree.cpp:370-406 | What a list of operations does to the copies of one point: removes them all or keeps them, and adds a number that does not depend on them |
| IkdConcurrent.HarmlessIff | FAST_LIO_ROS2/include/ikd-Tree/ikd_Tree.cpp:283-307 | Replaying stale operations before the later ones changes nothing exactly if, for every point that the later ones do not remove anyway, they add no copy, or remove those found and add as many |
| IkdConcurrent.HarmlessOne | FAST_LIO_ROS2/include/ikd-Tree/ikd_Tree.cpp:283-307 | For a single stale operation: an insertion is harmless iff its point is removed later, a deletion or deleting push-down iff every snapshot point it covers is |
| IkdConcurrent.SwapExactIff | FAST_LIO_ROS2/include/ikd-Tree/ikd_Tree.cpp:305-351 | The swap loses and invents no point iff the stale operations are harmless |
| IkdConcurrent.StepRefines | FAST_LIO_ROS2/include/ikd-Tree/ikd_Tree.cpp:237-354 | Every step but a harmful swap applies exactly its own operations to the live multiset |
| IkdConcurrent.MoveRefines | FAST_LIO_ROS2/include/ikd-Tree/ikd_Tree.cpp:237-354 | Every step of either thread but a harmful swap applies to every subtree exactly the operations made on it |
| IkdConcurrent.MoveKeeps | FAST_LIO_ROS2/include/ikd-Tree/ikd_Tree.cpp:237-354 | Every step keeps all subtrees and the protocol consistent, also when the rebuild turns to another or a larger subtree |
| IkdConcurrent.RebuildGoesOn | FAST_LIO_ROS2/include/ikd-Tree/ikd_Tree.cpp:237-361 | The rebuild thread can take a step iff it is in the middle of a rebuild, or one is requested of a subtree that is not all deleted |
| IkdConcurrent.EditsGoOn | FAST_LIO_ROS2/include/ikd-Tree/ikd_Tree.cpp:513-571 | The main thread can always execute what waits for the lock, and otherwise edit any subtree, directly or by deciding on it; queries can push down at any time |
| IkdConcurrent.StaleAreInWindow | FAST_LIO_ROS2/include/ikd-Tree/ikd_Tree.cpp:244-352 | In every interleaving, rebuilds of different subtrees included, the stale operations that a rebuild finds are exactly those executed between the unlock and the clearing of rebuild_flag of the one before |
| IkdConcurrent.RunConsistent | FAST_LIO_ROS2/include/ikd-Tree/ikd_Tree.cpp:237-354 | With any number of disjoint subtrees sharing the one Rebuild_Ptr and the one log: the invariant holds in every state of every interleaving |
| IkdConcurrent.RunSafe | FAST_LIO_ROS2/include/ikd-Tree/ikd_Tree.cpp:237-354 | In every interleaving whose swaps are harmless, the live multiset of every subtree is always the history of the main thread's operations on it applied to its start: the rebuilds lose and invent nothing |
| IkdConcurrent.RunExactIff | FAST_LIO_ROS2/include/ikd-Tree/ikd_Tree.cpp:237-354 | And only in these: the live multisets of all subtrees are right all along a run iff every swap of it is harmless, also where the log left over from one subtree is replayed on another |
| IkdConcurrent.UnusedIsHarmless | FAST_LIO_ROS2/include/ikd-Tree/ikd_Tree.cpp:237-354 | If no operation falls into that window, every swap is harmless |
| IkdConcurrent.EmptySnapshotIff | FAST_LIO_ROS2/include/ikd-Tree/ikd_Tree.cpp:282-283 | The snapshot is empty exactly when the subtree is tree-deleted |
| IkdConcurrent.WindowReached | FAST_LIO_ROS2/include/ikd-Tree/ikd_Tree.cpp:237-352 | From every initial state with enough live points the main thread can decide on any operation during the rebuild and still wait for the lock when the swap releases it; no subtree is edited meanwhile |
| IkdConcurrent.WindowLogs | FAST_LIO_ROS2/include/ikd-Tree/ikd_Tree.cpp:351-352 | From every such state the operation is executed once and left in the log of a rebuild that is over |
| IkdConcurrent.NextRebuildRepeats | FAST_LIO_ROS2/include/ikd-Tree/ikd_Tree.cpp:244-351 | From every state with one operation left over: the next rebuild, of whatever subtree, applies it to the live points of that one, although the main thread does nothing to it |
| IkdConcurrent.RunDuplicates | FAST_LIO_ROS2/include/ikd-Tree/ikd_Tree.cpp:237-352 | A whole run from every initial state with enough live points that makes one insertion and leaves two more copies of its point |
| IkdConcurrent.RunStrays | FAST_LIO_ROS2/include/ikd-Tree/ikd_Tree.cpp:237-354 | A whole run, for every operation and every pair of large subtrees, that makes the operation once, on the first, and ends with it made on the second too: a deleting push-down empties a subtree that nobody touched |
| IkdConcurrent.ReplaceExact | FAST_LIO_ROS2/include/ikd-Tree/ikd_Tree.cpp:316-346 | Putting a subtree with the same live points in place and updating its ancestors keeps invariant and live points of the whole tree |
| SlidingMap.SlabsExact | FAST_LIO_ROS2/src/laserMapping.cpp:261-274 | For all positions and all combinations of moving axes: no point of the new box is in a slab, a point of the old box is in the new one iff it is in no slab, and slabs stay inside the old box while the move is no longer than a side |
| SlidingMap.SidesKept | FAST_LIO_ROS2/src/laserMapping.cpp:263-273 | The moved box has the old side lengths |
| SlidingMap.SettlesIff | FAST_LIO_ROS2/src/laserMapping.cpp:252-274 | For every cube, detection range and margin: one move takes every position that is in one edge zone, but farther than the margin from that edge, out of both zones, iff there is no such position, or margin and move together reach across the zone and the side less the move is longer than both zones |
| SlidingMap.MoveSettlesIff | FAST_LIO_ROS2/src/laserMapping.cpp:252-274 | With the detection range as margin: iff the cube is longer than 3.5 detection ranges, or at most 2.5, where there is no such position |
| SlidingMap.LongMoveClears | FAST_LIO_ROS2/src/laserMapping.cpp:252-274 | In a cube longer than 3 ranges and 1/0.9 range: after a move from the rim of an edge zone, every position within 0.45 (side - 3 ranges) of the sensor on that axis is at least 1.5 ranges from both edges |
| SlidingMap.Bounces | FAST_LIO_ROS2/src/laserMapping.cpp:252-274 | For cubes between 3 and 3.5 detection ranges a concrete position makes the cube move forth and back with every one of n calls, for every n |
| SlidingMap.ShortCubeNeverQuiet | FAST_LIO_ROS2/src/laserMapping.cpp:252-256 | In a cube of at most 3 detection ranges every position inside is in an edge zone |
| SlidingMap.ShortCubeNeverSettles | FAST_LIO_ROS2/src/laserMapping.cpp:252-274 | From 0.5 to 3 detection ranges every position inside keeps the cube moving, after any number of calls |
| SlidingMap.SweptByMove | FAST_LIO_ROS2/src/laserMapping.cpp:261-279 | Deleting the slabs removes no live point of the new box, keeps every live point outside the old box, and leaves none of the old box outside the new one |
| SlidingMap.NeedMove | FAST_LIO_ROS2/src/laserMapping.cpp:250-257 | The flag is set iff some axis is within the threshold of an edge |
| SlidingMap.MoveCube | FAST_LIO_ROS2/src/laserMapping.cpp:258-275 | The loop computes the moved box and the slabs |
| SlidingMap.CubeAround | FAST_LIO_ROS2/src/laserMapping.cpp:243-246 | The initial cube is centred with the given side length |
| SlidingMap.LaserMapping.lasermap_fov_segment | FAST_LIO_ROS2/src/laserMapping.cpp:235-281 | First call: only the cube is set. Later calls, axis by axis in numbers: within 1.5 detection ranges of an edge the box moves away from it by 0.45 times the side less three ranges, at least by half a range, and otherwise stays; the index loses exactly the swept points, and the counter is their number |
| NanoResultSet.InsertSorts | fastlio_pgo/include/fastlio_pgo/nanoflann.hpp:175-202 | Inserting behind equal distances keeps the list ascending and adds exactly the candidate |
| NanoResultSet.InsertedNearest | fastlio_pgo/include/fastlio_pgo/nanoflann.hpp:175-202 | Insertion into the bounded list keeps the k nearest of everything offered, up to the approximation factor |
| NanoResultSet.KNNResultSet.constructor | fastlio_pgo/include/fastlio_pgo/nanoflann.hpp:155-164 | An empty result whose last slot, if it has any, is the largest distance |
| NanoResultSet.KNNResultSet.addPoint | fastlio_pgo/include/fastlio_pgo/nanoflann.hpp:175-202 | The in-place shift and the capacity tests equal inserting and cutting off at capacity |
| NanoResultSet.KNNResultSet.worstDist | fastlio_pgo/include/fastlio_pgo/nanoflann.hpp:204-204 | Unbounded until the set is full, then the greatest kept distance |
| NanoResultSet.KNNResultSet.full | fastlio_pgo/include/fastlio_pgo/nanoflann.hpp:168-168 | Full iff capacity many are kept |
| NanoBuild.Pass | fastlio_pgo/include/fastlio_pgo/nanoflann.hpp:971-985 | One two-pointer pass with unsigned indices and no underflow: it permutes the slice and separates it at the returned limit |
| NanoBuild.planeSplit | fastlio_pgo/include/fastlio_pgo/nanoflann.hpp:968-1004 | Permutes the slice into a smaller, an equal and a greater block with the returned limits, and leaves the rest of the array alone |
| NanoBuild.computeMinMax | fastlio_pgo/include/fastlio_pgo/nanoflann.hpp:837-849 | The exact minimum and maximum over the slice |
| NanoBuild.CutFeature | fastlio_pgo/include/fastlio_pgo/nanoflann.hpp:913-935 | Among the sides of the box longer than 0.99999 of the longest, the first feature of widest actual spread |
| NanoBuild.SplitIndex | fastlio_pgo/include/fastlio_pgo/nanoflann.hpp:951-956 | For two or more points and a cut between their extremes, the chosen index is strictly inside, with smaller or equal points before and greater or equal ones after it |
| NanoBuild.SplitOfOne | fastlio_pgo/include/fastlio_pgo/nanoflann.hpp:951-956 | For a single point the chosen index would be 0, so two points are needed |
| NanoBuild.middleSplit_ | fastlio_pgo/include/fastlio_pgo/nanoflann.hpp:910-957 | Returns 1 <= index <= count-1 with everything before at most the cut value and everything after at least; beyond the half only if all before is strictly below the cut, short of it only if all after is strictly above; the slice is permuted, the feature and value are those the rule prescribes |
| NanoBuild.SplitGood | fastlio_pgo/include/fastlio_pgo/nanoflann.hpp:885-904 | Joining two good children gives a good node: divlow is the left side's maximum, divhigh the right side's minimum |
| NanoBuild.divideTree | fastlio_pgo/include/fastlio_pgo/nanoflann.hpp:858-908 | Terminates for leaf size >= 1; the slice is permuted, leaves partition it in order with at most leafMax points, every split separates its sides at divlow <= divhigh, and the returned box is the tight bounding box |
| NanoBuild.BoundingBox | fastlio_pgo/include/fastlio_pgo/nanoflann.hpp:868-880 | The tight bounding box of a leaf |
| NanoSearch.evalMetric | fastlio_pgo/include/fastlio_pgo/nanoflann.hpp:383-408 | The loop computes the sum of squared coordinate differences |
| NanoSearch.HitsFar | fastlio_pgo/include/fastlio_pgo/nanoflann.hpp:1744-1752 | Per-axis lower bounds of a slice add up to a lower bound of every candidate's distance |
| NanoSearch.BoundsBeyond | fastlio_pgo/include/fastlio_pgo/nanoflann.hpp:1734-1749 | Replacing one axis' bound by the squared distance to the cut plane is valid for the far child |
| NanoSearch.Prune | fastlio_pgo/include/fastlio_pgo/nanoflann.hpp:1747-1752 | Leaving out the far child when its scaled bound exceeds the current worst distance keeps the k nearest up to 1 + eps |
| NanoSearch.SearchLeaf | fastlio_pgo/include/fastlio_pgo/nanoflann.hpp:1700-1723 | A leaf offers every point that was not removed; the stale worst distance drops none that matters |
| NanoSearch.searchLevel | fastlio_pgo/include/fastlio_pgo/nanoflann.hpp:1695-1754 | The recursion keeps mindistsq equal to the sum of dists, restores dists, and leaves the k nearest of what was seen and of the subtree's points, up to 1 + eps |
| NanoSearch.SearchOther | fastlio_pgo/include/fastlio_pgo/nanoflann.hpp:1747-1753 | The far child: bound updated, tested, searched or pruned, and dists[idx] restored |
| NanoSearch.computeInitialDistances | fastlio_pgo/include/fastlio_pgo/nanoflann.hpp:1006-1024 | Each dists[i] is the squared gap from the query to the root box, and the result is their sum |
| NanoSearch.BoxBounds | fastlio_pgo/include/fastlio_pgo/nanoflann.hpp:1006-1024 | These gaps are lower bounds for all indexed points |
| NanoSearch.buildIndex | fastlio_pgo/include/fastlio_pgo/nanoflann.hpp:1554-1564 | The index permutes its vind and is good and tight, or has no root when empty |
| NanoSearch.findNeighbors | fastlio_pgo/include/fastlio_pgo/nanoflann.hpp:1583-1603 | One tree: the result ends with the k nearest of what it held and the tree's points that were not removed, up to 1 + eps; the answer is true iff the tree is not empty and the result is full |
| NanoSearch.HitsPermute | fastlio_pgo/include/fastlio_pgo/nanoflann.hpp:1191-1203 | What a query can return does not depend on the order of vind |
| NanoSearch.EverythingIs | fastlio_pgo/include/fastlio_pgo/nanoflann.hpp:1222-1243 | Brute force contains each index that was not removed exactly once, with its distance |
| NanoSearch.knnSearch | fastlio_pgo/include/fastlio_pgo/nanoflann.hpp:1253-1260 | The result is ascending and holds the k nearest of brute force, up to 1 + eps; with eps = 0 exactly the k nearest |
| NanoDynamic.First0Bit | fastlio_pgo/include/fastlio_pgo/nanoflann.hpp:1822-1829 | The least bit that is not set |
| NanoDynamic.Carry | fastlio_pgo/include/fastlio_pgo/nanoflann.hpp:1883-1903 | Adding one clears the bits below the lowest zero, sets that one, and keeps all above |
| NanoDynamic.AllOnes | fastlio_pgo/include/fastlio_pgo/nanoflann.hpp:1883-1903 | If the k lowest bits are all set the number is at least 2^k - 1, so the carry stays within the trees |
| NanoDynamic.AllOfMerged | fastlio_pgo/include/fastlio_pgo/nanoflann.hpp:1887-1900 | Merging trees 0..pos-1 and the new index into tree pos adds exactly that index to all trees together |
| NanoDynamic.InOneTree | fastlio_pgo/include/fastlio_pgo/nanoflann.hpp:1883-1903 | In a binary counter of trees every index lies in exactly one tree, and treeIndex names it or is -1 |
| NanoDynamic.MergeStep | fastlio_pgo/include/fastlio_pgo/nanoflann.hpp:1889-1897 | Emptying tree i into tree pos keeps the state of the carry |
| NanoDynamic.MergeDone | fastlio_pgo/include/fastlio_pgo/nanoflann.hpp:1898-1901 | After the carry the trees hold the old indices and the inserted one, and they are the binary counter of n + 1 iff that index was n |
| NanoDynamic.AllHitsIsEverything | fastlio_pgo/include/fastlio_pgo/nanoflann.hpp:1925-1931 | The candidates of all trees together are those of brute force over the points that were not removed |
| NanoDynamic.KDTreeSingleIndexDynamicAdaptor.constructor | fastlio_pgo/include/fastlio_pgo/nanoflann.hpp:1856-1875 | The adaptor starts as the binary counter of the initial points |
| NanoDynamic.KDTreeSingleIndexDynamicAdaptor.Absorb | fastlio_pgo/include/fastlio_pgo/nanoflann.hpp:1890-1897 | The inner loop moves all of tree i into tree pos and renames exactly the indices that were not removed |
| NanoDynamic.KDTreeSingleIndexDynamicAdaptor.AddOne | fastlio_pgo/include/fastlio_pgo/nanoflann.hpp:1885-1901 | Inserting any index adds it to what the trees hold and keeps removed points removed; the trees are the counter of n + 1 iff the index is n |
| NanoDynamic.KDTreeSingleIndexDynamicAdaptor.addPoints | fastlio_pgo/include/fastlio_pgo/nanoflann.hpp:1883-1903 | A contiguous range: tree i holds 2^i indices iff bit i of the count is set, every index is in one tree, old removals stay |
| NanoDynamic.KDTreeSingleIndexDynamicAdaptor.removePoint | fastlio_pgo/include/fastlio_pgo/nanoflann.hpp:1906-1910 | Marks one index as removed and keeps the counter; beyond the count nothing happens |
| NanoDynamic.KDTreeSingleIndexDynamicAdaptor.findNeighbors | fastlio_pgo/include/fastlio_pgo/nanoflann.hpp:1925-1931 | A query over all trees equals brute force over the points that were not removed, up to 1 + eps |
| Utf.RangeIs | livox_ros_driver2/3rdparty/rapidjson/encodings.h:269-298 | The classes of the table for all bytes from 0x80 on |
| Utf.Utf8RoundTrip | livox_ros_driver2/3rdparty/rapidjson/encodings.h:108-211 | For every Unicode scalar value and whatever follows: decoding its encoding gives it back, consumes exactly it, and the encoding is well formed by section 4 of RFC 3629 |
| Utf.Utf8DecodeExact | livox_ros_driver2/3rdparty/rapidjson/encodings.h:148-211 | Decode succeeds exactly on the well-formed sequences of section 4 of RFC 3629, gives a scalar value whose encoding is what was consumed, and consumes the right number of bytes |
| Utf.Utf16RoundTrip | livox_ros_driver2/3rdparty/rapidjson/encodings.h:355-402 | For every scalar value: decoding the pair or unit gives it back (sections 2.1 and 2.2 of RFC 2781) |
| Utf.Utf16DecodeExact | livox_ros_driver2/3rdparty/rapidjson/encodings.h:388-402 | Decode succeeds exactly on a single non-surrogate or a high-low pair, and re-encoding gives back what was consumed |
| Utf.Utf32DecodeExact | livox_ros_driver2/3rdparty/rapidjson/encodings.h:524-530 | Decode returns the unit and accepts scalar values and, unlike the other encodings, surrogates too |
| UtfStreams.AutoRoundTrip | livox_ros_driver2/3rdparty/rapidjson/encodedstream.h:217-305 | For every encoding, nonempty text, mark and default: encoding and mark are detected as written iff, with mark, the text is not UTF-16LE starting with U+0000, or, without, its first four bytes show its encoding or leave it to a right default; and then every scalar value comes back |
| UtfStreams.BomDetected | livox_ros_driver2/3rdparty/rapidjson/encodedstream.h:225-262 | A text written with byte order mark is detected as written iff it is not UTF-16LE starting with U+0000, which is taken for UTF-32LE |
| UtfStreams.DetectedBy | livox_ros_driver2/3rdparty/rapidjson/encodedstream.h:225-297 | A byte order mark decides first, then the pattern of zeros, then the default |
| UtfStreams.Utf8Marked | livox_ros_driver2/3rdparty/rapidjson/encodedstream.h:256-262 | The bytes of a UTF-8 text look like a byte order mark iff it starts with U+FEFF |
| UtfStreams.PatternDetected | livox_ros_driver2/3rdparty/rapidjson/encodedstream.h:275-297 | Without mark and for a given default: detected as written iff the first four bytes have the pattern of zeros of section 3 of RFC 4627 for its encoding and it is not UTF-8 starting with U+FEFF, or the default is right and the bytes show no mark and no pattern, or are fewer than four |
| UtfStreams.PatternDetectedIff | livox_ros_driver2/3rdparty/rapidjson/encodedstream.h:275-297 | Detected as written whatever the default iff the pattern is there and it is not UTF-8 starting with U+FEFF |
| UtfStreams.JsonShows | livox_ros_driver2/3rdparty/rapidjson/encodedstream.h:264-297 | A text of at least four bytes without U+0000 starting with two ASCII characters, as RFC 4627 describes it, has the pattern |
| UtfStreams.SkipsMark | livox_ros_driver2/3rdparty/rapidjson/encodedstream.h:232-262 | Exactly the detected mark is skipped |
| UtfStreams.Word4Is | livox_ros_driver2/3rdparty/rapidjson/encodedstream.h:229-256 | The five byte order mark tests, byte by byte |
| UtfStreams.PatternIs | livox_ros_driver2/3rdparty/rapidjson/encodedstream.h:276-297 | The five zero patterns, byte by byte |
| UtfStreams.PutTake | livox_ros_driver2/3rdparty/rapidjson/encodings.h:430-615 | For every encoding: taking the bytes that Put wrote gives the unit back |
| UtfStreams.TakeBack | livox_ros_driver2/3rdparty/rapidjson/encodings.h:430-615 | Units written one after the other are read back in order from the position they start at |
| UtfStreams.RoundTripUnits | livox_ros_driver2/3rdparty/rapidjson/encodings.h:108-530 | Every encoding's Decode undoes its Encode |
| UtfStreams.TextRoundTrip | livox_ros_driver2/3rdparty/rapidjson/encodings.h:108-530 | Decoding the encoding of any text gives the text, every step reported well formed |
| UtfIo.MemoryStream.Peek | livox_ros_driver2/3rdparty/rapidjson/memorystream.h:54-54 | The current byte, 0 at the end |
| UtfIo.MemoryStream.Take | livox_ros_driver2/3rdparty/rapidjson/memorystream.h:55-55 | The current byte, advancing unless at the end |
| UtfIo.TakeFrom | livox_ros_driver2/3rdparty/rapidjson/encodings.h:430-600 | Takes one unit of the given encoding from the stream |
| UtfIo.DecodeUtf8 | livox_ros_driver2/3rdparty/rapidjson/encodings.h:148-211 | Decoding on the stream equals decoding the stream's units and advances by the number used |
| UtfIo.DecodeUtf16 | livox_ros_driver2/3rdparty/rapidjson/encodings.h:388-402 | The same for UTF-16 |
| UtfIo.DecodeOne | livox_ros_driver2/3rdparty/rapidjson/encodings.h:727-732 | The same for the encoding the stream has detected |
| UtfIo.ValidateUtf8 | livox_ros_driver2/3rdparty/rapidjson/encodings.h:214-267 | Validate answers exactly as Decode would, consumes as much, and copies exactly what it consumed |
| UtfIo.AutoUTFInputStream.constructor | livox_ros_driver2/3rdparty/rapidjson/encodedstream.h:180-187 | Detects encoding and mark and stands before the first unit of the text |
| UtfIo.AutoUTFInputStream.DetectType | livox_ros_driver2/3rdparty/rapidjson/encodedstream.h:217-305 | The branches of the code equal the detection specification |
| UtfIo.AutoUTFInputStream.Take | livox_ros_driver2/3rdparty/rapidjson/encodedstream.h:193-197 | Returns the current unit and advances by one |
| UtfIo.WriteText | livox_ros_driver2/3rdparty/rapidjson/encodedstream.h:334-353 | Writing a text gives mark and encoded units |
| UtfIo.ReadText | livox_ros_driver2/3rdparty/rapidjson/encodedstream.h:193-197 | Reading n scalar values equals decoding the stream's units n times |
| UtfIo.WriteThenRead | livox_ros_driver2/3rdparty/rapidjson/encodedstream.h:168-393 | Writing any nonempty text and reading it back: encoding and mark come out as written iff the condition of AutoRoundTrip holds, and then so does the text |
| UtfIo.EncodedInputStreamUtf8 | livox_ros_driver2/3rdparty/rapidjson/encodedstream.h:88-92 | The constructor skips the bytes the specification says |
| UtfIo.Utf8BomSkipped | livox_ros_driver2/3rdparty/rapidjson/encodedstream.h:88-92 | It skips a written mark; without one it skips nothing iff the first scalar value is outside U+F000..U+FFFF, since it tests the three bytes one by one |
| PoolAllocator.SizeWithinCapacity | livox_ros_driver2/3rdparty/rapidjson/allocators.h:191-205 | In every sound chunk list Size() <= Capacity() |
| PoolAllocator.MallocSound | livox_ros_driver2/3rdparty/rapidjson/allocators.h:208-220 | Cutting an aligned block off the front chunk keeps all blocks inside their chunk, aligned and pairwise disjoint |
| PoolAllocator.LastBlock | livox_ros_driver2/3rdparty/rapidjson/allocators.h:236-239 | The pointer comparison of Realloc holds only for the block cut last, and only if the whole block is asked about |
| PoolAllocator.ExpandSound | livox_ros_driver2/3rdparty/rapidjson/allocators.h:240-244 | Growing that block in place keeps soundness |
| PoolAllocator.AddChunkSound | livox_ros_driver2/3rdparty/rapidjson/allocators.h:268-281 | A fresh chunk in front keeps soundness |
| PoolAllocator.CopyFacts | livox_ros_driver2/3rdparty/rapidjson/allocators.h:248-250 | The copy brings the old contents into the new block and touches no other block |
| PoolAllocator.HeaderAlignedIff | livox_ros_driver2/3rdparty/rapidjson/allocators.h:163-166 | Every sound allocator over a user buffer keeps the blocks handed out in it inside the buffer iff the header size is a multiple of the alignment |
| PoolAllocator.Overrun | livox_ros_driver2/3rdparty/rapidjson/allocators.h:153-220 | For any other header size: a buffer and one allocation whose block ends behind the buffer |
| PoolAllocator.MemoryPoolAllocator.constructor | livox_ros_driver2/3rdparty/rapidjson/allocators.h:133-139 | No chunk, no block |
| PoolAllocator.MemoryPoolAllocator.WithBuffer | livox_ros_driver2/3rdparty/rapidjson/allocators.h:153-167 | The user buffer becomes the only chunk, of its size less the plain header |
| PoolAllocator.MemoryPoolAllocator.Clear | livox_ros_driver2/3rdparty/rapidjson/allocators.h:178-186 | All blocks are gone, only the emptied user buffer is left |
| PoolAllocator.MemoryPoolAllocator.Capacity | livox_ros_driver2/3rdparty/rapidjson/allocators.h:191-196 | The sum of all capacities along the list |
| PoolAllocator.MemoryPoolAllocator.Size | livox_ros_driver2/3rdparty/rapidjson/allocators.h:201-205 | The sum of all used sizes along the list, at most the capacity |
| PoolAllocator.MemoryPoolAllocator.AddChunk | livox_ros_driver2/3rdparty/rapidjson/allocators.h:268-281 | A chunk of the capacity in front, or nothing when memory is refused |
| PoolAllocator.MemoryPoolAllocator.Malloc | livox_ros_driver2/3rdparty/rapidjson/allocators.h:208-220 | Fails iff nothing is asked or memory is refused without room; else one new aligned block, cut behind the used part of the front or a new chunk, and all blocks stay sound |
| PoolAllocator.MemoryPoolAllocator.Realloc | livox_ros_driver2/3rdparty/rapidjson/allocators.h:223-253 | Stays in place iff it need not grow or is the last block with room behind; else a new block with the old contents. All blocks stay sound and no other block's bytes change |
| PoolAllocator.Align | livox_ros_driver2/3rdparty/rapidjson/rapidjson.h:291-294 | The least multiple of 8 not below the argument |
| Dom.FlagsMean | livox_ros_driver2/3rdparty/rapidjson/document.h:2339-2370 | The canonical flags, bit by bit: the int, uint, int64 and uint64 bit is set iff the value is in that range, the number bit always, the double bit never; the stored word is the two's complement |
| Dom.ConstructorsMake | livox_ros_driver2/3rdparty/rapidjson/document.h:750-1010 | What each constructor stores, bit by bit and with its contents: null, booleans, doubles, strings by the length of 13, and that all of them are values that Accept takes |
| Dom.ConstructorsAgree | livox_ros_driver2/3rdparty/rapidjson/document.h:858-899 | Each of the four integer constructors gives the same flags and stored word as the canonical value, although they test masks and signs differently |
| Dom.GettersExact | livox_ros_driver2/3rdparty/rapidjson/document.h:2071-2086 | Reading the stored word at any type the value fits gives the value |
| Dom.PairsOfSpread | livox_ros_driver2/3rdparty/rapidjson/document.h:2982-2988 | Name and value pairs pushed one by one are collected back as the members |
| Dom.GenericDocument.Int | livox_ros_driver2/3rdparty/rapidjson/document.h:2934-2937 | Pushes the canonical value |
| Dom.GenericDocument.Uint | livox_ros_driver2/3rdparty/rapidjson/document.h:2938-2941 | Pushes the canonical value |
| Dom.GenericDocument.Int64 | livox_ros_driver2/3rdparty/rapidjson/document.h:2942-2945 | Pushes the canonical value |
| Dom.GenericDocument.Uint64 | livox_ros_driver2/3rdparty/rapidjson/document.h:2946-2949 | Pushes the canonical value |
| Dom.GenericDocument.EndObject | livox_ros_driver2/3rdparty/rapidjson/document.h:2982-2988 | Replaces the start marker and twice the count of values by an object whose i-th member is the i-th pair of them |
| Dom.GenericDocument.EndArray | livox_ros_driver2/3rdparty/rapidjson/document.h:2995-3000 | Replaces the start marker and the count of values by an array of exactly these values, in order |
| Dom.AcceptKey | livox_ros_driver2/3rdparty/rapidjson/document.h:2300-2304 | The event for a member name, or string, brings back text, copy flag and short-string flag |
| Dom.AcceptNumber | livox_ros_driver2/3rdparty/rapidjson/document.h:2318-2330 | The event chosen by the flags brings back the same flags and value, except that a number with the flags of all types comes back as the double zero |
| Dom.AcceptArray | livox_ros_driver2/3rdparty/rapidjson/document.h:2309-2313 | An array of any depth leaves one value more on the stack: itself with every number that has the flags of all types replaced by the double zero |
| Dom.AcceptObject | livox_ros_driver2/3rdparty/rapidjson/document.h:2295-2307 | An object of any depth leaves one value more on the stack: itself with every number that has the flags of all types replaced by the double zero |
| Dom.Accept | livox_ros_driver2/3rdparty/rapidjson/document.h:2286-2331 | For every value built by constructors and handlers and every stack: Accept into a document leaves the stack with exactly one value more, the value itself with every number that has the flags of all types replaced by the double zero |
| Dom.ResentSame | livox_ros_driver2/3rdparty/rapidjson/document.h:2286-2331 | What comes back has the same structure, strings and exact numbers, is itself such a value, and holds no number with the flags of all types |
| Dom.ResentIff | livox_ros_driver2/3rdparty/rapidjson/document.h:2286-2331 | What comes back is the value itself, flags included, iff no number in it, however deep, has the flags of all types |
| Dom.AnyNumberChanges | livox_ros_driver2/3rdparty/rapidjson/document.h:770-782 | What the constructor from a type stores for each type; of these values exactly the one for kNumberType does not come back as it was: it was an int and is none |
| Dom.NumericExact | livox_ros_driver2/3rdparty/rapidjson/document.h:2071-2104 | The number read from a canonical integer by its flags is that integer |
| ScanContext.ShiftsCompose | fastlio_pgo/src/Scancontext.cpp:40-60 | Shifts add up, and count modulo the number of columns |
| ScanContext.circshift | fastlio_pgo/src/Scancontext.cpp:40-60 | The loop computes the cyclic shift, zero included |
| ScanContext.RingKeyInvariant | fastlio_pgo/src/Scancontext.cpp:199-212 | The ring key does not change under any shift |
| ScanContext.RingKeyOfStep | fastlio_pgo/src/Scancontext.cpp:199-212 | A row with x in p columns and y in the others has their weighted mean as key |
| ScanContext.SectorKeyOfStep | fastlio_pgo/src/Scancontext.cpp:215-228 | A column with x in p rows and y in the others has their weighted mean as key |
| ScanContext.SectorKeyEquivariant | fastlio_pgo/src/Scancontext.cpp:215-228 | The sector key shifts along |
| ScanContext.makeRingkeyFromScancontext | fastlio_pgo/src/Scancontext.cpp:199-212 | The row means |
| ScanContext.makeSectorkeyFromScancontext | fastlio_pgo/src/Scancontext.cpp:215-228 | The column means |
| ScanContext.CauchySchwarz | fastlio_pgo/src/Scancontext.cpp:82-82 | The dot product is at most the product of the norms, in any dimension |
| ScanContext.DistanceNonNegative | fastlio_pgo/src/Scancontext.cpp:70-91 | The distance of two descriptors, where it is a number, is never negative |
| ScanContext.DistanceToItself | fastlio_pgo/src/Scancontext.cpp:70-91 | The distance of a descriptor with a nonzero column to itself is 0 |
| ScanContext.CosineIsOne | fastlio_pgo/src/Scancontext.cpp:80-85 | The case of equality: a column pair has similarity 1 iff each column times the norm of the other is the same |
| ScanContext.DistanceZeroIff | fastlio_pgo/src/Scancontext.cpp:70-91 | Two descriptors are at distance 0 iff some column pair counts and all that count are parallel |
| ScanContext.CountsIff | fastlio_pgo/src/Scancontext.cpp:79-80 | A column is left out iff all its entries are 0 |
| ScanContext.DistanceOfParts | fastlio_pgo/src/Scancontext.cpp:70-91 | If p of the q counted column pairs are parallel and the others share no occupied entry, the distance is (q - p) / q |
| ScanContext.DistanceShiftInvariant | fastlio_pgo/src/Scancontext.cpp:70-91 | Shifting both descriptors alike does not change the distance |
| ScanContext.distDirectSC | fastlio_pgo/src/Scancontext.cpp:70-91 | The loop computes that distance, not a number when no column pair counts |
| ScanContext.KeyDistanceZero | fastlio_pgo/src/Scancontext.cpp:102-104 | The norm of the key difference is 0 iff the keys are equal |
| ScanContext.fastAlignUsingVkey | fastlio_pgo/src/Scancontext.cpp:94-114 | The first shift of least norm below the initial bound, 0 if none is below it |
| ScanContext.AlignsFirst | fastlio_pgo/src/Scancontext.cpp:94-114 | If one sector key is the other shifted, the first shift that makes them equal is found |
| ScanContext.SearchSpace | fastlio_pgo/src/Scancontext.cpp:124-131 | The sorted shifts within the search radius around the alignment, which is among them |
| ScanContext.RadiusIs | fastlio_pgo/src/Scancontext.cpp:124-124 | A shift d places away is within the search radius iff 20 d is at most the number of columns plus 10 |
| ScanContext.CopyAtZero | fastlio_pgo/src/Scancontext.cpp:117-149 | A shifted copy with a nonzero column and a unique key shift gets alignment at that shift and distance 0 |
| ScanContext.ZeroIff | fastlio_pgo/src/Scancontext.cpp:117-149 | For any two descriptors: the distance found is 0 iff at some shift d places from the key alignment with 20 d at most the columns plus 10, going round, one descriptor matches the other in this sense |
| ScanContext.CopyZeroIff | fastlio_pgo/src/Scancontext.cpp:117-149 | A shifted copy is aligned at the first shift that makes the sector keys equal, and is at distance 0 iff it matches the original at some shift near that one |
| ScanContext.CopyMissed | fastlio_pgo/src/Scancontext.cpp:117-149 | A copy shifted by one column, all columns of norm 1, whose distance is not 0: its sector key does not change under shifts |
| ScanContext.distanceBtnScanContext | fastlio_pgo/src/Scancontext.cpp:117-149 | The distance is the least over all shifts d places to either side of the key alignment, going round, with 20 d at most the number of columns plus 10, below the initial bound of ten million, and the shift is one where it is found; for a copy with a unique key shift it is 0 |

## Left out

Weaker or conditional contracts:

- KdTree.KD_TREE.Nearest_Search: exact if squared distances in reach are equal or at least 1e-10 apart, or under the weaker condition of VisitsExactIff; without it the contract promises the right number of live points within max_dist. The number of threads is one.
- VisitOrder.VisitGoesWrong: when fewer than k - 1 candidates are nearer than the farther member of the disorderly pair, the wrong order visits only the candidates up to that member, not those beyond it; so the converse of VisitsExactIff also speaks of nearest parts, which may have only some of the candidates at their greatest distance.
- KdTree.KD_TREE.Radius_Search: with a negative radius, for which the search is not exact, only that nothing outside of the squared radius is listed.
- KdTree.RunSafe: rebuilds run inline for subtrees below the multi-thread limit; above it the tree is left as it is, as the main thread does. The rebuild thread is modelled separately in IkdConcurrent.
- IkdConcurrent.RunSafe: runs whose swaps are harmless, which is exactly when they are safe (RunExactIff). Steps are atomic under the locks the code holds; the empty snapshot is excluded from Begin (EmptySnapshotIff says when it occurs), as are the early exits of the ancestor update loop, log overflow, and real timing.
- IkdConcurrent.RunExactIff: the subtrees that are rebuilt one after the other are disjoint and stay what they are; one inside another, and subtrees that come and go as their ancestors are rebuilt, are not modelled.
- IkdBalance.HeightBound: for trees below the multi-thread limit, where rebuilds are inline; so is KdTree.RunBounds.
- IkdBalance.DeleteBalanced: a balance parameter from 6/11 to 1, since below that a built tree of 12 nodes can fail the criterion at once.
- IkdNode.nth_element: by its library contract, as a parameter of the configuration; NthExists shows a function that meets it.
- IkdRadius.Search_by_radius: `radius_sq` is computed from the stored range, to which Update keeps it equal.
- NanoDynamic.KDTreeSingleIndexDynamicAdaptor.addPoints: ranges that continue at the current point count, as the constructor does, and no more points than the trees can hold. Any other start breaks the counter with its first index (AddOne), and a later one makes the code read treeIndex beyond its end.
- NanoSearch.knnSearch: at least one neighbour is asked for, because the code reads the slot before its result array otherwise; the static search is the dynamic one with nothing removed, and the tree's leaf size is at least one.
- IkdRadius.RadiusExact: for every function that is a square root on all numbers that are not negative; that the reals have one is taken from outside.
- UtfIo.TakeFrom: a UTF-8 byte is taken as the unit of the same number. Where char is signed the source widens bytes above 0x7F with their sign; Decode looks at the low eight bits only, so it gives the same.
- PoolAllocator.MemoryPoolAllocator.Realloc: the caller names the block it asks about and an original size no larger than it. What the base allocator grants is a parameter: an address of fresh aligned memory, or 0.
- PoolAllocator.MemoryPoolAllocator.WithBuffer: the buffer address is a multiple of the alignment.
- ScanContext.distanceBtnScanContext: descriptors of one common shape with at least one row and column.
- Dom.Accept: values that the constructors, the one from a type included, and the handlers can build; names of members are strings.

Not modelled:

- Floating-point rounding and NaN arithmetic: coordinates and distances are exact reals. The one NaN that decides a branch, a descriptor distance without any counting column, is a case of its own.
- Integer widths, except in the encodings (32-bit units, bytes), the integer flags of the document, and the unsigned indices of planeSplit.
- ikd-Tree: Add_Point_Boxes, Delete_Points, acquire_removed_points, tree_range, the alpha statistics, father pointers, working flags, mutexes in the single-threaded part, and the back of the log queue.
- nanoflann: the other metrics, radius search, saving and loading, a data set that supplies its own bounding box, and data that grows after construction of the dynamic adaptor.
- RapidJSON: the reader and the writer, the unsafe put variants, transcoding between different encodings, validation other than UTF-8, the pointer-packing layout of values, doubles as bit patterns.
- Scan Context: binning a cloud into a descriptor, the candidate search of loop detection, the k-d tree over ring keys.
- laserMapping: buffering and synchronisation of sensor messages, the state estimate that supplies the position, publishing.
