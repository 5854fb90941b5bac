# Splat level-of-detail structures, modelled in Dafny

This project models the data structures a Gaussian-splat renderer uses to pick
which splats to draw at a given level of detail, plus the topology of its cloth
simulation:

- **Bounding box** (`BB.hpp`, `bb.dfy`, module `BoundingBox`): a box stored as a
  centre and a diagonal column. Covers `from_aabb`, `center`, `size`, `min`,
  `max` and `corners`.
- **Octree** (`Octree.hpp` and `Octree.cpp`):
  - `build` puts a cube around the raw splats, then splits nodes breadth first
    into up to eight octant children. A node splits while it is above the depth
    bound and holds more than the per-node bound. Empty octants are dropped.
  - A second breadth-first pass then collapses every chain of single-child
    nodes.
  - `generate` merges each node's raw splats into one splat. It stamps the node
    with that splat's index.
  - `get_indices` walks from the root and stops at leaves and at nodes that
    are small on screen.
  - `get_indices_depth` and `generate_debug` are modelled too.
  - The shared-pointer node graph is an arena `seq<ONode>` indexed by slot. The
    queue is a sequence of slots.
  - Modules: `OctreeNodes`, `OctreeShape`, `OctreeBuild`, `OctreeGrow`,
    `OctreeCollapse`, `OctreeBuilt`, `OctreeQuery`, and the class
    `SplatOctree.Octree`.
- **Hierarchical clustering** (`HC.hpp` and `HC.cpp`):
  - `build` seeds a priority queue with the merge of every pair of leaves. It
    then repeatedly accepts the candidate with the smallest error. Candidates
    whose children were already merged are dropped. Each accepted node is
    paired again with every active root.
  - `get_indices_depth` walks the forest with a stack and emits the nodes at
    exactly the requested depth.
  - Nodes live in an arena `seq<Node>`. The active list is a sequence of slots.
    The priority queue is a multiset of candidate nodes.
  - Modules: `HCNodes`, and `HCTree` with the class `HCTree.HC`.
- **Grid of hierarchies** (`GridHC.hpp` and `GridHC.cpp`):
  - `build` makes a 20×20×20 grid of cells over the splats' bounding box,
    padded by a tenth of a cell. It puts every splat in the cell its truncated
    coordinates name, and skips splats outside the grid.
  - It then builds one hierarchy per non-empty cell and concatenates the
    cells' hierarchy splats.
  - The two queries rebase each cell's local indices by a running `uint32_t`
    offset.
  - Modules: `GridIndex` (`get_index` with its 32-bit arithmetic and range
    check) and `GridHCModel` (the classes `Cell` and `GridHC`).
- **Cloth topology** (`Cloth.h`, module `ClothTopology`): the structural
  constraints of a `width × height` particle grid, the two anchor constraints,
  and the triangle index buffer.

The splat numerics are parameters. They are the weight, the weighted merge of
two splats, the divergence, the n-ary merge, raw-to-splat conversion and the
splats' bounding box. The record `Splats.SplatMath` carries them as function
values. Floating-point quantities are modelled as `real`.

## Model

| member | source | states |
|---|---|---|
| BoundingBox.FromAabbCenter | BB.hpp:12-20 | the centre of `from_aabb(lo, hi)` is the midpoint of the two corners |
| BoundingBox.FromAabbSize | BB.hpp:12-30 | the size of `from_aabb(lo, hi)` is `|hi - lo|` on each axis |
| BoundingBox.FromAabbBounds | BB.hpp:12-36 | `min`/`max` of `from_aabb(lo, hi)` are the componentwise min/max of the two corners, and exactly `lo`/`hi` when `lo <= hi` |
| BoundingBox.Size | BB.hpp:25-30 | the size is non-negative and on each axis is plus or minus the diagonal column |
| BoundingBox.MinBelowMax | BB.hpp:31-36 | `min <= max` whatever the diagonal's sign, and `max == min + size` |
| BoundingBox.Corners | BB.hpp:38-54 | eight corners, corner 0 is `min`, corner 6 is `max`, and every corner lies in the box |
| BoundingBox.CornersDistinct | BB.hpp:38-54 | a box with no flat axis has eight pairwise distinct corners |
| OctreeNodes.IsLeaf | Octree.hpp:67-69 | a node is a leaf exactly when it has no children |
| OctreeNodes.LowCorner | Octree.cpp:10-21 | the running minimum starts at the origin: it is below the origin and below every position |
| OctreeNodes.HighCorner | Octree.cpp:10-21 | the running maximum is above the origin and above every position |
| OctreeNodes.Largest | Octree.cpp:26 | the largest of three extents is one of them and at least each of them |
| OctreeNodes.CubeCovers | Octree.cpp:23-30 | the cube around `lo..hi` has side equal to the largest extent and contains `lo` and `hi` |
| OctreeNodes.CubeContains | Octree.cpp:9-31 | `get_bb`'s cube contains the origin and every raw position |
| OctreeBuild.GetBB | Octree.cpp:9-31 | the loop's result is the cube around the low and high corners |
| OctreeNodes.Octant | Octree.cpp:70-73 | the octant code is below 8 |
| OctreeNodes.OctantIsBitwiseOr | Octree.cpp:70-73 | the code equals the bitwise or of 1, 2 and 4 for the axes where the position is above the centre |
| OctreeNodes.OctantBits | Octree.cpp:71-73 | bit 1/2/4 of the code is set exactly when the position is strictly above the centre on x/y/z |
| OctreeNodes.ChildBoxes | Octree.cpp:78-101 | eight child boxes, the i-th is the box for octant i |
| OctreeNodes.ChildBoxHalves | Octree.cpp:83-101 | every child box has half the parent's size, and a point of the parent lies in the child box its octant names |
| OctreeNodes.ChildBoxShape | Octree.cpp:83-101 | child i's min/max take the centre or the parent's bound on each axis according to the bits of i |
| OctreeNodes.Bucket | Octree.cpp:67-75 | a bucket holds only indices of the node whose octant is the bucket's |
| OctreeNodes.Buckets | Octree.cpp:67-75 | there are eight buckets, one per octant |
| OctreeNodes.BucketsPartition | Octree.cpp:67-75 | the eight buckets together hold exactly the node's raw indices, as a multiset |
| OctreeBuild.Distribute | Octree.cpp:67-75 | the distribution loop computes the eight buckets |
| OctreeBuild.MakeChildren | Octree.cpp:60-107 | the children are the non-empty buckets in octant order, with depth + 1 and the octant's box |
| OctreeBuild.SplitNode | Octree.cpp:57-107 | splitting a slot appends its non-empty children, records them as its children, keeps every other slot, and gives the children together exactly the node's raw indices |
| OctreeBuild.SplitAll | Octree.cpp:33-108 | the split loop leaves a tree rooted at the cube holding every raw index, where a dequeued node has children exactly when it is above the depth bound and holds more than the per-node bound |
| OctreeGrow.SplitHere | Octree.cpp:52-107 | a node over both bounds ends up with children that hold its raw indices |
| OctreeCollapse.CollapseVisit | Octree.cpp:116-140 | one dequeue: a node with one child takes over every field of that child, with the queue, counter and size unchanged and the chain moved forward; any other node leaves the arena alone, its children are written into the queue at `size` with the rest of the queue kept, `size` grows by their number and the counter advances; the collapse invariant holds after both |
| OctreeCollapse.Expand | Octree.cpp:120-139 | for a node that does not have exactly one child (none for a leaf), its children are written into the queue from `size` on, the rest of the queue is kept, `size` grows by their number, and the collapse invariant holds with the counter one further |
| OctreeCollapse.Collapse | Octree.cpp:110-142 | the collapse pass leaves a breadth-first queue of chain heads; each queued slot holds the node at the end of its single-child chain |
| OctreeBuilt.PartitionFromGrown | Octree.cpp:124-135 | after collapsing, each queued node's children still hold exactly its raw indices |
| OctreeBuilt.BuildShape | Octree.cpp:33-142 | the built tree has a breadth-first layout, no node with one child, depth at most the bound, children exactly for nodes over both bounds, and every node's raw indices partitioned among its children |
| OctreeQuery.Cover | Octree.cpp:189-213 | the nodes the walk stops at hold every raw index exactly once |
| OctreeQuery.NothingSmall | Octree.cpp:203 | when no node is small on screen, the walk reaches every node and stops exactly at the leaves |
| OctreeQuery.CutIsPositions | Octree.cpp:203-206 | when each node's indices are its own queue position, the result is the list of positions the walk stops at |
| OctreeQuery.EmitIncreasing | Octree.cpp:195-213 | the walk stops at positions in increasing order, so none twice |
| SplatOctree.Octree.constructor | Octree.hpp:74-81 | an empty octree with depth bound 10 and one splat per node |
| SplatOctree.Octree.Grow | Octree.cpp:33-142 | the body of `build` yields the built tree and breadth-first queue, with no splat index given to any node; it also returns the split tree before collapsing, rooted at `get_bb`'s cube, with every node's octant codes and halved child boxes (`Grown`), and each queued slot holds the node at the end of its single-child chain in that tree |
| SplatOctree.Octree.Build | Octree.cpp:33-147 | `build` resets the splats, keeps the raw splats, and leaves the built tree and its breadth-first queue under the current bounds; the ghost field `split` keeps the split tree, with the same octant, box and chain-end facts as `Grow` |
| SplatOctree.Octree.GatherRaw | Octree.cpp:159-163 | `splats_new` holds, in order, the raw splat each index names |
| SplatOctree.Octree.PushAll | Octree.cpp:182-185 | pushing the children writes them at `size` and leaves the rest of the queue alone |
| SplatOctree.Octree.GenerateWalk | Octree.cpp:150-186 | the loop rewrites the queue into breadth-first order, stamps the k-th node with index k, and makes splat k the merge of its raw splats |
| SplatOctree.StampedAt | Octree.cpp:174-176 | after k nodes, each of the first k gets index k appended and every other node is unchanged |
| SplatOctree.Octree.Generate | Octree.cpp:149-187 | `generate` keeps the built tree, stamps every node with its breadth-first position, and makes the splats the per-node merges in that order |
| SplatOctree.GenerateEnd | Octree.cpp:149-187 | the stamped tree keeps the built shape, and the merges are those of its nodes |
| SplatOctree.Octree.GetIndicesDepth | Octree.hpp:131-139 | the indices of the queued nodes at that depth, in queue order |
| SplatOctree.DepthPositions | Octree.hpp:131-139 | after `generate`, the depth query yields, in increasing order, exactly the positions of the nodes at that depth |
| SplatOctree.Octree.CutWalk | Octree.cpp:190-213 | the loop returns the indices of the nodes the walk stops at, and the queue it rewrites holds the nodes it dequeued |
| SplatOctree.Octree.GetIndices | Octree.cpp:189-216 | `get_indices` keeps the tree and returns the indices of the nodes the breadth-first walk stops at (leaves, or nodes smaller on screen than the threshold) |
| SplatOctree.IndicesCoverRaw | Octree.cpp:189-216 | after `generate`, `get_indices` returns increasing positions below the node count, and the nodes at them hold each raw index exactly once |
| SplatOctree.Octree.DebugNode | Octree.hpp:113-127 | one converted splat per raw index is appended, and the node's indices get the consecutive new addresses |
| SplatOctree.Octree.DebugWalk | Octree.hpp:109-128 | the loops append the converted raw splats node by node in queue order and record their addresses |
| SplatOctree.Octree.GenerateDebug | Octree.hpp:109-128 | `generate_debug` appends one splat per raw index of every queued node, and stamps the nodes accordingly |
| SplatOctree.DebugAddresses | Octree.hpp:113-127 | each queued node's new indices are the consecutive range where its splats were appended |
| SplatOctree.DebugSplatAt | Octree.hpp:118-126 | the splat at such an address is the conversion of the node's raw splat with the same rank |
| HCNodes.IsLeaf | HC.hpp:36-38 | a node is a leaf exactly when it has no children |
| HCNodes.Leaf | HC.cpp:10-15 | a leaf has no children, depth 0, error 0 and its slot as index |
| HCNodes.NormalizedWeights | HC.hpp:72-76 | normalising fails exactly when the total weight is 0; otherwise the weights sum to 1, keep their ratio, and lie strictly between 0 and 1 when both are positive |
| HCNodes.MergeNodes | HC.hpp:64-94 | the merged node is not a leaf, has the two children, has depth one more than the deeper child, and index 0; with positive weights its error lies between the two divergences and is non-negative when they are |
| HCNodes.TopExists | HC.hpp:48-52 | a non-empty queue has a candidate no other one beats |
| HCNodes.Top | HC.cpp:35-36 | the popped candidate has the smallest error in the queue |
| HCTree.SeedPairs | HC.cpp:20-30 | the queue holds the merge of each active root with every later one in the list |
| HCTree.SeedSize | HC.cpp:20-30 | seeding n roots queues n(n-1)/2 candidates |
| HCTree.DropStale | HC.cpp:37-39 | dropping a candidate with a processed child keeps the queue well-formed and still covering every pair of active roots |
| HCTree.MergeWithActive | HC.cpp:69-73 | re-pairing adds the merge of the accepted node with every active root |
| HCTree.Accepted | HC.cpp:47-76 | an accepted node keeps its children, depth, splat and error, and gets as index the slot where its splat is stored |
| HCTree.AsWrittenMergedIndexCollides | HC.cpp:47-76 | for two unit-weight splats, the merged node as build accepts it (unchanged, with `splats` not grown) shares index 0 with leaf 0, and the splat there is not the merged one |
| HCTree.AcceptedIndexAddressesSplat | HC.cpp:47-76 | in the corrected model every node's index addresses its own splat, and no two nodes share an index |
| HCTree.AcceptKeepsMerged | HC.cpp:47-76 | accepting a well-formed candidate into the next slot keeps every internal node the `merge_nodes` result of its two children |
| HCTree.AcceptMerge | HC.cpp:47-76 | accepting marks both children processed, removes them from the active list, appends the node and its splat, keeps the hierarchy consistent with one root fewer and every internal node a merge of its children, and the queue becomes the old one without the node plus its merges with the remaining roots |
| HCTree.MergeStep | HC.cpp:34-77 | the popped candidate has the smallest error in the queue; if a child was already processed, only that candidate leaves the queue and nothing else changes; otherwise the next state is exactly the acceptance of that candidate; either way the hierarchy stays consistent, internal nodes stay merges of their children, and a root goes or the queue shrinks |
| HCTree.MergeUntilEmpty | HC.cpp:34-77 | the main loop ends with at most one root, every internal node a merge of its children, and the node count grows by the number of roots removed |
| HCTree.SeedAndMerge | HC.cpp:20-77 | with at least one leaf, one root remains, whose leaves are every leaf slot exactly once, and every internal node is a merge of its children |
| HCTree.HC.constructor | HC.hpp:55 | a hierarchy with no nodes and no splats |
| HCTree.HC.AddLeaves | HC.cpp:9-16 | one leaf per input splat, each its own active root, with the input splats stored in order |
| HCTree.HC.Build | HC.cpp:4-83 | leaves first; every internal node is the `merge_nodes` result of its two children, accepted at its own slot; for n ≥ 1 splats, 2n − 1 nodes under one root whose leaves are each input slot exactly once |
| HCTree.EmitCut | HC.cpp:92-110 | the stack walk emits the forest's nodes at the requested depth |
| HCNodes.EmitIsCut | HC.cpp:92-110 | the emitted indices, as a multiset, are the cut of the forest at that depth |
| HCNodes.EmitDepth | HC.cpp:101-102 | every emitted index names a node of exactly that depth |
| HCNodes.ExpandKeepsCut | HC.cpp:103-105 | replacing a deeper node by its two children keeps the cut |
| HCNodes.CutZeroIsLeaves | HC.cpp:92-110 | the cut of a tree at depth 0 is its leaves |
| HCNodes.CutAllZero | HC.cpp:92-110 | the cut of the forest at depth 0 is all its leaves |
| HCNodes.DepthBound | HC.hpp:87 | a node of depth d has more than d leaves |
| HCTree.HC.GetIndicesDepth | HC.cpp:92-110 | the result is the cut at that depth; every index addresses a splat of a node at that depth; depth 0 yields every input leaf exactly once |
| GridIndex.U32 | GridHC.hpp:33 | the `uint32_t` value is below 2^32 and equals the input when that is below 2^32 |
| GridIndex.GetIndex | GridHC.hpp:32-38 | succeeds exactly when the 32-bit flat index is below the cell count, returning it; otherwise the out-of-range error |
| GridIndex.FlatBelow | GridHC.hpp:33 | the flat index of an in-grid coordinate is below the cell count |
| GridIndex.GetIndexInGrid | GridHC.hpp:32-38 | for an in-grid coordinate and fewer than 2^32 cells, `get_index` returns the row-major index |
| GridIndex.UnflatFlat | GridHC.hpp:33 | the flat index decodes back to its coordinate |
| GridIndex.FlatUnflat | GridHC.hpp:33 | every index below the cell count is the flat index of an in-grid coordinate |
| GridIndex.FlatInjective | GridHC.hpp:33 | distinct in-grid coordinates have distinct flat indices |
| GridIndex.Coord | GridHC.cpp:43-45 | the cast is defined exactly for a positive cell edge and a quotient above −1; it yields the integer part of a non-negative quotient and 0 for a quotient in (−1, 0) |
| GridIndex.PaddingInRange | GridHC.cpp:17-18 | with at least two subdivisions, a coordinate inside the box falls inside the padded grid on that axis |
| GridHCModel.CellOf | GridHC.cpp:42-49 | a splat has a cell exactly when its three casts are defined and in the grid; that cell is below the cell count |
| GridHCModel.Placed | GridHC.cpp:41-56 | the splats that are not skipped, each with a cell |
| GridHCModel.Bucket | GridHC.cpp:41-56 | a cell receives only splats whose cell it is |
| GridHCModel.BucketsHoldPlaced | GridHC.cpp:41-56 | the cells together hold exactly the splats not skipped, as a multiset |
| GridHCModel.CellsAtMostInput | GridHC.cpp:41-56 | the cells hold no more splats than the input |
| GridHCModel.AllPlaced | GridHC.cpp:14-18 | for a box with no flat axis and at least two subdivisions per axis, no splat inside the box is skipped |
| GridHCModel.Offset | GridHC.cpp:79-88 | the running `uint32_t` offset is below 2^32 |
| GridHCModel.OffsetIsStart | GridHC.cpp:79-88 | below 2^32 splats, the offset past some cells is where the next cell's splats start in the concatenation |
| GridHCModel.RebaseAddresses | GridHC.cpp:76-92 | below 2^32 splats, each rebased index addresses, in the concatenated splats, the splat its cell's query picked |
| GridHCModel.Cell.constructor | GridHC.hpp:11-18 | a fresh cell has no splats and its own unbuilt hierarchy |
| GridHCModel.Cell.Empty | GridHC.hpp:15-17 | a cell is empty exactly when it has no splats |
| GridHCModel.GridHC.constructor | GridHC.hpp:21 | 20 subdivisions per axis, no cells, no splats |
| GridHCModel.MakeRow | GridHC.cpp:34-37 | the innermost loop puts a fresh cell in each slot of the row and leaves the earlier slots alone |
| GridHCModel.MakePlane | GridHC.cpp:33-38 | the middle loop fills the `d.y · d.z` slots of plane i with fresh blank cells and leaves the earlier slots alone |
| GridHCModel.MakeCells | GridHC.cpp:24-39 | one fresh blank cell per grid slot, each with its own hierarchy |
| GridHCModel.Distribute | GridHC.cpp:41-56 | each cell receives exactly its bucket of the input, in input order |
| GridHCModel.BuildCell | GridHC.cpp:62-68 | a non-empty cell gets the hierarchy `HC::build` leaves for its splats: its leaves in the first slots, one root over all of them, and every internal node the `merge_nodes` result of its two children; an empty one keeps its unbuilt hierarchy |
| GridHCModel.BuildCells | GridHC.cpp:61-71 | every cell is built as `BuildCell` states, internal nodes being merges of their children, the cells' splats are kept, and the result is the hierarchies' splats in cell order |
| GridHCModel.MakeGrid | GridHC.cpp:14-71 | fresh separate cells, each holding its bucket and the hierarchy `HC::build` leaves for it, internal nodes being merges of their children, with the concatenated splats |
| GridHCModel.GridHC.Build | GridHC.cpp:10-74 | one fresh cell per grid slot, each holding exactly the splats whose cell it is; every non-empty cell's hierarchy has its splats as leaves under one root and every internal node the `merge_nodes` result of its two children; the grid's invariant is re-established |
| GridHCModel.DepthQuery | GridHC.cpp:84 | a non-empty cell's depth query is its hierarchy's cut at that depth |
| GridHCModel.DepthLocalsInRange | GridHC.cpp:84-87 | every local index of a depth query addresses a splat of its cell |
| GridHCModel.Rebased | GridHC.cpp:85-87 | the cell's indices are appended, each shifted by the offset |
| GridHCModel.Advance | GridHC.cpp:88 | the offset after a cell is the 32-bit offset past it |
| GridHCModel.GridHC.GetIndicesError | GridHC.cpp:76-92 | the rebased depth queries of the non-empty cells; below 2^32 splats, each result addresses in `splats` the splat its cell picked |
| GridHCModel.GridHC.GetIndices | GridHC.cpp:94-111 | the rebased per-cell queries; below 2^32 splats, and when the query picks in-range local indices, each result addresses the splat its cell picked |
| ClothTopology.FillHorizontal | Cloth.h:89-100 | the first loop writes the horizontal links into the first slots |
| ClothTopology.FillVertical | Cloth.h:101-112 | the second loop completes the grid's links |
| ClothTopology.FillGridConstraints | Cloth.h:87-112 | `(width-1)·height + (height-1)·width` constraints, exactly the grid links, none left unset |
| ClothTopology.HorizontalLinks | Cloth.h:89-100 | each horizontal link joins a particle to its right neighbour within the grid |
| ClothTopology.VerticalLinks | Cloth.h:101-112 | each vertical link joins a particle to the one below it within the grid |
| ClothTopology.GridLinksInGrid | Cloth.h:87-112 | every grid link joins two grid particles, the second after the first, one column or one row apart |
| ClothTopology.Cloth.constructor | Cloth.h:66-120 | the counts are `width·height` and `(width-1)(height-1)·6`; the constraints are the grid links followed by the two anchor links of particles 0 and `width-1` |
| ClothTopology.QuadRowShape | Cloth.h:201-209 | a row of quads has 6 indices per quad, in the source's order, all within the two rows |
| ClothTopology.TrianglesRow | Cloth.h:200-210 | row i of the buffer is the quad row between particle rows i and i+1 |
| ClothTopology.TrianglesLength | Cloth.h:200-210 | the buffer has 6·rows·(width-1) indices |
| ClothTopology.TrianglesBound | Cloth.h:200-210 | every index names a particle of the grid |
| ClothTopology.GridTriangles | Cloth.h:200-210 | the loops produce the triangle list |
| ClothTopology.Cloth.InitializeIndexBuffer | Cloth.h:198-218 | the buffer is the triangle list, its length is `indexCount`, and every index is below `particleCount` |

## Left out

- `BB::screen_area` (BB.hpp:56-71) needs the camera's matrices. `get_indices` takes it as a function from box to area inside `OctreeQuery.View`.
- The splat numerics are opaque function values in `Splats.SplatMath`, because their sources are not part of this model. These are `weight`, `merge_splats`, `splat_divergence`, the n-ary `merge`, `split_to_splat` and `BB::from_splats`.
- Float arithmetic is modelled as exact `real` arithmetic. The float→`uint32_t` casts of GridHC.cpp:43-45 truncate toward zero, so a quotient in (−1, 0) gives cell 0. They are `None` where C++ leaves them undefined: a quotient of −1 or less, or a zero cell edge (NaN). Such a splat is then skipped as out of range. A quotient of 2^32 or more is also undefined in C++; the model gives it its integer part, which the range check then rejects.
- Logging to standard output and error is left out, and so are the GPU buffer writes (Cloth.h:212-217).
- Cloth particle positions, masses, velocities, rest lengths and the simulation step are left out. Only the constraint topology and the index buffer are modelled.
- `HC::get_indices` is declared at HC.hpp:59-60 but never defined. HC.cpp:85-90 defines an unrelated free function instead. `GridHCModel.GridHC.GetIndices` therefore takes the per-cell query as a parameter.
- `HC::Params`, `max_error` and the `HC(const Params&)` constructor are left out, since nothing reads them. So is the unused `error` argument of `get_indices_error`.
- `splats.reserve` (HC.cpp:6, GridHC.cpp:27) and `indices.reserve` are left out, because capacity is not observable.
- GridHCModel.GridHC.Build: requires fewer than 2^32 cells. Otherwise the `uint32_t` cell count of GridHC.cpp:25 and the flat index of GridHC.hpp:33 wrap. It also requires positive splat weights, which every per-cell `HC::build` needs.
- GridHCModel.GridHC.GetIndicesError: the address property is stated only below 2^32 concatenated splats. Above that the `uint32_t` offset and sums wrap, as `U32` models.
- GridHCModel.GridHC.GetIndices: the address property also needs the per-cell query to return in-range local indices.
- GridHCModel.Cell.constructor: the source holds each cell's `HC` by value. The model gives each cell its own `HC` object and proves that no two cells share one.
- HCTree.HC.Build: requires positive splat weights, because `merge_nodes` divides by their sum. It also requires a fresh hierarchy. A second `build` on the same object would append to the old active list.
- HCNodes.Leaf: also records the leaf's splat in the node. The source leaves `Node::splat` default for leaves, and nothing reads it there.
- HCTree.HC.Build: the "same node" `throw` (HC.cpp:53-55) is not modelled as an error path. Every queued candidate merges two distinct slots, so it cannot fire.
- ClothTopology.Cloth.constructor: requires `width` and `height` of at least 1. `width - 1` and `height - 1` are unsigned and wrap at 0.
- SplatOctree.Octree.GetIndices: does not model `uint32_t` wrap of the queue counters (Octree.cpp:191-192). The model accepts any number of raw splats, so the tree can have 2^32 nodes or more; there the source's counters wrap and the model's do not.
- SplatOctree.Octree.Build: does not model `uint32_t` wrap of the split and collapse counters (Octree.cpp:45, 112) or of node depths (Octree.hpp:62); all are `nat`. The contract holds for the source only below 2^32 nodes.
- SplatOctree.Octree.Generate: does not model `uint32_t` wrap of the counters (Octree.cpp:151-152) or of the stored indices (Octree.hpp:58); the stamped indices are `nat`. The contract holds for the source only below 2^32 nodes.
- SplatOctree.Octree.GenerateDebug: does not model `uint32_t` wrap of the node indices it appends (`Indices`, Octree.hpp:58), which take `splats.size() - 1` (Octree.hpp:126); they are `nat`. The contract holds for the source only below 2^32 splats.
- ClothTopology.Cloth.InitializeIndexBuffer: the triangle indices are `nat`. The source pushes `size_t` values into a `vector<uint32_t>` (Cloth.h:199-208), which truncates them once the grid has 2^32 particles or more; the model does not.
- HCTree.HC.Build: node `depth` and `index` are `nat`, not the `uint32_t` of HC.hpp:31-33. The contract holds for the source only below 2^32 nodes.
- HCTree.HC.Build: for no splats, HC.cpp:80 reads `nodes.front()` of an empty list, which is undefined behaviour. The model returns an empty hierarchy instead. The logging of HC.cpp:79-81 is otherwise left out.
- HCTree.MergeUntilEmpty: the cheapest-first choice is stated per pop, by `HCTree.MergeStep`'s `IsTop`, and not summarised over the whole loop.
- The commented-out colouring code of `generate_debug` and `generate` is not part of this model.

## Findings

| source | as written | input that shows it | evidently intended | confidence | as-written member | corrected member |
|---|---|---|---|---|---|---|
| HC.cpp:47-76, HC.hpp:86-93 | an accepted merged node keeps the `index` of 0 that `merge_nodes` leaves, and its splat is never stored in `splats` | two splats at x = 0 and x = 2 with unit weights: the merged node's index is 0, where leaf 0's splat lies, not the merged splat | each accepted node gets the next free slot of `splats` as its index and its splat is stored there, as `splats.reserve(2 * n)` and the grid's offsets expect | not executed | HCTree.AsWrittenMergedIndexCollides | HCTree.AcceptedIndexAddressesSplat |
