# A* pathfinding on a grid, in Dafny

This project models the algorithmic core of a Unity A* pathfinding project
and proves properties of it. The core has six parts:

- **Node ordering** (`Nodes`). A node's f-cost is `gCost + hCost`. Its
  `CompareTo` ranks the lower f-cost first and breaks ties on the lower
  h-cost; it returns the negated comparison.
- **The open set** (`Heaps`). An array-backed binary heap of fixed capacity.
  Every item records its own slot in `HeapIndex`, so `Contains` is one
  slot check. The class holds the slot array (`items`) and the item count.
  The node fields it reads and writes are arrays indexed by node id:
  `heapIndex`, `gCost` and `hCost`.
- **Distances** (`Heuristics`). Manhattan, squared Euclidean and octile
  (10 per straight step, 14 per diagonal step) distances on grid
  coordinates.
- **The grid** (`Grids`). The grid is a width, a height and a walkable
  matrix. `MaxSize` is the number of cells. `GetNeighbours` lists the
  in-grid cells of the 3×3 block around a cell, skipping the centre. Node
  ids number the cells x-major.
- **The search** (`Pathfinding`, with its proof vocabulary in `SearchState`).
  `FindPath` runs the A* loop and `RetracePath` follows the parent links
  back from the target. `GetDistance` is the octile step cost. The node
  fields `gCost`, `hCost`, `parent` and `HeapIndex` are arrays indexed by
  node id. They belong to the caller and keep whatever an earlier search
  left in them, because the program never resets them.
- **Request serialisation** (`PathRequests`). The request manager is a FIFO
  queue plus an `isProcessingPath` flag. Starting the pathfinder and
  invoking a callback are recorded as events in a ghost log.

What is proved about the search:
- The loop terminates: each iteration closes one new node.
- The heap never overflows: each node enters the open set at most once,
  so insertions stay within `MaxSize`.
- Closed nodes are never relaxed again.
- Expanding a node relaxes each walkable, unclosed neighbour: when the path
  through the node is cheaper, or the neighbour is not open, the neighbour
  takes that path's g-cost, the heuristic to the target and the node as its
  parent; otherwise it keeps its costs and parent.
- Unwalkable neighbours never receive a parent.
- The parent links form a tree that leads back to the start.
- A found path is a walk from the start to the target through adjacent,
  in-grid, walkable cells. It excludes the start, and it is empty exactly
  when the start is the target.
- A found path is the chain of parent links: each cell's parent is the cell
  before it, and the first cell's parent is the start.
- The target's g-cost is the start's g-cost plus the path's step costs.
- When the open set runs out, no such walk exists.

For the request manager, the log proves three things:
- At most one request is in flight.
- The dispatched requests followed by the queued ones are exactly the submitted requests, in order: each submitted request has been dispatched once, in submission order, or is still waiting in the queue.
- Each callback answers the dispatch just before it.

The helper methods `StartSearch`, `CloseNext`, `SearchStep`, `ExpandNode`,
`Relax` and `OpenNode` split `FindPath` into small pieces so that each can
be proved on its own. Together they do exactly what the one C# method
does, in the same order. Each one's contract states the search state it
keeps (`SearchState.Searching`).

## Model

| member | source | states |
|---|---|---|
| Nodes.CompareInt | a-star-pathfinding/Assets/Scripts/Node.cs:53 | `Int32.CompareTo`: -1, 0 or 1 exactly when a < b, a == b or a > b |
| Nodes.CompareCosts | a-star-pathfinding/Assets/Scripts/Node.cs:51-62 | The result is in [-1, 1]. It is positive iff a outranks b (lower f-cost, or equal f-cost and lower h-cost) and negative iff b outranks a. It is 0 iff both f-cost and h-cost are equal |
| Nodes.CompareCostsReflexive | a-star-pathfinding/Assets/Scripts/Node.cs:53-61 | A node compares equal to itself |
| Nodes.CompareCostsAntisymmetric | a-star-pathfinding/Assets/Scripts/Node.cs:53-61 | `CompareTo(a, b) == -CompareTo(b, a)` |
| Nodes.CompareCostsTransitive | a-star-pathfinding/Assets/Scripts/Node.cs:51-62 | "Not outranked by" and "strictly outranks" are both transitive |
| Nodes.Node.constructor | a-star-pathfinding/Assets/Scripts/Node.cs:19-27 | Stores walkable, gridX, gridY and movementPenalty exactly as passed; the search fields hold their defaults |
| Nodes.Node.FCost | a-star-pathfinding/Assets/Scripts/Node.cs:30-36 | The f-cost is always gCost + hCost of the current fields, never stored |
| Nodes.Node.CompareTo | a-star-pathfinding/Assets/Scripts/Node.cs:51-62 | Positive iff this node has the lower f-cost, or the same f-cost and the lower h-cost. Zero iff both costs are equal, so a node compares equal to itself |
| Nodes.Node.HeapIndex | a-star-pathfinding/Assets/Scripts/Node.cs:41-43 | The getter returns the stored slot; that it gives back what was set is SetHeapIndex's contract, and the heap's own use of the slot array is Heaps.Heap.Contains |
| Nodes.Node.SetHeapIndex | a-star-pathfinding/Assets/Scripts/Node.cs:44-46 | Reading HeapIndex afterwards gives the value set; gCost, hCost and parent are unchanged |
| Heaps.TruncDiv | a-star-pathfinding/Assets/Scripts/Heap.cs:67 | C# integer division truncates toward zero: it agrees with `/` on non-negative operands and gives 0 for -1 / 2 |
| Heaps.ParentIndex | a-star-pathfinding/Assets/Scripts/Heap.cs:67-79 | `(i - 1) / 2` is 0 at the root. Elsewhere it is the slot below i whose children are 2p + 1 and 2p + 2 |
| Heaps.RootIsTop | a-star-pathfinding/Assets/Scripts/Heap.cs:30-42 | In a heap no key outranks the root's key |
| Heaps.AppendReady | a-star-pathfinding/Assets/Scripts/Heap.cs:19-25 | Appending to a heap leaves only the new last slot out of order, ready to sift up |
| Heaps.SiftUpStep | a-star-pathfinding/Assets/Scripts/Heap.cs:70-79 | Swapping a slot with the parent it outranks moves the one out-of-order slot to the parent |
| Heaps.RaisedKeyReady | a-star-pathfinding/Assets/Scripts/Heap.cs:45-47 | Raising one item's priority in a heap leaves only that slot out of order, which is the case `UpdateItem` repairs |
| Heaps.SiftUpDone | a-star-pathfinding/Assets/Scripts/Heap.cs:73-77 | When the sifted slot is the root or does not outrank its parent, heap order holds |
| Heaps.SiftDownChoice | a-star-pathfinding/Assets/Scripts/Heap.cs:87-106 | For the child SortDown picks (left, unless the right outranks it): swapping with it when it outranks the item moves the one out-of-order slot down to that child, so the repair goes on; stopping when it does not leaves a heap |
| Heaps.SiftDownLeaf | a-star-pathfinding/Assets/Scripts/Heap.cs:91-109 | Sifting down stops at a slot with no child within the count, and leaves a heap |
| Heaps.LastToRootReady | a-star-pathfinding/Assets/Scripts/Heap.cs:33-36 | Moving the last key of a heap into the root leaves only the root out of order |
| Heaps.RemoveRootOrder | a-star-pathfinding/Assets/Scripts/Heap.cs:30-38 | No key of a heap outranks the root item, and moving the last slot into the root leaves it ready to sift down |
| Heaps.AppendKeepsInv | a-star-pathfinding/Assets/Scripts/Heap.cs:21-22 | Add's table writes keep every in-use slot's item recording that slot, and append the item |
| Heaps.SwapKeepsInv | a-star-pathfinding/Assets/Scripts/Heap.cs:115-122 | Swap's table writes keep the slot/index bookkeeping and the multiset of items |
| Heaps.MoveLastKeepsInv | a-star-pathfinding/Assets/Scripts/Heap.cs:33-36 | RemoveFirst's table writes keep the bookkeeping and remove exactly the root item from the multiset |
| Heaps.Heap.constructor | a-star-pathfinding/Assets/Scripts/Heap.cs:12-16 | An empty heap whose slot array has the given capacity |
| Heaps.Heap.Count | a-star-pathfinding/Assets/Scripts/Heap.cs:50-56 | The number of items in the heap |
| Heaps.Heap.Contains | a-star-pathfinding/Assets/Scripts/Heap.cs:59-63 | True for every item in slots [0, Count). True only for items added at some point, so for a node that is not closed it is exact |
| Heaps.Heap.Swap | a-star-pathfinding/Assets/Scripts/Heap.cs:115-122 | Exchanges the two items' slots and their two HeapIndex values and touches nothing else; the bookkeeping and the multiset are kept |
| Heaps.Heap.SortUp | a-star-pathfinding/Assets/Scripts/Heap.cs:66-81 | Keeps the bookkeeping and the multiset. When only the item's slot was out of order, it leaves a heap. At the root it changes nothing, because the parent index truncates to 0 |
| Heaps.Heap.SortDown | a-star-pathfinding/Assets/Scripts/Heap.cs:84-112 | Keeps the bookkeeping and the multiset. When only the item's slot was out of order, it leaves a heap |
| Heaps.Heap.Add | a-star-pathfinding/Assets/Scripts/Heap.cs:19-27 | Requires room (Count < capacity). Raises Count by one and adds exactly the item to the multiset, in a slot its HeapIndex records (so Contains is true). Keeps heap order if it held |
| Heaps.Heap.RemoveFirst | a-star-pathfinding/Assets/Scripts/Heap.cs:30-42 | Requires Count > 0. Returns the root item, which no remaining item outranks when the heap was ordered. Lowers Count by one and removes exactly that item from the multiset |
| Heaps.Heap.UpdateItem | a-star-pathfinding/Assets/Scripts/Heap.cs:45-47 | Keeps the bookkeeping and the multiset. Restores heap order when only the item's slot was out of order (its priority rose) |
| Heuristics.GetManhattanDistance | a-star-pathfinding/Assets/Scripts/HeuristicsManager.cs:8-16 | \|dx\| + \|dy\| is non-negative and 0 iff the cells coincide (its triangle inequality is ManhattanTriangle) |
| Heuristics.GetEuclideanDistance | a-star-pathfinding/Assets/Scripts/HeuristicsManager.cs:19-27 | The squared distance dx² + dy² is non-negative and 0 iff the cells coincide (its symmetry is DistancesSymmetric) |
| Heuristics.DistancesSymmetric | a-star-pathfinding/Assets/Scripts/HeuristicsManager.cs:8-45 | All three distances are symmetric in their arguments |
| Heuristics.DiagonalsClosedForm | a-star-pathfinding/Assets/Scripts/HeuristicsManager.cs:30-45 | The octile distance is 14·min(dx, dy) + 10·(max − min); the two branches agree when dx == dy |
| Heuristics.GetDiagonalsDistance | a-star-pathfinding/Assets/Scripts/HeuristicsManager.cs:30-45 | The octile distance lies between 10·max(dx, dy) and 14·max(dx, dy), and is 0 iff the cells coincide (closed form, step costs and triangle inequality are the Diagonals lemmas) |
| Heuristics.DiagonalsStep | a-star-pathfinding/Assets/Scripts/HeuristicsManager.cs:35-43 | Between 8-adjacent cells it is 10 for a straight step and 14 for a diagonal one |
| Heuristics.DiagonalsAsSum | a-star-pathfinding/Assets/Scripts/HeuristicsManager.cs:30-45 | It equals 6·max(dx, dy) + 4·(dx + dy) |
| Heuristics.DiagonalsTriangle | a-star-pathfinding/Assets/Scripts/HeuristicsManager.cs:30-45 | It obeys the triangle inequality |
| Heuristics.ManhattanTriangle | a-star-pathfinding/Assets/Scripts/HeuristicsManager.cs:8-16 | The Manhattan distance obeys the triangle inequality |
| Grids.Grid.MaxSize | a-star-pathfinding/Assets/Scripts/Grid.cs:44-50 | gridSizeX · gridSizeY is the number of cells of the grid (proved by CellCount); Id and CellOf number them 0 .. MaxSize - 1 |
| Grids.CellCount | a-star-pathfinding/Assets/Scripts/Grid.cs:47 | A w × h grid has exactly w · h cells, one column of h cells per x |
| Grids.Grid.Id | a-star-pathfinding/Assets/Scripts/Grid.cs:44-50 | An in-grid cell's node id lies in [0, MaxSize) |
| Grids.Grid.CellOf | a-star-pathfinding/Assets/Scripts/Grid.cs:44-50 | Each id below MaxSize names an in-grid cell whose id it is |
| Grids.IdRoundTrip | a-star-pathfinding/Assets/Scripts/Grid.cs:44-50 | Ids and cells are inverse, so ids below MaxSize and in-grid cells correspond one to one |
| Grids.Grid.GetNeighbours | a-star-pathfinding/Assets/Scripts/Grid.cs:82-105 | The two nested loops return exactly the scan of the 3×3 block in visiting order |
| Grids.NeighboursMembers | a-star-pathfinding/Assets/Scripts/Grid.cs:87-101 | A cell is returned iff it is in the grid, differs from the node, and differs by at most 1 in each coordinate |
| Grids.NeighboursSymmetric | a-star-pathfinding/Assets/Scripts/Grid.cs:82-105 | Between in-grid cells the neighbour relation is symmetric |
| Grids.NeighboursSorted | a-star-pathfinding/Assets/Scripts/Grid.cs:87-88 | Neighbours come with dx ascending, then dy ascending, so there are no duplicates |
| Grids.NeighboursCount | a-star-pathfinding/Assets/Scripts/Grid.cs:87-101 | The count is the product of the in-range rows and columns of the block, less the centre, and at most 8 |
| Grids.NeighbourCounts | a-star-pathfinding/Assets/Scripts/Grid.cs:87-101 | On a grid of at least 2×2: 3 at a corner, 5 on an edge, 8 inside |
| Pathfinding.GetDistance | a-star-pathfinding/Assets/Scripts/Pathfinding.cs:99-110 | Equals the octile distance of HeuristicsManager for all inputs; it is non-negative and 0 iff the cells coincide |
| Pathfinding.Reversed | a-star-pathfinding/Assets/Scripts/Pathfinding.cs:92 | `List.Reverse`: same length, element i is element n-1-i of the input |
| Pathfinding.PrependStep | a-star-pathfinding/Assets/Scripts/Pathfinding.cs:86-89 | Stepping back along a parent link to an adjacent cell extends the walk, and its cost grows by that step's distance |
| Pathfinding.PrependChain | a-star-pathfinding/Assets/Scripts/Pathfinding.cs:86-89 | Stepping back along a parent link extends the chain of parent links by one cell at the front |
| Pathfinding.RetracePath | a-star-pathfinding/Assets/Scripts/Pathfinding.cs:80-97 | Given the parent tree, it returns a walk from start to target through adjacent, in-grid, walkable cells. The walk excludes the start and is empty iff start == target. Its step costs add up to the target's g-cost less the start's. It follows the parent links: each cell's parent is the previous cell, and the first cell's parent is the start. It ends because parents were closed earlier |
| Pathfinding.Relax | a-star-pathfinding/Assets/Scripts/Pathfinding.cs:58-74 | The new gCost, hCost, parent and added set are `RelaxOne` of the old ones: when the path through the current node is cheaper or the neighbour is not open, the neighbour's gCost becomes current gCost + step, its hCost the distance to the target and its parent the current (closed) node; otherwise all three are unchanged. No other node's costs or parent change. The added set gains exactly the neighbour, so it is added to the open set only if absent. The search tree and the open/closed split are kept |
| Pathfinding.RelaxOneEffect | a-star-pathfinding/Assets/Scripts/Pathfinding.cs:58-74 | The relaxation of one neighbour, node by node: the neighbour is relaxed as in `RelaxedFrom` (cheaper or never added: new costs and parent; else unchanged; added either way), and every other node keeps its costs, parent and membership of the added set |
| Pathfinding.SetCosts | a-star-pathfinding/Assets/Scripts/Pathfinding.cs:63-67 | Writes exactly the node's gCost, hCost and parent and nothing else in the three arrays, and the parent tree takes the node in |
| Pathfinding.OpenNode | a-star-pathfinding/Assets/Scripts/Pathfinding.cs:70-73 | Adding a node that was never added fits in the heap (capacity MaxSize) and moves it into the open set |
| Pathfinding.RelaxOne | a-star-pathfinding/Assets/Scripts/Pathfinding.cs:58-73 | The relaxation of one neighbour as a function on the node fields; it keeps them sized to MaxSize. What it does to each node is stated by `RelaxOneEffect` |
| Pathfinding.ExpandFrom | a-star-pathfinding/Assets/Scripts/Pathfinding.cs:52-74 | The neighbour loop as a function: cells in order, unwalkable or closed ones skipped, the others relaxed; it keeps the fields sized to MaxSize. Its effect per node is stated by `ExpandFromEffect` |
| Pathfinding.ExpandFromEffect | a-star-pathfinding/Assets/Scripts/Pathfinding.cs:52-74 | Over a list of distinct cells, the neighbour loop relaxes each walkable cell that is not closed exactly once, against the costs from before the loop: when the path through the current node is cheaper or the cell was never added, its gCost becomes the current gCost + step, its hCost the distance to the target and its parent the current node; otherwise all three keep their values. Either way it ends up added. Every other node is untouched |
| Pathfinding.ExpandFromNext | a-star-pathfinding/Assets/Scripts/Pathfinding.cs:52-56 | The loop over the first i + 1 cells is the loop over the first i followed by a skip of cell i (unwalkable or closed) or its relaxation |
| Pathfinding.ExpandEffect | a-star-pathfinding/Assets/Scripts/Pathfinding.cs:52-74 | Over the cells GetNeighbours returns, the loop relaxes every walkable, unclosed node adjacent to the current node as above, and leaves every closed, unwalkable or non-adjacent node untouched |
| Pathfinding.ExpandNode | a-star-pathfinding/Assets/Scripts/Pathfinding.cs:52-75 | The new gCost, hCost, parent and added set are the neighbour loop `ExpandFrom` applied to GetNeighbours of the expanded node. So every walkable, unclosed neighbour is relaxed: when the path through the expanded node is cheaper or the neighbour is not open, it takes that path's costs and the node as parent; otherwise it keeps them; either way it is added. Every closed or unwalkable node, and every node outside the 3×3 block, is unchanged. Afterwards every walkable neighbour has been added, and the search state is kept |
| Pathfinding.StartSearch | a-star-pathfinding/Assets/Scripts/Pathfinding.cs:32-37 | A fresh heap of capacity MaxSize holding only the start node, with an empty closed set |
| Pathfinding.CloseNext | a-star-pathfinding/Assets/Scripts/Pathfinding.cs:41-42 | Removes the heap's root, which was open and never closed, and closes it. The closed set grows by one and stays within MaxSize |
| Pathfinding.SearchStep | a-star-pathfinding/Assets/Scripts/Pathfinding.cs:40-75 | One loop iteration closes exactly the heap's root, and stops with a path iff that node is the target. A found step changes no node's gCost, hCost or parent and adds nothing, and its path follows the parent links. Otherwise the new fields are `ExpandFrom` over the closed node's GetNeighbours applied to the old ones: every walkable, unclosed neighbour is relaxed from it (cheaper or not open: new costs and parent; else unchanged), every other node is untouched, and the node is expanded |
| Pathfinding.FindPath | a-star-pathfinding/Assets/Scripts/Pathfinding.cs:23-78 | Terminates. A found path is a walk from start to target through adjacent, in-grid, walkable cells that excludes the start and is empty iff start == target; the target's g-cost is the start's plus its step costs. A found path follows the final parent links back to the start. NotFound means no such walk exists. Unwalkable nodes keep their costs and parent, and every recorded heap slot stays within the grid |
| SearchState.NoPath | a-star-pathfinding/Assets/Scripts/Pathfinding.cs:40-76 | When the open set is empty, the closed set holds the start and every walkable neighbour of its cells but not the target, so no walk from the start reaches the target |
| SearchState.WalkInside | a-star-pathfinding/Assets/Scripts/Pathfinding.cs:52-56 | A walk from a closed cell never leaves a closed set that holds every walkable neighbour of its cells |
| SearchState.CloseStep | a-star-pathfinding/Assets/Scripts/Pathfinding.cs:41-42 | Closing an open node keeps the parent tree: its parent was closed earlier |
| SearchState.RelaxStep | a-star-pathfinding/Assets/Scripts/Pathfinding.cs:61-68 | Setting a walkable, unclosed neighbour's costs and parent to a closed node keeps the parent tree |
| SearchState.SubsetCard | a-star-pathfinding/Assets/Scripts/Grid.cs:44-50 | A set of node ids holds at most MaxSize of them |
| SearchState.PartitionRemove | a-star-pathfinding/Assets/Scripts/Pathfinding.cs:41-42 | Removing the root from the open set and closing it keeps the open and closed sets a split of the added nodes |
| SearchState.PartitionAdd | a-star-pathfinding/Assets/Scripts/Pathfinding.cs:70-71 | Adding a node to the open set keeps the split |
| SearchState.ProcessedExpanded | a-star-pathfinding/Assets/Scripts/Pathfinding.cs:52-56 | Handling every cell GetNeighbours returned has added every walkable neighbour |
| SearchState.ExpandedInsert | a-star-pathfinding/Assets/Scripts/Pathfinding.cs:52-75 | Once a closed node is expanded, every closed node is |
| PathRequests.AnsweredInOrder | a-star-pathfinding/Assets/Scripts/PathRequestManager.cs:35-52 | In an alternating log the answered requests are the dispatched ones in the same order, less at most the last: at most one request is in flight and none is answered twice |
| PathRequests.PathRequestManager.constructor | a-star-pathfinding/Assets/Scripts/PathRequestManager.cs:9-15 | An idle manager with an empty queue |
| PathRequests.PathRequestManager.RequestPath | a-star-pathfinding/Assets/Scripts/PathRequestManager.cs:26-32 | Queues the request. An idle manager (whose queue is empty) dispatches it at once and leaves the queue empty; otherwise it waits at the tail. FIFO and single flight are kept |
| PathRequests.PathRequestManager.TryProcessNext | a-star-pathfinding/Assets/Scripts/PathRequestManager.cs:35-43 | Dispatches the head of the queue only if no request is in flight and the queue is non-empty, and then sets the flag. Afterwards an idle manager has an empty queue |
| PathRequests.PathRequestManager.FinishedProcessingPath | a-star-pathfinding/Assets/Scripts/PathRequestManager.cs:46-52 | Invokes the callback of the request in flight once with (path, success) and clears the flag. Then it dispatches the next queued request, if any |
| PathRequests.DispatchStep | a-star-pathfinding/Assets/Scripts/PathRequestManager.cs:38-40 | A dispatch while idle keeps the log alternating and appends the request to the dispatches |
| PathRequests.AnswerStep | a-star-pathfinding/Assets/Scripts/PathRequestManager.cs:48-49 | The callback of the request in flight keeps the log alternating |

## Left out

- `Unit.cs`: not part of this model. It moves agents with float motion and draws gizmos.
- Grid construction is not modelled: `Awake`, `InitTerrain` and `CreateGrid` use physics queries, float rounding and layer masks. The grid's size and walkable matrix are inputs.
- Movement penalties are not part of the step cost, because the search never adds them.
- `GetNodeFromWorldPoint` and the `worldPosition` fields: float geometry. Start and target are grid coordinates. The request manager carries positions as opaque `real` triples.
- `OnDrawGizmos`, `Update` input polling, and the `Stopwatch` timing and `print` in `FindPath` are rendering, input and timing.
- `Pathfinding.FindPath` returns the path instead of storing it in `grid.path`, which is not a field of `Grid.cs`.
- The path request manager's `StartFindPath` call is not defined in `Pathfinding.cs`. The model records it as a `Dispatched` event and does not link it to `FindPath`. The callback is an identifier, and each invocation is a logged event.
- `Awake`, the static `instance` and `GetComponent` (Unity wiring) are left out.
- `Pathfinding.FindPath`: no optimality claim. A node already in the open set whose g-cost drops is not re-sifted (`UpdateItem` runs only right after `Add`), so the heap can fall out of order during a search.
- `Heaps.Heap.Add`, `Heaps.Heap.RemoveFirst` and `Heaps.Heap.UpdateItem` keep heap order only when it held before the call, for the same reason. The slot bookkeeping, the count and the multiset are kept unconditionally.
- `PathRequests.PathRequestManager.FinishedProcessingPath` requires a request in flight. Called while idle, the source would invoke the previous request's callback again, or fail on a default request before any dispatch. The model leaves that misuse out.
- `Pathfinding.GetDistance`, `Heuristics` and the costs use unbounded integers, so the model does not capture the wrap-around of the source's 32-bit `int` costs. A single step costs at most 14, but the start node's gCost is never reset (Pathfinding.cs:63 writes only neighbours), so each search's costs sit on top of what the previous search left. Over very many searches, or on huge grids, the source's g-costs could in principle wrap.
- `Nodes.Node` models `Node.cs` field by field. In the search, the same fields are arrays indexed by node id, so the heap and the search can share them without aliasing proofs between node objects.
- `Pathfinding.RetracePath` does not claim that the path repeats no cell.
