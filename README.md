# Shortest-path finder on a grid, modelled in Dafny

This project models the core of a grid pathfinding visualizer. The user
paints walls on a 20 by 50 grid of nodes. A button runs Dijkstra's algorithm
with unit edge weights from a fixed start cell (10, 15) to a fixed finish
cell (10, 35). The search returns the nodes it finalized, in order, and the
path is read back from the finish along `previousNode` links.

The grid is an `array2<Node>` that the search updates in place. A node is a
value (`Nodes.Node`, field for field what `createNode` builds), and a node's
identity is its position, so `previousNode` holds a position. `Infinity` is
the `Inf` case of `Nodes.Dist`. Where the search falls off the end of
`dijkstra` and returns `undefined`, the model returns `None`.

The search is specified on snapshots of the grid (`Nodes.Contents`, a map
from positions to nodes). The module `SearchState` defines:

- the loop invariant;
- one lemma per kind of loop iteration: skip a wall, stop at an unreached
  head (distance `Inf`), finalize the head, relax its neighbours;
- the predicate `Outcome`, which states what every return of `dijkstra`
  guarantees.

On any grid, `Outcome` guarantees:

- the wall, start, finish and coordinate fields are unchanged;
- the trace holds distinct, reached, finalized, non-wall nodes and has at
  most rows × cols entries;
- if the finish is in the trace, it is the last entry;
- if the finish is not in the trace, every unvisited open node is unreached;
- if the result is `None`, every node is visited or a wall.

On a fresh grid (as `getInitialGrid` and wall drawing leave it), `Outcome`
also guarantees:

- the predecessor links form a tree rooted at the start, with distance
  dropping by one along each link;
- the trace is exactly the visited nodes, starts at the start, and is
  non-decreasing in distance;
- the result is `None` only when the finish is a wall or not a cell of the grid;
- every open 4-neighbour of a traced node (other than a finish the search
  returned at) is reached, at most one step farther than that node;
- when the finish is returned at distance `D`, every unvisited open node
  that has been reached is at distance `D` or more.

`SearchState.ChainFromStart` proves that the chain back from any reached
node starts at the start and has the `i`-th node at distance `i`. So every
distance is exactly the length of the walk the links describe.

Against an independent definition of reachability (`SearchState.OpenWalk`, a
walk of 4-neighbour steps through cells that are not walls), the model
proves on a fresh grid:

- `SearchState.FoundIfReachable`: if some open walk leads from the start to
  the finish, the search returns a trace ending with the finish. So when the
  finish is not returned, no open walk reaches it.
- `SearchState.FinishNoFarther`: the finish's distance is at most the
  number of steps of every such walk.
- `SearchState.PathIsShortest`: the path read back is itself an open walk
  from the start, and no open walk to the finish is shorter.

Files:

- `nodes.dfy`: the node, the grid and its snapshot.
- `search.dfy`: the relaxation, the predecessor tree, the loop invariant and
  its lemmas, the path's chain, and what a search on a fresh grid finds.
- `dijkstra.dfy`: the engine of `src/algorithms/dijkstra.js`.
- `visualizer.dfy`: `getInitialGrid`, `createNode`, `getNewGridWithWallToggled`
  and `visualizeDijkstra` from `src/PathfindingVisualizer/PathfindingVisualizer.jsx`.

## Model

| member | source | states |
|---|---|---|
| Dijkstra.Compare | src/algorithms/dijkstra.js:28 | The comparator `a.distance - b.distance` is non-positive exactly when `a` is at most `b`, with `Infinity` after every finite distance. It is zero exactly on equal distances, including `Infinity - Infinity` (NaN, which the sort reads as 0). |
| Dijkstra.SortByDistance | src/algorithms/dijkstra.js:27-29 | The sorted list is a permutation of the unvisited list (same multiset, same members). It keeps having no repetitions and is sorted by distance. |
| Dijkstra.SortedHeadIsMinimum | src/algorithms/dijkstra.js:12-13 | The node `shift` takes after sorting is at a minimum distance among the unvisited nodes. |
| Dijkstra.SortIsStable | src/algorithms/dijkstra.js:27-29 | The sort is stable: for every distance, the nodes at that distance appear in the same relative order before and after. |
| Dijkstra.InsertKeepsTies | src/algorithms/dijkstra.js:28 | Inserting one node keeps the order of the nodes at each distance and puts the new node first among those with its distance. |
| Dijkstra.SortIsResorted | src/algorithms/dijkstra.js:12-13 | Seen on the grid's snapshot, the re-sorted list has the same nodes, each once, with a nearest node at its head. |
| Dijkstra.RowMajorEnumerates | src/algorithms/dijkstra.js:52-63 | The row-major enumeration of a rows × cols grid has rows × cols entries, lists every cell exactly once, and lists nothing outside the grid. |
| Dijkstra.GetAllNodes | src/algorithms/dijkstra.js:52-63 | The nested loops push every node of every row, in row-major order. |
| Dijkstra.Neighbors | src/algorithms/dijkstra.js:44-47 | The neighbours listed up, down, left, right are all inside the grid. |
| Dijkstra.NeighborsAre | src/algorithms/dijkstra.js:44-47 | A cell is listed exactly when it is inside the grid and a 4-neighbour. The list has no repetitions and at most four entries. |
| Dijkstra.FilterUnvisited | src/algorithms/dijkstra.js:48 | The filter keeps exactly the unvisited nodes of the list, has no repetitions when the list has none, and is no longer than the list. |
| Dijkstra.UnvisitedNeighborsAre | src/algorithms/dijkstra.js:41-49 | The unvisited neighbours of a node are exactly the unvisited in-bounds 4-neighbours of the cell its own row and col name, each once. Walls are not excluded. |
| Dijkstra.GetUnvisitedNeighbors | src/algorithms/dijkstra.js:41-49 | The four guarded pushes followed by the filter compute those unvisited neighbours, in the order up, down, left, right. |
| Dijkstra.UpdateUnvisitedNeighbors | src/algorithms/dijkstra.js:32-38 | The new grid is the old one with every unvisited neighbour given distance d+1 and the node as `previousNode`, whatever each held before. No other node and no other field changes. |
| SearchState.RelaxSparesVisited | src/algorithms/dijkstra.js:32-38 | Relaxation leaves every visited node exactly as it was. |
| SearchState.RelaxBookkeeping | src/algorithms/dijkstra.js:22 | Relaxation keeps the layout, the trace's properties and the coverage of the grid by the unvisited list, visited nodes and walls. |
| SearchState.RelaxKeepsTree | src/algorithms/dijkstra.js:32-38 | Relaxing through a finalized reached node keeps the predecessor tree. Each relaxed node gets an adjacent finalized predecessor one step nearer. |
| SearchState.RelaxKeepsTrace | src/algorithms/dijkstra.js:22 | Relaxing through the node just finalized, at distance `lo`, keeps three things: the trace and its order, every traced distance at most `lo`, and every reached unvisited open node at `lo` or `lo + 1`. |
| SearchState.RelaxSearch | src/algorithms/dijkstra.js:22 | On a fresh grid, relaxation keeps the search invariant. |
| SearchState.RelaxKeepsInvariant | src/algorithms/dijkstra.js:22 | The last statement of an iteration restores the loop invariant, with the node just finalized added to the nodes whose neighbours are relaxed. |
| SearchState.AdjacentParity | src/algorithms/dijkstra.js:35 | One step to a 4-neighbour and one more unit of distance keep the parity of row + col + distance. |
| SearchState.AdjacentApart | src/algorithms/dijkstra.js:32-38 | Two reached 4-neighbours are never at the same distance, because the grid is bipartite. |
| SearchState.RelaxKeepsParity | src/algorithms/dijkstra.js:32-38 | Relaxation keeps every reached node's row + col + distance at the parity of the start. |
| SearchState.RelaxCloses | src/algorithms/dijkstra.js:32-38 | After relaxing through the node just finalized at distance `lo`, every open 4-neighbour of it and of every earlier traced node is reached, at most one step farther. |
| SearchState.VisitKeepsClosed | src/algorithms/dijkstra.js:19 | Marking a node visited keeps those neighbour bounds and the parity. |
| SearchState.FrontierOf | src/algorithms/dijkstra.js:12-13 | When the nearest head is at distance `lo`, every unvisited open node that has been reached is at `lo` or more. |
| SearchState.InitialInvariant | src/algorithms/dijkstra.js:6-8 | Setting the start's distance to 0 and listing every cell once establishes the loop invariant with an empty trace. |
| SearchState.SkipWall | src/algorithms/dijkstra.js:15 | Dropping a wall head keeps the invariant without touching the grid or the trace. |
| SearchState.StopAtUnreached | src/algorithms/dijkstra.js:18 | An unreached head (distance `Inf`) means every unvisited open node is unreached. Returning the trace then meets `Outcome`. |
| SearchState.VisitBookkeeping | src/algorithms/dijkstra.js:19-20 | Marking the head visited and appending it keeps the trace distinct, finalized and within the cell count. |
| SearchState.VisitKeepsTree | src/algorithms/dijkstra.js:19 | Marking a reached open node visited keeps the predecessor tree. The first node finalized is the start. |
| SearchState.VisitKeepsTrace | src/algorithms/dijkstra.js:19-20 | Appending the nearest head keeps the trace equal to the visited set and non-decreasing. It also keeps the one-wide window of tentative distances. |
| SearchState.VisitSearch | src/algorithms/dijkstra.js:19-20 | On a fresh grid, finalizing the head keeps the search invariant. |
| SearchState.Visit | src/algorithms/dijkstra.js:19-20 | Finalizing the head keeps the core invariant (the bookkeeping, the predecessor tree, the ordered trace and the window), with `lo` now the head's distance. The neighbour bounds wait for relaxation. |
| SearchState.InvariantOnReturn | src/algorithms/dijkstra.js:18-21 | Whenever the core invariant holds (so also the loop invariant), the trace may be returned: it is distinct, finalized, within the cell count, and on a fresh grid it is sorted and from the start. |
| SearchState.Returned | src/algorithms/dijkstra.js:18-21 | A returnable trace that ends with the finish, or leaves every open unvisited node unreached, meets `Outcome` when the neighbour bounds and the frontier hold as well. |
| SearchState.Settle | src/algorithms/dijkstra.js:19-22 | Finalizing a reached open head either returns at the finish within `Outcome`, or, after relaxation, restores the invariant. |
| SearchState.Dequeue | src/algorithms/dijkstra.js:12-22 | Each of the four ways an iteration can go (wall, unreached, finish, other) ends in the invariant or in `Outcome`. |
| SearchState.Exhausted | src/algorithms/dijkstra.js:11-24 | Emptying the unvisited list without meeting the finish returns `undefined` with every node visited or a wall. On a fresh grid, this happens only if the finish is a wall or not a cell of the grid. |
| Dijkstra.Dijkstra | src/algorithms/dijkstra.js:5-24 | The search terminates (one node leaves the list per iteration, rows × cols iterations at most) and every return satisfies `Outcome`, described above, including the neighbour bounds and the frontier. |
| SearchState.LinkedBackCons | src/algorithms/dijkstra.js:73-75 | Prepending the current node's predecessor keeps the path linked. |
| SearchState.ChainLast | src/algorithms/dijkstra.js:71-76 | In a chain the node before the finish is the finish's `previousNode`. |
| SearchState.LinkedMeansReached | src/algorithms/dijkstra.js:35-36 | A node given a `previousNode` has been given a finite distance. |
| Dijkstra.GetNodesInShortestPathOrder | src/algorithms/dijkstra.js:68-78 | The loop ends when links lower the distance. The path ends with the finish, its first node has no predecessor, and each node is the `previousNode` of the next. The path is `[finish]` exactly when the finish has no predecessor. |
| SearchState.ChainFromStart | src/algorithms/dijkstra.js:65-78 | In a search tree, the chain back from a reached node starts at the start. Its `i`-th node is at distance `i`, so it has distance + 1 nodes. It is made of distinct 4-neighbour steps, and every node before the last is finalized and not a wall. |
| SearchState.DistinctByDistance | src/algorithms/dijkstra.js:65-78 | Nodes at distances 0, 1, 2, … are pairwise different. |
| SearchState.PathAfterSearch | src/algorithms/dijkstra.js:65-78 | After a search on a fresh grid, the path is the finish alone when the finish was never reached. Otherwise it is a distance + 1 node walk of 4-neighbours from the start, each node once, and every node before the finish is in the returned trace. |
| SearchState.WalkStaysInTrace | src/algorithms/dijkstra.js:16-18 | When a trace without the finish is returned on a fresh grid, every open walk from the start stays inside the trace. |
| SearchState.FoundIfReachable | src/algorithms/dijkstra.js:16-21 | On a fresh grid, if an open walk leads from the start to the finish, the result is a trace ending with the finish, and the finish is reached and visited. |
| SearchState.ShortWalkReached | src/algorithms/dijkstra.js:12-22 | When the finish is returned at distance `D` on a fresh grid, the last node of every open walk from the start of at most `D` steps is reached within that many steps. |
| SearchState.FinishNoFarther | src/algorithms/dijkstra.js:5-24 | On a fresh grid, the finish is reached at a distance no greater than the number of steps of any open walk from the start to it. |
| SearchState.PathIsShortest | src/algorithms/dijkstra.js:65-78 | When an open walk leads from the start to the finish of a fresh grid, the path read back starts at the start, is an open walk, and is no longer than that walk. |
| SearchState.Manhattan | src/algorithms/dijkstra.js:44-47 | The row and column steps between two cells. It is zero exactly on equal cells. |
| SearchState.WalkAtLeastManhattan | src/algorithms/dijkstra.js:44-47 | A walk of 4-neighbour steps takes at least the Manhattan distance between its ends in steps. |
| PathfindingVisualizer.CreateNode | src/PathfindingVisualizer/PathfindingVisualizer.jsx:149-160 | The new node names its own row and col, is not reached, not visited, has no predecessor and is not a wall. It is the start exactly at (10, 15) and the finish exactly at (10, 35). |
| PathfindingVisualizer.LandmarksInGrid | src/PathfindingVisualizer/PathfindingVisualizer.jsx:8-14 | The start and finish cells are distinct and inside the 20 × 50 grid. |
| PathfindingVisualizer.GetInitialGrid | src/PathfindingVisualizer/PathfindingVisualizer.jsx:136-146 | The grid is 20 × 50 and holds `createNode(col, row)` at every cell. It is fresh, every node names its own cell, there is exactly one start and one finish, and there are no walls, so the start's row is clear up to the finish. |
| PathfindingVisualizer.ToggleChangesOneFlag | src/PathfindingVisualizer/PathfindingVisualizer.jsx:162-171 | Toggling flips `isWall` at the chosen cell, keeps its other fields, and leaves every other cell unchanged. |
| PathfindingVisualizer.ToggleTwice | src/PathfindingVisualizer/PathfindingVisualizer.jsx:165-169 | Toggling the same cell twice restores the grid. |
| PathfindingVisualizer.ToggleKeepsFresh | src/PathfindingVisualizer/PathfindingVisualizer.jsx:162-171 | Toggling keeps a grid fresh and its coordinates in bounds, in both directions. So a grid drawn on after `getInitialGrid` is one a search may start on. |
| PathfindingVisualizer.GetNewGridWithWallToggled | src/PathfindingVisualizer/PathfindingVisualizer.jsx:162-171 | The write goes into the row the new grid shares with the old one: the returned grid is the grid passed, and its contents are the old contents with that one wall flag flipped. |
| PathfindingVisualizer.StraightRun | src/PathfindingVisualizer/PathfindingVisualizer.jsx:8-14 | The cells of row 10 from column 15 to column 35 run from the start to the finish, 21 of them. |
| PathfindingVisualizer.StraightRunOpen | src/PathfindingVisualizer/PathfindingVisualizer.jsx:8-14 | With no wall on the start's row between the start and the finish, the straight run is an open walk. |
| PathfindingVisualizer.FoundAcrossClearRow | src/PathfindingVisualizer/PathfindingVisualizer.jsx:78-85 | On a fresh grid with no wall between the start and the finish on their row, the search returns a trace ending with the finish, and the finish is reached. |
| PathfindingVisualizer.ClearRowPathLength | src/PathfindingVisualizer/PathfindingVisualizer.jsx:78-85 | With the start's row clear up to the finish, as on the grid `getInitialGrid` builds, the finish is at distance 20 and the path read back has 21 nodes. |
| PathfindingVisualizer.VisualizeDijkstra | src/PathfindingVisualizer/PathfindingVisualizer.jsx:78-85 | On a fresh grid, the search meets `Outcome` and the path read back is a predecessor chain to the finish. The path is `[finish]` when the finish is unreached. Otherwise it is a walk of distance + 1 nodes from the start, and its nodes before the finish are in the trace. If any open walk leads to the finish, the path is an open walk no longer than it. With the start's row clear up to the finish, the finish is found and the path has 21 nodes. |

## Left out

- Rendering, mouse handling (`handleMouseDown`, `handleMouseEnter`, `handleMouseUp`), `animateDijkstra`, its timers and `App.js` are presentation and are not modelled.
- Floating point is not modelled. Distances are naturals plus `Inf`, which is exact for unit weights on a finite grid.
- Dijkstra.Dijkstra: the tree, trace order and finish-wall properties are proved only for a search that starts on a fresh grid. The source does not reset nodes between runs, and on a dirty grid the model proves only the properties that hold on any grid.
- Dijkstra.Dijkstra: optimality is proved for the finish only (`SearchState.FinishNoFarther`), not for every traced node. Distances of the other traced nodes are shown to be the length of the walk their links describe, and the trace non-decreasing.
- Dijkstra.Dijkstra: the grid is required to be rectangular (an `array2`). The start is required to be inside it, and every node's own `row` and `col` are required to name a cell, because the source indexes the grid with them.
- Dijkstra.SortByDistance: `Array.prototype.sort` is a library call. It is modelled as the stable insertion sort it is equivalent to, as a function on the list rather than an in-place method.
- Dijkstra.UpdateUnvisitedNeighbors: the node is required to be visited, which its only caller guarantees.
- Dijkstra.GetNodesInShortestPathOrder: the source's loop ends only when the links do not cycle. The model requires that distance drops by one along every link, which every search on a fresh grid leaves.
- PathfindingVisualizer.GetNewGridWithWallToggled: an out-of-range `row` or `col` is a precondition. The source then throws a TypeError: at line 164 for a bad row (indexing `undefined` with `col`), and at line 167 for a bad column (`isWall` of `undefined`).
- PathfindingVisualizer.GetNewGridWithWallToggled: the copy of the outer array (`grid.slice()`) is not modelled. With an `array2` the grid returned is the grid passed; in the source it is a new outer array sharing every row, so its contents are the same.
- PathfindingVisualizer.GetNewGridWithWallToggled: aliasing of node objects is not modelled. In the source the toggled node is a new object, and any `previousNode` that pointed at the old object still points at it. Here links are positions.
- PathfindingVisualizer.VisualizeDijkstra: requires a fresh grid, because on a dirty grid the path walk is not shown to end.
- Behaviour of the code a reader may not expect:
  - The finish is always the last node of the path, whether or not it is in the trace.
  - Walls are relaxed like any other unvisited neighbour. So a finish that is a wall can be reached, and it then ends a full path without being in the trace.
  - On a fresh grid, a wall can appear in the path only as the finish itself.
  - When every node is finalized or dropped without meeting the finish (on a fresh grid, only when the finish is a wall or not a cell of the grid), `dijkstra` returns `undefined`.
