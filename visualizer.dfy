/**
  The grid-building and wall-drawing helpers of the visualizer component, and
  the button handler that runs the search and reads back the path. Rendering
  and animation are not modelled.
*/
module PathfindingVisualizer {
  import opened Wrappers
  import opened Nodes
  import opened SearchState
  import opened Dijkstra

  const START_NODE_ROW: int := 10
  const START_NODE_COL: int := 15
  const FINISH_NODE_ROW: int := 10
  const FINISH_NODE_COL: int := 35

  /** The size of the grid `getInitialGrid` builds. */
  const ROWS: nat := 20
  const COLS: nat := 50

  const StartPos: Pos := (START_NODE_ROW, START_NODE_COL)
  const FinishPos: Pos := (FINISH_NODE_ROW, FINISH_NODE_COL)

  /** The node for cell `(row, col)` of a new grid: it names its own cell, is fresh and open, and is the start or finish exactly at those cells. */
  function CreateNode(col: int, row: int): (node: Node)
    ensures node.row == row && node.col == col
    ensures node.isStart <==> (row, col) == StartPos
    ensures node.isFinish <==> (row, col) == FinishPos
    ensures FreshNode(node) && !node.isWall
  {
    Node(col, row,
         row == START_NODE_ROW && col == START_NODE_COL,
         row == FINISH_NODE_ROW && col == FINISH_NODE_COL,
         Inf, false, false, None)
  }

  /** Start and finish are distinct cells of the 20 by 50 grid. */
  lemma LandmarksInGrid()
    ensures InRect(ROWS, COLS, StartPos) && InRect(ROWS, COLS, FinishPos)
    ensures StartPos != FinishPos
  {
  }

  /**
    Builds the 20 by 50 grid row by row, each cell holding `createNode(col, row)`.
    The result is a fresh grid whose nodes name their own cells, with exactly
    one start and exactly one finish and no walls.
  */
  method GetInitialGrid() returns (grid: array2<Node>)
    ensures fresh(grid)
    ensures grid.Length0 == ROWS && grid.Length1 == COLS
    ensures forall row, col | 0 <= row < ROWS && 0 <= col < COLS :: grid[row, col] == CreateNode(col, row)
    ensures FreshGrid(Contents(grid)) && CoordinatesInBounds(Contents(grid))
    ensures forall p | InBounds(grid, p) :: At(grid, p).isStart <==> p == StartPos
    ensures forall p | InBounds(grid, p) :: At(grid, p).isFinish <==> p == FinishPos
    ensures forall p | InBounds(grid, p) :: !At(grid, p).isWall
    ensures RowClear(Contents(grid))
  {
    grid := new Node[ROWS, COLS]((_, _) => CreateNode(0, 0));
    for row := 0 to ROWS
      invariant forall r, c | 0 <= r < row && 0 <= c < COLS :: grid[r, c] == CreateNode(c, r)
    {
      for col := 0 to COLS
        invariant forall r, c | 0 <= r < row && 0 <= c < COLS :: grid[r, c] == CreateNode(c, r)
        invariant forall c | 0 <= c < col :: grid[row, c] == CreateNode(c, row)
      {
        grid[row, col] := CreateNode(col, row);
      }
    }
    ghost var g := Contents(grid);
    assert forall p | p in g :: g[p] == CreateNode(p.1, p.0);
  }

  // ---------------------------------------------------------------------------
  // Drawing walls
  // ---------------------------------------------------------------------------

  /** The grid `g` with the wall flag of the node at `p` flipped and every other field and node as before. */
  ghost function WallToggled(g: map<Pos, Node>, p: Pos): (h: map<Pos, Node>)
    requires p in g
  {
    g[p := g[p].(isWall := !g[p].isWall)]
  }

  /** Toggling changes the wall flag at `p` and nothing else. */
  lemma ToggleChangesOneFlag(g: map<Pos, Node>, p: Pos)
    requires p in g
    ensures forall q :: q in WallToggled(g, p) <==> q in g
    ensures WallToggled(g, p)[p].isWall == !g[p].isWall
    ensures WallToggled(g, p)[p] == g[p].(isWall := !g[p].isWall)
    ensures forall q | q in g && q != p :: WallToggled(g, p)[q] == g[q]
  {
  }

  /** Toggling the same cell twice restores the grid. */
  lemma ToggleTwice(g: map<Pos, Node>, p: Pos)
    requires p in g
    ensures p in WallToggled(g, p)
    ensures WallToggled(WallToggled(g, p), p) == g
  {
    var h := WallToggled(WallToggled(g, p), p);
    assert h[p] == g[p];
    assert forall q | q in g :: h[q] == g[q];
  }

  /** Walls do not matter to freshness or coordinates: a grid drawn on after `getInitialGrid` is still one a search may start on. */
  lemma ToggleKeepsFresh(g: map<Pos, Node>, p: Pos)
    requires p in g
    ensures FreshGrid(WallToggled(g, p)) <==> FreshGrid(g)
    ensures CoordinatesInBounds(WallToggled(g, p)) <==> CoordinatesInBounds(g)
  {
    var h := WallToggled(g, p);
    assert forall q | q in g :: OwnCell(h, q) == OwnCell(g, q);
    assert forall q | q in g :: FreshNode(h[q]) == FreshNode(g[q]);
  }

  /**
    Flips the wall flag of the node at `(row, col)`. The source copies only
    the outer array and writes the new node into the row it shares with the
    old grid, so the old grid sees the change too: here the write is in
    place and the grid returned is the grid passed.
  */
  method GetNewGridWithWallToggled(grid: array2<Node>, row: int, col: int) returns (newGrid: array2<Node>)
    requires 0 <= row < grid.Length0 && 0 <= col < grid.Length1
    modifies grid
    ensures newGrid == grid
    ensures Contents(grid) == WallToggled(old(Contents(grid)), (row, col))
  {
    newGrid := grid;
    var node := newGrid[row, col];
    var newNode := node.(isWall := !node.isWall);
    newGrid[row, col] := newNode;
  }

  /** The cells of the start's row from the start's column to the finish's, left to right. */
  function StraightRun(): (w: seq<Pos>)
    ensures |w| == FINISH_NODE_COL - START_NODE_COL + 1
    ensures w[0] == StartPos && w[|w| - 1] == FinishPos
    ensures forall i | 0 <= i < |w| :: w[i] == (START_NODE_ROW, START_NODE_COL + i)
  {
    seq(FINISH_NODE_COL - START_NODE_COL + 1, i => (START_NODE_ROW, START_NODE_COL + i))
  }

  /** No wall lies between the start and the finish on their common row. */
  ghost predicate RowClear(g: map<Pos, Node>) {
    forall c | START_NODE_COL <= c <= FINISH_NODE_COL :: (START_NODE_ROW, c) in g && !g[(START_NODE_ROW, c)].isWall
  }

  /** With the start's row clear up to the finish, the straight run along it is an open walk. */
  lemma StraightRunOpen(g0: map<Pos, Node>)
    requires RowClear(g0)
    ensures OpenWalk(g0, StraightRun())
  {
    var w := StraightRun();
    forall p | p in w ensures p in g0 {
      var i :| 0 <= i < |w| && w[i] == p;
      assert p == (START_NODE_ROW, START_NODE_COL + i);
    }
    forall i | 0 <= i < |w| ensures !g0[w[i]].isWall {
      assert w[i] == (START_NODE_ROW, START_NODE_COL + i);
    }
  }

  /** A search on a fresh grid whose start row is clear up to the finish, as on the grid `getInitialGrid` builds, finds the finish. */
  lemma FoundAcrossClearRow(g0: map<Pos, Node>, g: map<Pos, Node>, result: Option<seq<Pos>>, n: nat)
    requires FreshGrid(g0) && Outcome(g0, g, StartPos, FinishPos, result, n)
    requires RowClear(g0)
    ensures result.Some? && FinishPos in result.value && result.value[|result.value| - 1] == FinishPos
    ensures g[FinishPos].distance.Fin?
  {
    StraightRunOpen(g0);
    FoundIfReachable(g0, g, StartPos, FinishPos, result, n, StraightRun());
  }

  /**
    With the start's row clear up to the finish, the finish is exactly 20
    steps away and the path read back has 21 nodes: no walk of 4-neighbour
    steps is shorter than the Manhattan distance, and the straight run
    attains it.
  */
  lemma ClearRowPathLength(g0: map<Pos, Node>, g: map<Pos, Node>, result: Option<seq<Pos>>, n: nat, path: seq<Pos>)
    requires FreshGrid(g0) && Outcome(g0, g, StartPos, FinishPos, result, n)
    requires RowClear(g0) && PredecessorChain(g, path, FinishPos)
    ensures g[FinishPos].distance == Fin(FINISH_NODE_COL - START_NODE_COL)
    ensures |path| == FINISH_NODE_COL - START_NODE_COL + 1
  {
    StraightRunOpen(g0);
    FinishNoFarther(g0, g, StartPos, FinishPos, result, n, StraightRun());
    PathAfterSearch(g0, g, StartPos, FinishPos, result, n, path);
    WalkAtLeastManhattan(path);
    assert Manhattan(StartPos, FinishPos) == FINISH_NODE_COL - START_NODE_COL;
  }

  // ---------------------------------------------------------------------------
  // The button handler
  // ---------------------------------------------------------------------------

  /**
    Runs the search from the start cell to the finish cell and reads the path
    back from the finish. On a grid a search may start on (fresh, as
    `getInitialGrid` and any wall drawing leave it), the path is a chain of
    predecessor links; if the finish was reached it is a walk of
    `distance + 1` nodes from the start through finalized nodes of the trace,
    and otherwise it is the finish alone. When no wall is drawn between the
    start and the finish on their row, the finish is found and the path has
    21 nodes.
  */
  method VisualizeDijkstra(grid: array2<Node>) returns (visitedNodesInOrder: Option<seq<Pos>>, nodesInShortestPathOrder: seq<Pos>)
    requires InBounds(grid, StartPos) && InBounds(grid, FinishPos)
    requires FreshGrid(Contents(grid)) && CoordinatesInBounds(Contents(grid))
    modifies grid
    ensures Outcome(old(Contents(grid)), Contents(grid), StartPos, FinishPos, visitedNodesInOrder, grid.Length0 * grid.Length1)
    ensures PredecessorChain(Contents(grid), nodesInShortestPathOrder, FinishPos)
    ensures At(grid, FinishPos).distance == Inf ==> nodesInShortestPathOrder == [FinishPos]
    ensures At(grid, FinishPos).distance.Fin? ==>
      nodesInShortestPathOrder[0] == StartPos &&
      |nodesInShortestPathOrder| == At(grid, FinishPos).distance.n + 1 &&
      Distinct(nodesInShortestPathOrder) &&
      (forall i | 0 <= i < |nodesInShortestPathOrder| - 1 ::
        Adjacent(nodesInShortestPathOrder[i + 1], nodesInShortestPathOrder[i])) &&
      (visitedNodesInOrder.Some? ==>
        forall i | 0 <= i < |nodesInShortestPathOrder| - 1 :: nodesInShortestPathOrder[i] in visitedNodesInOrder.value)
    ensures RowClear(old(Contents(grid))) ==>
      visitedNodesInOrder.Some? && FinishPos in visitedNodesInOrder.value && At(grid, FinishPos).distance.Fin? &&
      |nodesInShortestPathOrder| == FINISH_NODE_COL - START_NODE_COL + 1
    ensures forall w | OpenWalk(old(Contents(grid)), w) && w != [] && w[0] == StartPos && w[|w| - 1] == FinishPos ::
      OpenWalk(old(Contents(grid)), nodesInShortestPathOrder) && |nodesInShortestPathOrder| <= |w|
  {
    ghost var g0 := Contents(grid);
    visitedNodesInOrder := Dijkstra.Dijkstra(grid, StartPos, FinishPos);
    ghost var g := Contents(grid);
    assert SearchTree(g, StartPos);
    nodesInShortestPathOrder := GetNodesInShortestPathOrder(grid, FinishPos);
    PathAfterSearch(g0, g, StartPos, FinishPos, visitedNodesInOrder, grid.Length0 * grid.Length1, nodesInShortestPathOrder);
    if RowClear(g0) {
      FoundAcrossClearRow(g0, g, visitedNodesInOrder, grid.Length0 * grid.Length1);
      ClearRowPathLength(g0, g, visitedNodesInOrder, grid.Length0 * grid.Length1, nodesInShortestPathOrder);
    }
    forall w | OpenWalk(g0, w) && w != [] && w[0] == StartPos && w[|w| - 1] == FinishPos
      ensures OpenWalk(g0, nodesInShortestPathOrder) && |nodesInShortestPathOrder| <= |w|
    {
      PathIsShortest(g0, g, StartPos, FinishPos, visitedNodesInOrder, grid.Length0 * grid.Length1, nodesInShortestPathOrder, w);
    }
    assert At(grid, FinishPos) == g[FinishPos];
  }
}
