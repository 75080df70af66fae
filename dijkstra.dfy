/**
  Dijkstra's algorithm with unit edge weights on a 4-connected grid, as the
  engine runs it: a flat list of unvisited nodes is stably re-sorted by
  distance on every iteration and its head is taken; walls are dropped, an
  unreached head (distance `Inf`) stops the search, and every other head is finalized and
  relaxes its unvisited neighbours unconditionally.
*/
module Dijkstra {
  import opened Wrappers
  import opened Nodes
  import opened SearchState

  // ---------------------------------------------------------------------------
  // The comparator and the stable sort
  // ---------------------------------------------------------------------------

  /**
    The comparator `nodeA.distance - nodeB.distance`, up to sign. A finite minus
    `Infinity` is `-Infinity`, `Infinity` minus a finite is `Infinity`, and
    `Infinity - Infinity` is `NaN`, which `Array.prototype.sort` reads as +0.
    The contract says the comparator is consistent with `AtMost`.
  */
  function Compare(a: Dist, b: Dist): (c: int)
    ensures c <= 0 <==> AtMost(a, b)
    ensures c >= 0 <==> AtMost(b, a)
    ensures c == 0 <==> a == b
  {
    match (a, b)
    case (Fin(x), Fin(y)) => x - y
    case (Fin(_), Inf) => -1
    case (Inf, Fin(_)) => 1
    case (Inf, Inf) => 0
  }

  /** The sort key of a node: its current distance. */
  function Key(grid: array2<Node>, p: Pos): Dist
    reads grid
    requires InBounds(grid, p)
  {
    At(grid, p).distance
  }

  ghost predicate SortedByDistance(grid: array2<Node>, s: seq<Pos>)
    reads grid
    requires AllInBounds(grid, s)
  {
    forall i, j :: 0 <= i < j < |s| ==> AtMost(Key(grid, s[i]), Key(grid, s[j]))
  }

  /** Inserts `p` in front of the first element that it does not compare above. */
  function Insert(grid: array2<Node>, p: Pos, s: seq<Pos>): (r: seq<Pos>)
    reads grid
    requires InBounds(grid, p) && AllInBounds(grid, s)
    ensures multiset(r) == multiset(s) + multiset{p}
    ensures forall q :: q in r <==> q == p || q in s
    ensures AllInBounds(grid, r)
  {
    if s == [] then [p]
    else if Compare(Key(grid, p), Key(grid, s[0])) <= 0 then [p] + s
    else
      assert s == [s[0]] + s[1..];
      [s[0]] + Insert(grid, p, s[1..])
  }

  lemma DistinctCons(x: Pos, t: seq<Pos>)
    requires x !in t && Distinct(t)
    ensures Distinct([x] + t)
  {
    forall i, j | 0 <= i < j < |[x] + t| ensures ([x] + t)[i] != ([x] + t)[j] {
      assert ([x] + t)[j] == t[j - 1];
    }
  }

  lemma SortedCons(grid: array2<Node>, x: Pos, t: seq<Pos>)
    requires InBounds(grid, x) && AllInBounds(grid, t) && SortedByDistance(grid, t)
    requires forall q :: q in t ==> AtMost(Key(grid, x), Key(grid, q))
    ensures AllInBounds(grid, [x] + t) && SortedByDistance(grid, [x] + t)
  {
    forall i, j | 0 <= i < j < |[x] + t|
      ensures AtMost(Key(grid, ([x] + t)[i]), Key(grid, ([x] + t)[j]))
    {
      assert ([x] + t)[j] == t[j - 1];
      if i > 0 {
        assert ([x] + t)[i] == t[i - 1];
      }
    }
  }

  lemma {:induction false} InsertKeepsDistinct(grid: array2<Node>, p: Pos, s: seq<Pos>)
    requires InBounds(grid, p) && AllInBounds(grid, s)
    ensures p !in s && Distinct(s) ==> Distinct(Insert(grid, p, s))
  {
    if p in s || !Distinct(s) {
    } else if s == [] {
    } else if Compare(Key(grid, p), Key(grid, s[0])) <= 0 {
      DistinctCons(p, s);
    } else {
      assert s == [s[0]] + s[1..];
      DistinctTail(s);
      InsertKeepsDistinct(grid, p, s[1..]);
      DistinctCons(s[0], Insert(grid, p, s[1..]));
    }
  }

  lemma {:induction false} InsertKeepsSorted(grid: array2<Node>, p: Pos, s: seq<Pos>)
    requires InBounds(grid, p) && AllInBounds(grid, s)
    requires SortedByDistance(grid, s)
    ensures SortedByDistance(grid, Insert(grid, p, s))
  {
    if s == [] {
    } else if Compare(Key(grid, p), Key(grid, s[0])) <= 0 {
      forall q | q in s ensures AtMost(Key(grid, p), Key(grid, q)) {
        var k :| 0 <= k < |s| && s[k] == q;
        if k > 0 {
          assert AtMost(Key(grid, s[0]), Key(grid, s[k]));
        }
      }
      SortedCons(grid, p, s);
    } else {
      var t := s[1..];
      assert s == [s[0]] + t;
      assert SortedByDistance(grid, t) by {
        forall i, j | 0 <= i < j < |t| ensures AtMost(Key(grid, t[i]), Key(grid, t[j])) {
          assert t[i] == s[i + 1] && t[j] == s[j + 1];
        }
      }
      InsertKeepsSorted(grid, p, t);
      forall q | q in Insert(grid, p, t) ensures AtMost(Key(grid, s[0]), Key(grid, q)) {
        if q != p {
          var k :| 0 <= k < |t| && t[k] == q;
          assert s[k + 1] == q;
        }
      }
      SortedCons(grid, s[0], Insert(grid, p, t));
    }
  }

  /**
    `sortNodesByDistance`: `Array.prototype.sort` with the distance comparator.
    The sort is stable, so the result is determined: it is this insertion sort.
    The result is sorted, a permutation of `s`, and its head is a minimum.
  */
  function SortByDistance(grid: array2<Node>, s: seq<Pos>): (r: seq<Pos>)
    reads grid
    requires AllInBounds(grid, s)
    ensures multiset(r) == multiset(s)
    ensures forall q :: q in r <==> q in s
    ensures AllInBounds(grid, r)
    ensures Distinct(s) ==> Distinct(r)
    ensures SortedByDistance(grid, r)
  {
    if s == [] then []
    else
      assert s == [s[0]] + s[1..];
      var t := SortByDistance(grid, s[1..]);
      InsertKeepsSorted(grid, s[0], t);
      DistinctTail(s);
      InsertKeepsDistinct(grid, s[0], t);
      Insert(grid, s[0], t)
  }

  /** The head of the sorted list is a minimum of the list. */
  lemma SortedHeadIsMinimum(grid: array2<Node>, s: seq<Pos>)
    requires AllInBounds(grid, s)
    requires |s| > 0
    ensures forall q :: q in s ==> AtMost(Key(grid, SortByDistance(grid, s)[0]), Key(grid, q))
  {
    var r := SortByDistance(grid, s);
    forall q | q in s ensures AtMost(Key(grid, r[0]), Key(grid, q)) {
      var k :| 0 <= k < |r| && r[k] == q;
      if k > 0 {
        assert AtMost(Key(grid, r[0]), Key(grid, r[k]));
      }
    }
  }

  /** Extending a prefix of a list without repetitions by one element adds a new element. */
  lemma PrefixStep(s: seq<Pos>, k: nat)
    requires Distinct(s) && k < |s|
    ensures s[..k + 1] == s[..k] + [s[k]]
    ensures s[k] !in s[..k]
  {
  }

  /** Positions in the grid's snapshot are in bounds. */
  lemma InGridIsInBounds(grid: array2<Node>, s: seq<Pos>)
    requires InGrid(Contents(grid), s)
    ensures AllInBounds(grid, s)
  {
    forall i | 0 <= i < |s| ensures InBounds(grid, s[i]) {
      assert s[i] in s;
    }
  }

  /** The sort's result, seen on the grid's snapshot: the same nodes, each once, nearest first. */
  lemma SortIsResorted(grid: array2<Node>, s: seq<Pos>)
    requires AllInBounds(grid, s) && Distinct(s) && |s| > 0
    ensures Resorted(Contents(grid), s, SortByDistance(grid, s))
  {
    var r := SortByDistance(grid, s);
    assert |multiset(r)| == |multiset(s)|;
    SortedHeadIsMinimum(grid, s);
    forall q | q in r ensures AtMost(Contents(grid)[r[0]].distance, Contents(grid)[q].distance) {
      assert AtMost(Key(grid, r[0]), Key(grid, q));
    }
  }

  /** The subsequence of the nodes of `s` whose distance is `d`. */
  ghost function WithDistance(grid: array2<Node>, s: seq<Pos>, d: Dist): (r: seq<Pos>)
    reads grid
    requires AllInBounds(grid, s)
  {
    if s == [] then []
    else (if Key(grid, s[0]) == d then [s[0]] else []) + WithDistance(grid, s[1..], d)
  }

  lemma WithDistanceCons(grid: array2<Node>, x: Pos, t: seq<Pos>, d: Dist)
    requires InBounds(grid, x) && AllInBounds(grid, t)
    ensures AllInBounds(grid, [x] + t)
    ensures WithDistance(grid, [x] + t, d) ==
            (if Key(grid, x) == d then [x] else []) + WithDistance(grid, t, d)
  {
    assert ([x] + t)[0] == x && ([x] + t)[1..] == t;
  }

  /** When `p` sorts after the head, `Insert` keeps the head in front. */
  lemma InsertBehindHead(grid: array2<Node>, p: Pos, s: seq<Pos>)
    requires InBounds(grid, p) && AllInBounds(grid, s)
    requires s != [] && Compare(Key(grid, p), Key(grid, s[0])) > 0
    ensures AllInBounds(grid, s[1..])
    ensures Insert(grid, p, s) == [s[0]] + Insert(grid, p, s[1..])
  {
  }

  lemma {:induction false} InsertKeepsTies(grid: array2<Node>, p: Pos, s: seq<Pos>, d: Dist)
    requires InBounds(grid, p) && AllInBounds(grid, s)
    ensures WithDistance(grid, Insert(grid, p, s), d) ==
            (if Key(grid, p) == d then [p] else []) + WithDistance(grid, s, d)
  {
    if s == [] {
      WithDistanceCons(grid, p, [], d);
      assert [p] + [] == [p];
    } else if Compare(Key(grid, p), Key(grid, s[0])) <= 0 {
      WithDistanceCons(grid, p, s, d);
    } else {
      var t := s[1..];
      assert s == [s[0]] + t;
      InsertBehindHead(grid, p, s);
      InsertKeepsTies(grid, p, t, d);
      WithDistanceCons(grid, s[0], Insert(grid, p, t), d);
      WithDistanceCons(grid, s[0], t, d);
      var a := if Key(grid, s[0]) == d then [s[0]] else [];
      var b := if Key(grid, p) == d then [p] else [];
      var w := WithDistance(grid, t, d);
      // s[0] sorts strictly before p, so the two never tie: one of `a`, `b` is empty.
      if a == [] {
        assert a + (b + w) == b + (a + w);
      } else {
        assert b == [];
        assert a + (b + w) == b + (a + w);
      }
    }
  }

  /**
    Stability: for every distance, the nodes at that distance keep their
    relative order through the sort. In particular ties between unreached
    (`Inf`) nodes keep the order of the previous sort.
  */
  lemma {:induction false} SortIsStable(grid: array2<Node>, s: seq<Pos>, d: Dist)
    requires AllInBounds(grid, s)
    ensures WithDistance(grid, SortByDistance(grid, s), d) == WithDistance(grid, s, d)
  {
    if s != [] {
      SortIsStable(grid, s[1..], d);
      InsertKeepsTies(grid, s[0], SortByDistance(grid, s[1..]), d);
    }
  }

  // ---------------------------------------------------------------------------
  // Enumerating the grid
  // ---------------------------------------------------------------------------

  function RowPositions(row: int, cols: nat): seq<Pos> {
    seq(cols, j => (row, j))
  }

  /** All positions of a `rows` by `cols` grid in row-major order. */
  function RowMajor(rows: nat, cols: nat): seq<Pos> {
    if rows == 0 then [] else RowMajor(rows - 1, cols) + RowPositions(rows - 1, cols)
  }

  /** Row-major order lists every cell of the grid once and nothing else. */
  lemma {:induction false} RowMajorEnumerates(rows: nat, cols: nat)
    ensures |RowMajor(rows, cols)| == rows * cols
    ensures forall p :: p in RowMajor(rows, cols) <==> InRect(rows, cols, p)
    ensures Distinct(RowMajor(rows, cols))
  {
    if rows > 0 {
      RowMajorEnumerates(rows - 1, cols);
      var front, back := RowMajor(rows - 1, cols), RowPositions(rows - 1, cols);
      assert RowMajor(rows, cols) == front + back;
      assert |front + back| == (rows - 1) * cols + cols == rows * cols;
      forall p: Pos ensures p in front + back <==> InRect(rows, cols, p) {
        if p.0 == rows - 1 && 0 <= p.1 < cols {
          assert back[p.1] == p;
        }
      }
      forall i, j | 0 <= i < j < |front + back| ensures (front + back)[i] != (front + back)[j] {
        if j >= |front| && i < |front| {
          assert (front + back)[i] in front;
        }
      }
    }
  }

  /** `getAllNodes`: the nested loops push the grid's nodes in row-major order. */
  method GetAllNodes(grid: array2<Node>) returns (nodes: seq<Pos>)
    ensures nodes == RowMajor(grid.Length0, grid.Length1)
  {
    nodes := [];
    for row := 0 to grid.Length0
      invariant nodes == RowMajor(row, grid.Length1)
    {
      for col := 0 to grid.Length1
        invariant nodes == RowMajor(row, grid.Length1) + RowPositions(row, col)
      {
        assert RowPositions(row, col + 1) == RowPositions(row, col) + [(row, col)];
        nodes := nodes + [(row, col)];
      }
    }
  }

  // ---------------------------------------------------------------------------
  // Neighbours and relaxation
  // ---------------------------------------------------------------------------

  /**
    The in-bounds 4-neighbours of `(row, col)` in the order they are checked:
    up, down, left, right. This is the specification of the four guarded
    pushes in `getUnvisitedNeighbors`, before unvisited nodes are filtered out.
  */
  function Neighbors(rows: int, cols: int, row: int, col: int): (r: seq<Pos>)
    requires 0 <= row < rows && 0 <= col < cols
    ensures forall i :: 0 <= i < |r| ==> InRect(rows, cols, r[i])
  {
    var up := if row > 0 then [(row - 1, col)] else [];
    var down := if row < rows - 1 then up + [(row + 1, col)] else up;
    var left := if col > 0 then down + [(row, col - 1)] else down;
    if col < cols - 1 then left + [(row, col + 1)] else left
  }

  /** The neighbours listed are exactly the in-bounds 4-neighbours, each once, at most four of them. */
  lemma NeighborsAre(rows: int, cols: int, row: int, col: int)
    requires 0 <= row < rows && 0 <= col < cols
    ensures forall q :: q in Neighbors(rows, cols, row, col) <==> InRect(rows, cols, q) && Adjacent(q, (row, col))
    ensures Distinct(Neighbors(rows, cols, row, col))
    ensures |Neighbors(rows, cols, row, col)| <= 4
  {
  }

  /** `neighbors.filter(neighbor => !neighbor.isVisited)`: the unvisited nodes of `s`, in order. */
  function FilterUnvisited(grid: array2<Node>, s: seq<Pos>): (r: seq<Pos>)
    reads grid
    requires AllInBounds(grid, s)
    ensures AllInBounds(grid, r)
    ensures forall q :: q in r <==> q in s && !At(grid, q).isVisited
    ensures |r| <= |s|
    ensures Distinct(s) ==> Distinct(r)
  {
    if s == [] then []
    else (if At(grid, s[0]).isVisited then [] else [s[0]]) + FilterUnvisited(grid, s[1..])
  }

  /** The node's own coordinates, which is what the neighbour lookup indexes the grid with. */
  ghost predicate OwnCoordinatesInBounds(grid: array2<Node>, p: Pos)
    reads grid
  {
    InBounds(grid, p) && InBounds(grid, (At(grid, p).row, At(grid, p).col))
  }

  function UnvisitedNeighbors(grid: array2<Node>, p: Pos): seq<Pos>
    reads grid
    requires OwnCoordinatesInBounds(grid, p)
  {
    FilterUnvisited(grid, Neighbors(grid.Length0, grid.Length1, At(grid, p).row, At(grid, p).col))
  }

  /** The unvisited neighbours are exactly the unvisited in-bounds 4-neighbours, each once. */
  lemma UnvisitedNeighborsAre(grid: array2<Node>, p: Pos)
    requires OwnCoordinatesInBounds(grid, p)
    ensures forall q :: q in UnvisitedNeighbors(grid, p) <==>
      InBounds(grid, q) && RelaxedBy(At(grid, q), q, At(grid, p))
    ensures Distinct(UnvisitedNeighbors(grid, p))
  {
    NeighborsAre(grid.Length0, grid.Length1, At(grid, p).row, At(grid, p).col);
  }

  /**
    `getUnvisitedNeighbors`: the unvisited 4-neighbours of the cell named by
    the node's own `row` and `col`, in the order up, down, left, right.
  */
  method GetUnvisitedNeighbors(grid: array2<Node>, node: Pos) returns (unvisited: seq<Pos>)
    requires OwnCoordinatesInBounds(grid, node)
    ensures unvisited == UnvisitedNeighbors(grid, node)
  {
    var neighbors: seq<Pos> := [];
    var row, col := grid[node.0, node.1].row, grid[node.0, node.1].col;
    if row > 0 { neighbors := neighbors + [(row - 1, col)]; }
    if row < grid.Length0 - 1 { neighbors := neighbors + [(row + 1, col)]; }
    if col > 0 { neighbors := neighbors + [(row, col - 1)]; }
    if col < grid.Length1 - 1 { neighbors := neighbors + [(row, col + 1)]; }
    assert neighbors == Neighbors(grid.Length0, grid.Length1, row, col);
    unvisited := FilterUnvisited(grid, neighbors);
  }

  /**
    `updateUnvisitedNeighbors`: every unvisited neighbour gets distance one more
    than the node's and the node as predecessor, whatever it held before; every
    other node, and every other field, is left as it was.
  */
  method UpdateUnvisitedNeighbors(grid: array2<Node>, node: Pos)
    requires OwnCoordinatesInBounds(grid, node)
    requires At(grid, node).isVisited
    modifies grid
    ensures Contents(grid) == RelaxNeighbors(old(Contents(grid)), node)
  {
    var unvisitedNeighbors := GetUnvisitedNeighbors(grid, node);
    UnvisitedNeighborsAre(grid, node);
    ghost var g := Contents(grid);
    ghost var relaxed: set<Pos> := {};
    for k := 0 to |unvisitedNeighbors|
      invariant forall q :: q in relaxed <==> q in unvisitedNeighbors[..k]
      invariant Contents(grid) == RelaxAmong(g, node, relaxed)
    {
      var neighbor := unvisitedNeighbors[k];
      PrefixStep(unvisitedNeighbors, k);
      RelaxOneMore(g, node, relaxed, neighbor);
      SetNode(grid, neighbor, grid[neighbor.0, neighbor.1].(
        distance := Successor(grid[node.0, node.1].distance),
        previousNode := Some(node)));
      relaxed := relaxed + {neighbor};
    }
    assert unvisitedNeighbors[..|unvisitedNeighbors|] == unvisitedNeighbors;
    RelaxAmongNeighbors(g, node, relaxed);
  }

  // ---------------------------------------------------------------------------
  // The search
  // ---------------------------------------------------------------------------

  /** An assignment to a node's fields: the node at `p` is replaced and no other cell changes. */
  method SetNode(grid: array2<Node>, p: Pos, node: Node)
    requires InBounds(grid, p)
    modifies grid
    ensures Contents(grid) == old(Contents(grid))[p := node]
  {
    grid[p.0, p.1] := node;
  }

  /**
    `dijkstra`. The result is `None` where the source falls off the end of the
    function and returns `undefined`: every node was dequeued without reaching
    the finish or an unreached head.
  */
  method Dijkstra(grid: array2<Node>, startNode: Pos, finishNode: Pos) returns (result: Option<seq<Pos>>)
    requires InBounds(grid, startNode)
    requires CoordinatesInBounds(Contents(grid))
    modifies grid
    ensures Outcome(old(Contents(grid)), Contents(grid), startNode, finishNode, result, grid.Length0 * grid.Length1)
  {
    ghost var g0 := Contents(grid);
    ghost var onFresh := FreshGrid(g0);
    ghost var cells := grid.Length0 * grid.Length1;
    var visitedNodesInOrder: seq<Pos> := [];
    SetNode(grid, startNode, grid[startNode.0, startNode.1].(distance := Fin(0)));
    var unvisitedNodes := GetAllNodes(grid);
    assert Invariant(g0, Contents(grid), startNode, unvisitedNodes, [], 0, cells, onFresh) by {
      RowMajorEnumerates(grid.Length0, grid.Length1);
      InitialInvariant(g0, startNode, unvisitedNodes, cells);
    }
    ghost var lo: nat := 0;
    while |unvisitedNodes| > 0
      invariant Invariant(g0, Contents(grid), startNode, unvisitedNodes, visitedNodesInOrder, lo, cells, onFresh)
      invariant finishNode !in visitedNodesInOrder
      decreases |unvisitedNodes|
    {
      ghost var g := Contents(grid);
      ghost var before := unvisitedNodes;
      InGridIsInBounds(grid, unvisitedNodes);
      SortIsResorted(grid, unvisitedNodes);
      unvisitedNodes := SortByDistance(grid, unvisitedNodes);
      var closestNode := unvisitedNodes[0];
      ghost var sorted := unvisitedNodes;
      unvisitedNodes := unvisitedNodes[1..];
      assert InBounds(grid, closestNode);
      var node := grid[closestNode.0, closestNode.1];
      Dequeue(g0, g, startNode, finishNode, before, visitedNodesInOrder, lo, cells, onFresh, sorted, node);
      if node.isWall {
        continue;
      }
      if node.distance == Inf {
        return Some(visitedNodesInOrder);
      }
      SetNode(grid, closestNode, node.(isVisited := true));
      visitedNodesInOrder := visitedNodesInOrder + [closestNode];
      lo := node.distance.n;
      if closestNode == finishNode {
        return Some(visitedNodesInOrder);
      }
      UpdateUnvisitedNeighbors(grid, closestNode);
    }
    Exhausted(g0, Contents(grid), startNode, finishNode, visitedNodesInOrder, lo, cells, onFresh);
    return None;
  }

  // ---------------------------------------------------------------------------
  // getNodesInShortestPathOrder
  // ---------------------------------------------------------------------------

  /** A measure that the walk along `previousNode` links decreases when those links are consistent. */
  ghost function LinkRank(g: map<Pos, Node>, current: Option<Pos>): nat {
    match current
    case None => 0
    case Some(p) => if p in g && g[p].distance.Fin? then g[p].distance.n + 2 else 1
  }

  /**
    Walks back from the finish along `previousNode` links, prepending each
    node, until a node has no predecessor. The walk ends because every link
    lowers the distance by one; this is the condition the caller must meet
    (a search on a fresh grid leaves it, see `Outcome`).
  */
  method GetNodesInShortestPathOrder(grid: array2<Node>, finishNode: Pos) returns (path: seq<Pos>)
    requires InBounds(grid, finishNode)
    requires PredecessorsConsistent(Contents(grid))
    ensures PredecessorChain(Contents(grid), path, finishNode)
    ensures At(grid, finishNode).previousNode == None <==> path == [finishNode]
  {
    ghost var g := Contents(grid);
    path := [];
    var currentNode: Option<Pos> := Some(finishNode);
    while currentNode.Some?
      invariant currentNode.Some? ==> currentNode.value in g
      invariant path == [] <==> currentNode == Some(finishNode)
      invariant InGrid(g, path) && LinkedBack(g, path)
      invariant path != [] ==> path[|path| - 1] == finishNode && g[path[0]].previousNode == currentNode
      invariant g[finishNode].previousNode == None && path != [] ==> path == [finishNode]
      decreases LinkRank(g, currentNode)
    {
      var p := currentNode.value;
      assert InBounds(grid, p);
      LinkedBackCons(g, p, path);
      path := [p] + path;
      currentNode := grid[p.0, p.1].previousNode;
      assert currentNode == g[p].previousNode;
    }
  }
}
