/**
  The search's state and the facts it keeps, stated on snapshots of the grid
  (`Contents`): what one relaxation does, the predecessor tree the search
  builds, and the loop invariant of `dijkstra` with the lemmas that carry it
  through each kind of iteration.
*/
module SearchState {
  import opened Wrappers
  import opened Nodes

  // ---------------------------------------------------------------------------
  // Relaxation
  // ---------------------------------------------------------------------------

  /** `neighbor`, at position `q`, is relaxed from `node`: it is an unvisited 4-neighbour of the cell `node` names. */
  ghost predicate RelaxedBy(neighbor: Node, q: Pos, node: Node) {
    !neighbor.isVisited && Adjacent(q, (node.row, node.col))
  }

  /** A neighbour after relaxation through `from`, whose distance is `d`. */
  function Relaxed(neighbor: Node, d: Dist, from: Pos): Node {
    neighbor.(distance := Successor(d), previousNode := Some(from))
  }

  /**
    The grid after `updateUnvisitedNeighbors(u)`: each unvisited 4-neighbour is
    relaxed through `u`, whatever it held before (walls included); every other
    node is as it was.
  */
  ghost function RelaxNeighbors(g: map<Pos, Node>, u: Pos): (h: map<Pos, Node>)
    requires u in g
    ensures forall q :: q in h <==> q in g
  {
    map q | q in g :: if RelaxedBy(g[q], q, g[u]) then Relaxed(g[q], g[u].distance, u) else g[q]
  }

  /** The grid after relaxing through `u` exactly the nodes of `relaxed`. */
  ghost function RelaxAmong(g: map<Pos, Node>, u: Pos, relaxed: set<Pos>): (h: map<Pos, Node>)
    requires u in g
  {
    map q | q in g :: if q in relaxed then Relaxed(g[q], g[u].distance, u) else g[q]
  }

  /** Relaxing one more node, other than `u`, is one assignment. */
  lemma RelaxOneMore(g: map<Pos, Node>, u: Pos, relaxed: set<Pos>, v: Pos)
    requires u in g && v in g && u != v && v !in relaxed
    ensures RelaxAmong(g, u, relaxed)[v := Relaxed(g[v], g[u].distance, u)] == RelaxAmong(g, u, relaxed + {v})
  {
  }

  /** Relaxing exactly the unvisited 4-neighbours is relaxing the neighbours. */
  lemma RelaxAmongNeighbors(g: map<Pos, Node>, u: Pos, relaxed: set<Pos>)
    requires u in g
    requires forall q | q in g :: q in relaxed <==> RelaxedBy(g[q], q, g[u])
    ensures RelaxAmong(g, u, relaxed) == RelaxNeighbors(g, u)
  {
  }

  // ---------------------------------------------------------------------------
  // The predecessor tree
  // ---------------------------------------------------------------------------

  ghost predicate InGrid(g: map<Pos, Node>, s: seq<Pos>) {
    forall p | p in s :: p in g
  }

  /** The nodes of a trace: in the grid, each once, finalized, not walls, reached. */
  ghost predicate Finalized(g: map<Pos, Node>, t: seq<Pos>) {
    Distinct(t) &&
    forall p | p in t :: p in g && g[p].isVisited && !g[p].isWall && g[p].distance.Fin?
  }

  /** Along every `previousNode` link the distance drops by exactly one. */
  ghost predicate PredecessorsConsistent(g: map<Pos, Node>) {
    forall p, q {:trigger g[p], q in g} | p in g && g[p].previousNode == Some(q) ::
      q in g && g[p].distance.Fin? && g[q].distance.Fin? && g[p].distance.n == g[q].distance.n + 1
  }

  /** Every `previousNode` link points at a finalized 4-neighbour. */
  ghost predicate PredecessorsFinalized(g: map<Pos, Node>) {
    forall p, q {:trigger g[p], q in g} | p in g && g[p].previousNode == Some(q) ::
      q in g && g[q].isVisited && Adjacent(p, q)
  }

  /** The start is the only root: distance 0, no predecessor; every other reached node has one. */
  ghost predicate RootedAt(g: map<Pos, Node>, start: Pos) {
    start in g && g[start].distance == Fin(0) && g[start].previousNode == None &&
    forall p | p in g && p != start && g[p].distance.Fin? :: g[p].previousNode.Some?
  }

  /** The predecessor links form a tree of finalized, non-wall nodes rooted at the start. */
  ghost predicate SearchTree(g: map<Pos, Node>, start: Pos) {
    PredecessorsConsistent(g) && PredecessorsFinalized(g) && RootedAt(g, start) &&
    forall p | p in g && g[p].isVisited :: !g[p].isWall
  }

  ghost predicate NonDecreasing(g: map<Pos, Node>, t: seq<Pos>)
    requires InGrid(g, t)
  {
    forall i, j | 0 <= i < j < |t| :: AtMost(g[t[i]].distance, g[t[j]].distance)
  }

  /** The trace is exactly the visited nodes, in non-decreasing distance, from the start. */
  ghost predicate TraceFrom(g: map<Pos, Node>, start: Pos, t: seq<Pos>)
    requires InGrid(g, t)
  {
    (forall p | p in g :: g[p].isVisited <==> p in t) &&
    NonDecreasing(g, t) &&
    (t != [] ==> t[0] == start)
  }

  /** Every node of `t` is at distance at most `lo`. */
  ghost predicate Below(g: map<Pos, Node>, t: seq<Pos>, lo: nat)
    requires InGrid(g, t)
  {
    forall p | p in t :: AtMost(g[p].distance, Fin(lo))
  }

  /** Unvisited non-wall nodes that have been reached are at distance `lo` or `lo + 1`. */
  ghost predicate Window(g: map<Pos, Node>, s: seq<Pos>, lo: nat)
    requires InGrid(g, s)
  {
    forall p | p in s && !g[p].isWall && g[p].distance.Fin? :: lo <= g[p].distance.n <= lo + 1
  }

  // ---------------------------------------------------------------------------
  // The loop invariant of `dijkstra`
  // ---------------------------------------------------------------------------

  /**
    What holds at the head of the loop on any grid: `g0` is the grid on entry,
    `g` the grid now, `unvisited` the list still to dequeue, `visited` the
    trace so far and `n` the number of cells.
  */
  ghost predicate Bookkeeping(g0: map<Pos, Node>, g: map<Pos, Node>,
                              unvisited: seq<Pos>, visited: seq<Pos>, n: nat)
  {
    LayoutUnchanged(g0, g) &&
    InGrid(g, unvisited) && Distinct(unvisited) && Finalized(g, visited) &&
    (forall q | q in visited :: q !in unvisited) &&
    |visited| + |unvisited| <= n &&
    (forall p | p in g :: p in unvisited || g[p].isWall || g[p].isVisited)
  }

  /**
    What holds at the head of the loop when the search started on a fresh
    grid, with `lo` the distance last finalized: the predecessor tree, the
    sorted trace, and the one-wide window of tentative distances.
  */
  ghost predicate SearchInvariant(g: map<Pos, Node>, start: Pos, unvisited: seq<Pos>, visited: seq<Pos>, lo: nat) {
    InGrid(g, unvisited) && InGrid(g, visited) &&
    Coherent(g) && SearchTree(g, start) && TraceFrom(g, start, visited) &&
    Below(g, visited, lo) && Window(g, unvisited, lo)
  }

  /**
    The nodes of `t` have had their neighbours relaxed: every open 4-neighbour
    of a node of `t` is reached, at most one step farther than that node.
  */
  ghost predicate Closed(g: map<Pos, Node>, t: seq<Pos>) {
    forall p, q | p in t && q in g && Adjacent(q, p) && !g[q].isWall ::
      p in g && g[p].distance.Fin? && g[q].distance.Fin? && g[q].distance.n <= g[p].distance.n + 1
  }

  /**
    The grid is bipartite and every distance is the length of a walk from the
    start, so a reached node's distance has the parity of its offset from the
    start. In particular two 4-neighbours are never reached at the same distance.
  */
  ghost predicate Parity(g: map<Pos, Node>, start: Pos) {
    forall p | p in g && g[p].distance.Fin? :: (p.0 + p.1 + g[p].distance.n) % 2 == (start.0 + start.1) % 2
  }

  /** Every unvisited open node that has been reached is at distance `lo` or more. */
  ghost predicate Frontier(g: map<Pos, Node>, lo: nat) {
    forall p | p in g && !g[p].isWall && !g[p].isVisited && g[p].distance.Fin? :: lo <= g[p].distance.n
  }

  /** The invariant within an iteration, between finalizing the head and relaxing its neighbours. */
  ghost predicate CoreInvariant(g0: map<Pos, Node>, g: map<Pos, Node>, start: Pos,
                                unvisited: seq<Pos>, visited: seq<Pos>, lo: nat, n: nat, onFresh: bool)
  {
    Bookkeeping(g0, g, unvisited, visited, n) &&
    (onFresh ==> SearchInvariant(g, start, unvisited, visited, lo))
  }

  /** The loop invariant: on a fresh grid every node of the trace has also had its neighbours relaxed. */
  ghost predicate Invariant(g0: map<Pos, Node>, g: map<Pos, Node>, start: Pos,
                            unvisited: seq<Pos>, visited: seq<Pos>, lo: nat, n: nat, onFresh: bool)
  {
    CoreInvariant(g0, g, start, unvisited, visited, lo, n, onFresh) &&
    (onFresh ==> Closed(g, visited) && Parity(g, start))
  }

  /** `w` is `u` re-sorted: the same nodes, each once, with a nearest node at its head. */
  ghost predicate Resorted(g: map<Pos, Node>, u: seq<Pos>, w: seq<Pos>) {
    |w| == |u| > 0 && Distinct(w) && (forall q :: q in w <==> q in u) &&
    InGrid(g, w) && forall q | q in w :: AtMost(g[w[0]].distance, g[q].distance)
  }

  /** Every unvisited non-wall node is unreached. */
  ghost predicate AllUnreached(g: map<Pos, Node>) {
    forall p | p in g && !g[p].isWall && !g[p].isVisited :: g[p].distance == Inf
  }

  /** Nothing is left but visited nodes and walls. */
  ghost predicate AllVisitedOrWalls(g: map<Pos, Node>) {
    forall p | p in g :: g[p].isWall || g[p].isVisited
  }

  /** A node's own coordinates stay in the grid while the layout is unchanged. */
  lemma CoordinatesKept(g0: map<Pos, Node>, g: map<Pos, Node>, p: Pos)
    requires CoordinatesInBounds(g0) && LayoutUnchanged(g0, g) && p in g
    ensures (g[p].row, g[p].col) in g
  {
    assert OwnCell(g0, p) in g0;
  }

  /** Coordinates that name their own cell keep doing so while the layout is unchanged. */
  lemma CoherentKept(g: map<Pos, Node>, h: map<Pos, Node>)
    requires Coherent(g) && LayoutUnchanged(g, h)
    ensures Coherent(h)
  {
    forall p | p in h ensures OwnCell(h, p) == p {
      assert OwnCell(g, p) == p;
    }
  }

  /** Setting the start's distance to 0 and listing every cell once establishes the invariant. */
  lemma InitialInvariant(g0: map<Pos, Node>, start: Pos, unvisited: seq<Pos>, n: nat)
    requires start in g0
    requires forall p :: p in unvisited <==> p in g0
    requires Distinct(unvisited) && |unvisited| <= n
    ensures Invariant(g0, g0[start := g0[start].(distance := Fin(0))], start, unvisited, [], 0, n, FreshGrid(g0))
  {
    var g := g0[start := g0[start].(distance := Fin(0))];
    assert LayoutUnchanged(g0, g);
    if FreshGrid(g0) {
      CoherentKept(g0, g);
      assert forall p | p in g :: g[p].previousNode == None;
      assert forall p | p in g && p != start :: g[p].distance == Inf;
    }
  }

  /** Dequeuing a wall drops it and changes nothing else. */
  lemma SkipWall(g0: map<Pos, Node>, g: map<Pos, Node>, start: Pos, unvisited: seq<Pos>,
                 visited: seq<Pos>, lo: nat, n: nat, onFresh: bool, sorted: seq<Pos>)
    requires Invariant(g0, g, start, unvisited, visited, lo, n, onFresh)
    requires Resorted(g, unvisited, sorted) && g[sorted[0]].isWall
    ensures Invariant(g0, g, start, sorted[1..], visited, lo, n, onFresh)
  {
    var rest := sorted[1..];
    DistinctTail(sorted);
    assert sorted == [sorted[0]] + rest;
    forall p | p in g ensures p in rest || g[p].isWall || g[p].isVisited {
      if p in unvisited && p != sorted[0] {
        assert p in sorted;
      }
    }
  }

  /** An unreached head (distance `Inf`) means every unvisited non-wall node is unreached, and the search ends within its contract. */
  lemma StopAtUnreached(g0: map<Pos, Node>, g: map<Pos, Node>, start: Pos, finish: Pos, unvisited: seq<Pos>,
                        visited: seq<Pos>, lo: nat, n: nat, onFresh: bool, sorted: seq<Pos>)
    requires onFresh == FreshGrid(g0)
    requires Invariant(g0, g, start, unvisited, visited, lo, n, onFresh) && finish !in visited
    requires Resorted(g, unvisited, sorted) && g[sorted[0]].distance == Inf
    ensures Outcome(g0, g, start, finish, Some(visited), n)
  {
    InvariantOnReturn(g0, g, start, unvisited, visited, lo, n, onFresh);
    forall p | p in g && !g[p].isWall && !g[p].isVisited ensures g[p].distance == Inf {
      assert p in sorted;
    }
    Returned(g0, g, start, finish, visited, n, onFresh);
  }

  /** Finalizing a reachable, non-wall head appends it to the trace. */
  lemma VisitBookkeeping(g0: map<Pos, Node>, g: map<Pos, Node>, unvisited: seq<Pos>,
                         visited: seq<Pos>, n: nat, sorted: seq<Pos>)
    requires Bookkeeping(g0, g, unvisited, visited, n)
    requires Resorted(g, unvisited, sorted)
    requires !g[sorted[0]].isWall && g[sorted[0]].distance.Fin?
    ensures Bookkeeping(g0, g[sorted[0] := g[sorted[0]].(isVisited := true)], sorted[1..], visited + [sorted[0]], n)
  {
    var u := sorted[0];
    var h := g[u := g[u].(isVisited := true)];
    var rest := sorted[1..];
    var trace := visited + [u];
    DistinctTail(sorted);
    assert u in unvisited;
    assert Distinct(trace) by {
      forall i, j | 0 <= i < j < |trace| ensures trace[i] != trace[j] {
        if j == |visited| {
          assert trace[i] in visited;
        }
      }
    }
    assert LayoutUnchanged(g0, h);
    assert Finalized(h, trace);
    forall p | p in h ensures p in rest || h[p].isWall || h[p].isVisited {
      if p in unvisited && p != u {
        assert p in sorted;
      }
    }
  }

  /**
    On a fresh grid, finalizing the head keeps the search invariant: the first
    node finalized is the start, and the trace stays sorted because the head
    is nearest and the window is one wide.
  */
  lemma VisitSearch(g: map<Pos, Node>, start: Pos, unvisited: seq<Pos>, visited: seq<Pos>, lo: nat, sorted: seq<Pos>)
    requires SearchInvariant(g, start, unvisited, visited, lo)
    requires Resorted(g, unvisited, sorted)
    requires !g[sorted[0]].isWall && g[sorted[0]].distance.Fin?
    ensures SearchInvariant(g[sorted[0] := g[sorted[0]].(isVisited := true)], start, sorted[1..],
                            visited + [sorted[0]], g[sorted[0]].distance.n)
  {
    var h := g[sorted[0] := g[sorted[0]].(isVisited := true)];
    DistinctTail(sorted);
    assert sorted[0] in unvisited;
    CoherentKept(g, h);
    VisitKeepsTree(g, start, visited, sorted[0]);
    VisitKeepsTrace(g, start, unvisited, visited, lo, sorted);
  }

  /** Marking a reached non-wall node visited keeps the predecessor tree. */
  lemma VisitKeepsTree(g: map<Pos, Node>, start: Pos, visited: seq<Pos>, u: Pos)
    requires u in g && InGrid(g, visited) && SearchTree(g, start) && TraceFrom(g, start, visited)
    requires !g[u].isWall && g[u].distance.Fin?
    ensures SearchTree(g[u := g[u].(isVisited := true)], start)
    ensures visited == [] ==> u == start
  {
    var h := g[u := g[u].(isVisited := true)];
    if u != start {
      // Any other reached node has a finalized predecessor, so something is visited already.
      var q := g[u].previousNode.value;
      assert g[u].previousNode == Some(q);
      assert q in g && g[q].isVisited;
      assert q in visited;
    }
    assert PredecessorsConsistent(h) by {
      forall p, q | p in h && h[p].previousNode == Some(q)
        ensures q in h && h[p].distance.Fin? && h[q].distance.Fin? && h[p].distance.n == h[q].distance.n + 1
      {
        assert g[p].previousNode == h[p].previousNode && g[q].distance == h[q].distance;
      }
    }
    assert PredecessorsFinalized(h) by {
      forall p, q | p in h && h[p].previousNode == Some(q) ensures q in h && h[q].isVisited && Adjacent(p, q) {
        assert g[p].previousNode == h[p].previousNode;
      }
    }
  }

  /** Finalizing the head keeps the trace sorted: the head is nearest and the window is one wide. */
  lemma VisitKeepsTrace(g: map<Pos, Node>, start: Pos, unvisited: seq<Pos>, visited: seq<Pos>, lo: nat, sorted: seq<Pos>)
    requires SearchInvariant(g, start, unvisited, visited, lo)
    requires Resorted(g, unvisited, sorted)
    requires !g[sorted[0]].isWall && g[sorted[0]].distance.Fin?
    requires visited == [] ==> sorted[0] == start
    ensures InGrid(g, visited + [sorted[0]]) && InGrid(g, sorted[1..])
    ensures var h := g[sorted[0] := g[sorted[0]].(isVisited := true)];
      TraceFrom(h, start, visited + [sorted[0]]) &&
      Below(h, visited + [sorted[0]], g[sorted[0]].distance.n) &&
      Window(h, sorted[1..], g[sorted[0]].distance.n)
  {
    var u := sorted[0];
    var d := g[u].distance.n;
    var h := g[u := g[u].(isVisited := true)];
    var rest := sorted[1..];
    var trace := visited + [u];
    assert u in unvisited;
    assert lo <= d;
    assert NonDecreasing(h, trace) by {
      forall i, j | 0 <= i < j < |trace| ensures AtMost(h[trace[i]].distance, h[trace[j]].distance) {
        if j == |visited| {
          assert trace[i] in visited;
        }
      }
    }
    assert TraceFrom(h, start, trace);
    assert Window(h, rest, d) by {
      forall p | p in rest && !h[p].isWall && h[p].distance.Fin? ensures d <= h[p].distance.n <= d + 1 {
        assert p in sorted && p in unvisited;
      }
    }
  }

  /**
    Finalizing the head keeps the core invariant, with `lo` now the head's
    distance. The neighbour bounds of the full loop invariant hold again only
    once the head's neighbours are relaxed.
  */
  lemma Visit(g0: map<Pos, Node>, g: map<Pos, Node>, start: Pos, unvisited: seq<Pos>,
              visited: seq<Pos>, lo: nat, n: nat, onFresh: bool, sorted: seq<Pos>)
    requires CoreInvariant(g0, g, start, unvisited, visited, lo, n, onFresh)
    requires Resorted(g, unvisited, sorted)
    requires !g[sorted[0]].isWall && g[sorted[0]].distance.Fin?
    ensures CoreInvariant(g0, g[sorted[0] := g[sorted[0]].(isVisited := true)], start, sorted[1..],
                      visited + [sorted[0]], g[sorted[0]].distance.n, n, onFresh)
  {
    VisitBookkeeping(g0, g, unvisited, visited, n, sorted);
    if onFresh {
      VisitSearch(g, start, unvisited, visited, lo, sorted);
    }
  }

  /** Relaxation writes only unvisited nodes, so the trace and the coverage of the grid are untouched. */
  lemma RelaxBookkeeping(g0: map<Pos, Node>, g: map<Pos, Node>, unvisited: seq<Pos>,
                         visited: seq<Pos>, n: nat, u: Pos)
    requires Bookkeeping(g0, g, unvisited, visited, n)
    requires u in g
    ensures Bookkeeping(g0, RelaxNeighbors(g, u), unvisited, visited, n)
  {
    var h := RelaxNeighbors(g, u);
    assert LayoutUnchanged(g0, h);
    assert Finalized(h, visited);
  }

  /** Relaxation leaves every visited node as it was. */
  lemma RelaxSparesVisited(g: map<Pos, Node>, u: Pos)
    requires u in g
    ensures forall p | p in g && g[p].isVisited :: RelaxNeighbors(g, u)[p] == g[p]
  {
  }

  /**
    Relaxing through a finalized node `u` keeps the predecessor tree: each
    relaxed node is unvisited, so it is no node's predecessor, and it gets
    distance one more than `u` and `u`, a finalized 4-neighbour, as predecessor.
  */
  lemma RelaxKeepsTree(g: map<Pos, Node>, start: Pos, u: Pos)
    requires SearchTree(g, start) && Coherent(g)
    requires u in g && g[u].isVisited && g[u].distance.Fin? && g[start].isVisited
    ensures SearchTree(RelaxNeighbors(g, u), start)
  {
    var h := RelaxNeighbors(g, u);
    assert OwnCell(g, u) == u;
    RelaxSparesVisited(g, u);
    assert PredecessorsConsistent(h) by {
      forall p, q | p in h && h[p].previousNode == Some(q)
        ensures q in h && h[p].distance.Fin? && h[q].distance.Fin? && h[p].distance.n == h[q].distance.n + 1
      {
        if !RelaxedBy(g[p], p, g[u]) {
          assert g[p].previousNode == Some(q);
          assert q in g && g[q].isVisited;
        }
      }
    }
    assert PredecessorsFinalized(h) by {
      forall p, q | p in h && h[p].previousNode == Some(q) ensures q in h && h[q].isVisited && Adjacent(p, q) {
        if !RelaxedBy(g[p], p, g[u]) {
          assert g[p].previousNode == Some(q);
          assert q in g && g[q].isVisited;
        }
      }
    }
  }

  /** Relaxing through a node at distance `lo` writes `lo + 1` into unvisited nodes only, which keeps the trace and the window. */
  lemma RelaxKeepsTrace(g: map<Pos, Node>, start: Pos, unvisited: seq<Pos>, visited: seq<Pos>, lo: nat, u: Pos)
    requires InGrid(g, unvisited) && InGrid(g, visited)
    requires TraceFrom(g, start, visited) && Below(g, visited, lo) && Window(g, unvisited, lo)
    requires u in g && g[u].distance == Fin(lo)
    ensures InGrid(RelaxNeighbors(g, u), visited) && InGrid(RelaxNeighbors(g, u), unvisited)
    ensures TraceFrom(RelaxNeighbors(g, u), start, visited)
    ensures Below(RelaxNeighbors(g, u), visited, lo) && Window(RelaxNeighbors(g, u), unvisited, lo)
  {
    var h := RelaxNeighbors(g, u);
    RelaxSparesVisited(g, u);
    assert NonDecreasing(h, visited) by {
      forall i, j | 0 <= i < j < |visited| ensures AtMost(h[visited[i]].distance, h[visited[j]].distance) {
        assert visited[i] in visited && visited[j] in visited;
      }
    }
  }

  /** On a fresh grid, relaxing the neighbours of the node just finalized keeps the search invariant. */
  lemma RelaxSearch(g: map<Pos, Node>, start: Pos, unvisited: seq<Pos>, visited: seq<Pos>, lo: nat, u: Pos)
    requires SearchInvariant(g, start, unvisited, visited, lo)
    requires u in visited && g[u].distance == Fin(lo)
    ensures SearchInvariant(RelaxNeighbors(g, u), start, unvisited, visited, lo)
  {
    assert visited[0] == start;
    RelaxKeepsTree(g, start, u);
    RelaxKeepsTrace(g, start, unvisited, visited, lo, u);
    CoherentKept(g, RelaxNeighbors(g, u));
  }

  /** Relaxing the neighbours of the node `u` just appended to the trace restores the loop invariant. */
  lemma RelaxKeepsInvariant(g0: map<Pos, Node>, g: map<Pos, Node>, start: Pos, unvisited: seq<Pos>,
                            visited: seq<Pos>, lo: nat, n: nat, onFresh: bool, u: Pos)
    requires CoreInvariant(g0, g, start, unvisited, visited + [u], lo, n, onFresh)
    requires onFresh ==> Closed(g, visited) && Parity(g, start)
    requires u in g && g[u].distance == Fin(lo)
    ensures Invariant(g0, RelaxNeighbors(g, u), start, unvisited, visited + [u], lo, n, onFresh)
  {
    RelaxBookkeeping(g0, g, unvisited, visited + [u], n, u);
    if onFresh {
      RelaxSearch(g, start, unvisited, visited + [u], lo, u);
      RelaxCloses(g, start, unvisited, visited, lo, u);
      RelaxKeepsParity(g, start, u);
    }
  }

  /** Marking a node visited changes no distance and no wall. */
  lemma VisitKeepsClosed(g: map<Pos, Node>, start: Pos, t: seq<Pos>, u: Pos)
    requires u in g && Closed(g, t) && Parity(g, start)
    ensures Closed(g[u := g[u].(isVisited := true)], t)
    ensures Parity(g[u := g[u].(isVisited := true)], start)
  {
    var h := g[u := g[u].(isVisited := true)];
    forall p, q | p in t && q in h && Adjacent(q, p) && !h[q].isWall
      ensures p in h && h[p].distance.Fin? && h[q].distance.Fin? && h[q].distance.n <= h[p].distance.n + 1
    {
      assert g[q].distance == h[q].distance && g[q].isWall == h[q].isWall;
    }
  }

  /** Stepping to a 4-neighbour and one farther keeps the parity of position plus distance. */
  lemma AdjacentParity(p: Pos, q: Pos, d: int)
    requires Adjacent(p, q)
    ensures (p.0 + p.1 + d + 1) % 2 == (q.0 + q.1 + d) % 2
  {
  }

  /** Two reached 4-neighbours are never at the same distance. */
  lemma AdjacentApart(g: map<Pos, Node>, start: Pos, p: Pos, q: Pos)
    requires Parity(g, start) && Adjacent(p, q)
    requires p in g && q in g && g[p].distance.Fin? && g[q].distance.Fin?
    ensures g[p].distance.n != g[q].distance.n
  {
    assert (p.0 + p.1 + g[p].distance.n) % 2 == (q.0 + q.1 + g[q].distance.n) % 2;
  }

  /** Relaxing through `u`, which names its own cell, gives 4-neighbours of `u` the other parity. */
  lemma RelaxKeepsParity(g: map<Pos, Node>, start: Pos, u: Pos)
    requires u in g && Coherent(g) && g[u].distance.Fin? && Parity(g, start)
    ensures Parity(RelaxNeighbors(g, u), start)
  {
    var h := RelaxNeighbors(g, u);
    assert OwnCell(g, u) == u;
    forall q | q in h && h[q].distance.Fin? ensures (q.0 + q.1 + h[q].distance.n) % 2 == (start.0 + start.1) % 2 {
      if RelaxedBy(g[q], q, g[u]) {
        AdjacentParity(q, u, g[u].distance.n);
      }
    }
  }

  /**
    Relaxing through the node `u` just finalized, at distance `lo`, gives its
    unvisited 4-neighbours `lo + 1`, so `u` joins the nodes whose neighbours
    are relaxed. No earlier node loses that: a node it relaxes that one of
    them had reached was at `lo` or `lo + 1` (the window), not at `lo` (the
    parity), so it keeps its distance `lo + 1`.
  */
  lemma RelaxCloses(g: map<Pos, Node>, start: Pos, unvisited: seq<Pos>, t: seq<Pos>, lo: nat, u: Pos)
    requires SearchInvariant(g, start, unvisited, t + [u], lo) && Parity(g, start)
    requires forall p | p in g :: p in unvisited || g[p].isWall || g[p].isVisited
    requires g[u].distance == Fin(lo) && Closed(g, t)
    ensures Closed(RelaxNeighbors(g, u), t + [u])
  {
    var h := RelaxNeighbors(g, u);
    assert u in t + [u];
    assert OwnCell(g, u) == u;
    RelaxSparesVisited(g, u);
    forall p, q | p in t + [u] && q in h && Adjacent(q, p) && !h[q].isWall
      ensures p in h && h[p].distance.Fin? && h[q].distance.Fin? && h[q].distance.n <= h[p].distance.n + 1
    {
      assert g[p].isVisited && h[p] == g[p];
      if RelaxedBy(g[q], q, g[u]) {
        if p != u {
          assert p in t;
          assert q in unvisited && g[q].distance.Fin?;
          assert lo <= g[q].distance.n <= lo + 1;
          AdjacentApart(g, start, q, u);
        }
      } else {
        assert h[q] == g[q];
        if p == u {
          assert g[q].isVisited && q in t + [u];
        } else {
          assert p in t;
        }
      }
    }
  }

  /** With the unvisited list covering every open unvisited node, the window bounds the frontier from below. */
  lemma FrontierOf(g: map<Pos, Node>, unvisited: seq<Pos>, lo: nat)
    requires InGrid(g, unvisited) && Window(g, unvisited, lo)
    requires forall p | p in g :: p in unvisited || g[p].isWall || g[p].isVisited
    ensures Frontier(g, lo)
  {
  }

  /** What the search promises about the grid and the trace whenever it returns. */
  ghost predicate Returnable(g0: map<Pos, Node>, g: map<Pos, Node>, start: Pos, visited: seq<Pos>, n: nat, onFresh: bool) {
    LayoutUnchanged(g0, g) && Finalized(g, visited) && |visited| <= n &&
    (onFresh ==> SearchTree(g, start) && InGrid(g, visited) && TraceFrom(g, start, visited))
  }

  lemma InvariantOnReturn(g0: map<Pos, Node>, g: map<Pos, Node>, start: Pos, unvisited: seq<Pos>,
                          visited: seq<Pos>, lo: nat, n: nat, onFresh: bool)
    requires CoreInvariant(g0, g, start, unvisited, visited, lo, n, onFresh)
    ensures Returnable(g0, g, start, visited, n, onFresh)
  {
  }

  /**
    One full iteration on a reachable, non-wall head: finalizing it leaves a
    state the search may return, and relaxing its neighbours afterwards
    restores the loop invariant.
  */
  lemma Settle(g0: map<Pos, Node>, g: map<Pos, Node>, start: Pos, finish: Pos, unvisited: seq<Pos>,
               visited: seq<Pos>, lo: nat, n: nat, onFresh: bool, sorted: seq<Pos>, node: Node)
    requires CoordinatesInBounds(g0) && onFresh == FreshGrid(g0)
    requires Invariant(g0, g, start, unvisited, visited, lo, n, onFresh)
    requires Resorted(g, unvisited, sorted) && node == g[sorted[0]]
    requires !node.isWall && node.distance.Fin?
    ensures sorted[0] == finish ==>
      Outcome(g0, g[sorted[0] := node.(isVisited := true)], start, finish, Some(visited + [sorted[0]]), n)
    ensures OwnCell(g[sorted[0] := node.(isVisited := true)], sorted[0]) in g[sorted[0] := node.(isVisited := true)]
    ensures Invariant(g0, RelaxNeighbors(g[sorted[0] := node.(isVisited := true)], sorted[0]), start, sorted[1..],
                      visited + [sorted[0]], node.distance.n, n, onFresh)
  {
    var u := sorted[0];
    var h := g[u := node.(isVisited := true)];
    var trace := visited + [u];
    Visit(g0, g, start, unvisited, visited, lo, n, onFresh, sorted);
    if onFresh {
      VisitKeepsClosed(g, start, visited, u);
      FrontierOf(h, sorted[1..], node.distance.n);
    }
    InvariantOnReturn(g0, h, start, sorted[1..], trace, node.distance.n, n, onFresh);
    if u == finish {
      assert trace[|trace| - 1] == finish && trace[..|trace| - 1] == visited;
      Returned(g0, h, start, finish, trace, n, onFresh);
    }
    CoordinatesKept(g0, h, u);
    RelaxKeepsInvariant(g0, h, start, sorted[1..], visited, node.distance.n, n, onFresh, u);
  }

  /**
    What `dijkstra` promises, over the grid before (`g0`) and after (`g`) the
    search, with `n` the number of cells: the layout is untouched; a returned
    trace is finalized and no longer than the grid; it ends with the finish
    when it holds the finish, and otherwise leaves every unvisited non-wall
    node unreached; falling off the end leaves only walls and visited nodes.
    On a fresh grid the predecessor links form a search tree rooted at the
    start, a returned trace is exactly the visited nodes in non-decreasing
    distance from the start whose neighbours have all been relaxed (all but
    the finish, which ends the search before relaxing), and falling off the
    end means the finish is a wall or not a cell.
  */
  ghost predicate Outcome(g0: map<Pos, Node>, g: map<Pos, Node>, start: Pos, finish: Pos,
                          result: Option<seq<Pos>>, n: nat) {
    LayoutUnchanged(g0, g) &&
    (result.Some? ==> Finalized(g, result.value) && |result.value| <= n) &&
    (result.Some? && finish in result.value ==> result.value[|result.value| - 1] == finish) &&
    (result.Some? && finish !in result.value ==> AllUnreached(g)) &&
    (result.None? ==> AllVisitedOrWalls(g)) &&
    (FreshGrid(g0) ==> SearchTree(g, start)) &&
    (FreshGrid(g0) && result.Some? ==> InGrid(g, result.value) && TraceFrom(g, start, result.value)) &&
    (FreshGrid(g0) && result.Some? && finish !in result.value ==> Closed(g, result.value)) &&
    (FreshGrid(g0) && result.Some? && finish in result.value ==>
      Closed(g, result.value[..|result.value| - 1]) && Frontier(g, g[finish].distance.n)) &&
    (FreshGrid(g0) && result.None? ==> finish !in g || g[finish].isWall)
  }

  /** A state the search may return from, with the trace ending at the finish or every open node unreached, meets the contract. */
  lemma Returned(g0: map<Pos, Node>, g: map<Pos, Node>, start: Pos, finish: Pos,
                 visited: seq<Pos>, n: nat, onFresh: bool)
    requires onFresh == FreshGrid(g0)
    requires Returnable(g0, g, start, visited, n, onFresh)
    requires finish in visited ==> visited[|visited| - 1] == finish
    requires finish !in visited ==> AllUnreached(g)
    requires onFresh && finish !in visited ==> Closed(g, visited)
    requires onFresh && finish in visited ==>
      Closed(g, visited[..|visited| - 1]) && Frontier(g, g[finish].distance.n)
    ensures Outcome(g0, g, start, finish, Some(visited), n)
  {
  }

  /**
    The loop body once the head of the re-sorted list is taken: a wall is
    dropped with the invariant intact; an unreached head ends the search
    within its contract; a reachable head is finalized, which ends the search
    within its contract when it is the finish, and relaxing its neighbours
    otherwise restores the invariant.
  */
  lemma Dequeue(g0: map<Pos, Node>, g: map<Pos, Node>, start: Pos, finish: Pos, unvisited: seq<Pos>,
                visited: seq<Pos>, lo: nat, n: nat, onFresh: bool, sorted: seq<Pos>, node: Node)
    requires CoordinatesInBounds(g0) && onFresh == FreshGrid(g0)
    requires Invariant(g0, g, start, unvisited, visited, lo, n, onFresh) && finish !in visited
    requires Resorted(g, unvisited, sorted) && node == g[sorted[0]]
    ensures node.isWall ==> Invariant(g0, g, start, sorted[1..], visited, lo, n, onFresh)
    ensures !node.isWall && node.distance == Inf ==> Outcome(g0, g, start, finish, Some(visited), n)
    ensures !node.isWall && node.distance.Fin? && sorted[0] == finish ==>
      Outcome(g0, g[sorted[0] := node.(isVisited := true)], start, finish, Some(visited + [sorted[0]]), n)
    ensures !node.isWall && node.distance.Fin? ==>
      OwnCell(g[sorted[0] := node.(isVisited := true)], sorted[0]) in g[sorted[0] := node.(isVisited := true)] &&
      Invariant(g0, RelaxNeighbors(g[sorted[0] := node.(isVisited := true)], sorted[0]), start, sorted[1..],
                visited + [sorted[0]], node.distance.n, n, onFresh)
  {
    if node.isWall {
      SkipWall(g0, g, start, unvisited, visited, lo, n, onFresh, sorted);
    } else if node.distance == Inf {
      StopAtUnreached(g0, g, start, finish, unvisited, visited, lo, n, onFresh, sorted);
    } else {
      Settle(g0, g, start, finish, unvisited, visited, lo, n, onFresh, sorted, node);
    }
  }

  /** Running out of nodes ends the search within its contract. */
  lemma Exhausted(g0: map<Pos, Node>, g: map<Pos, Node>, start: Pos, finish: Pos,
                  visited: seq<Pos>, lo: nat, n: nat, onFresh: bool)
    requires onFresh == FreshGrid(g0)
    requires Invariant(g0, g, start, [], visited, lo, n, onFresh)
    requires finish !in visited
    ensures Outcome(g0, g, start, finish, None, n)
  {
    InvariantOnReturn(g0, g, start, [], visited, lo, n, onFresh);
  }

  // ---------------------------------------------------------------------------
  // The path read back from the predecessor links
  // ---------------------------------------------------------------------------

  /**
    `path` follows the `previousNode` links back from `finish` to a node
    without one: it ends with `finish`, starts at a root, and each node is
    the predecessor of the one after it.
  */
  ghost predicate PredecessorChain(g: map<Pos, Node>, path: seq<Pos>, finish: Pos) {
    |path| > 0 && path[|path| - 1] == finish && InGrid(g, path) &&
    g[path[0]].previousNode == None && LinkedBack(g, path)
  }

  /** Each node of `path` after the first has the one before it as its `previousNode`. */
  ghost predicate LinkedBack(g: map<Pos, Node>, path: seq<Pos>)
    requires InGrid(g, path)
  {
    forall i | 0 <= i < |path| - 1 :: g[path[i + 1]].previousNode == Some(path[i])
  }

  /** Prepending the predecessor of the first node keeps a path linked. */
  lemma LinkedBackCons(g: map<Pos, Node>, p: Pos, path: seq<Pos>)
    requires p in g && InGrid(g, path) && LinkedBack(g, path)
    requires path != [] ==> g[path[0]].previousNode == Some(p)
    ensures InGrid(g, [p] + path) && LinkedBack(g, [p] + path)
  {
    var path' := [p] + path;
    assert forall q | q in path' :: q == p || q in path;
    forall i | 0 <= i < |path'| - 1 ensures g[path'[i + 1]].previousNode == Some(path'[i]) {
      if i > 0 {
        assert path'[i + 1] == path[i] && path'[i] == path[i - 1];
      }
    }
  }

  /**
    In a search tree the chain back from a reached node is a walk from the
    start: it begins at the start, the `i`-th node is at distance
    `i`, so it has `distance + 1` nodes, each step is to a 4-neighbour, and
    every node before the last is finalized and not a wall.
  */
  lemma {:induction false} ChainFromStart(g: map<Pos, Node>, start: Pos, path: seq<Pos>, finish: Pos)
    requires SearchTree(g, start) && PredecessorChain(g, path, finish)
    requires g[finish].distance.Fin?
    ensures path[0] == start
    ensures |path| == g[finish].distance.n + 1
    ensures forall i | 0 <= i < |path| :: g[path[i]].distance == Fin(i)
    ensures forall i | 0 <= i < |path| - 1 ::
      Adjacent(path[i + 1], path[i]) && g[path[i]].isVisited && !g[path[i]].isWall
    ensures Distinct(path)
  {
    var k := |path| - 1;
    if k == 0 {
      assert g[finish].previousNode == None;
    } else {
      var q := path[k - 1];
      var prefix := path[..k];
      assert g[finish].previousNode == Some(q) by {
        assert path[k - 1 + 1] == finish;
      }
      assert q in g && g[q].distance.Fin? && g[finish].distance.n == g[q].distance.n + 1;
      assert q in g && g[q].isVisited && Adjacent(finish, q);
      assert PredecessorChain(g, prefix, q) by {
        assert forall p | p in prefix :: p in path;
        forall i | 0 <= i < |prefix| - 1 ensures g[prefix[i + 1]].previousNode == Some(prefix[i]) {
          assert prefix[i + 1] == path[i + 1] && prefix[i] == path[i];
        }
      }
      ChainFromStart(g, start, prefix, q);
      forall i | 0 <= i < |path| ensures g[path[i]].distance == Fin(i) {
        if i < k {
          assert path[i] == prefix[i];
        }
      }
      forall i | 0 <= i < |path| - 1
        ensures Adjacent(path[i + 1], path[i]) && g[path[i]].isVisited && !g[path[i]].isWall
      {
        if i < k - 1 {
          assert path[i] == prefix[i] && path[i + 1] == prefix[i + 1];
        }
      }
    }
    DistinctByDistance(g, path);
  }

  /** Nodes at pairwise different distances are pairwise different; in particular a chain from the start repeats no node. */
  lemma DistinctByDistance(g: map<Pos, Node>, path: seq<Pos>)
    requires InGrid(g, path)
    requires forall i | 0 <= i < |path| :: g[path[i]].distance == Fin(i)
    ensures Distinct(path)
  {
    forall i, j | 0 <= i < j < |path| ensures path[i] != path[j] {
      assert g[path[i]].distance == Fin(i);
    }
  }

  /** The node before the last in a chain is the last node's predecessor. */
  lemma ChainLast(g: map<Pos, Node>, path: seq<Pos>, finish: Pos)
    requires PredecessorChain(g, path, finish)
    ensures |path| > 1 ==> g[finish].previousNode == Some(path[|path| - 2])
  {
    if |path| > 1 {
      assert path[|path| - 2 + 1] == finish;
    }
  }

  /** A node with a predecessor link has been reached. */
  lemma LinkedMeansReached(g: map<Pos, Node>, p: Pos)
    requires PredecessorsConsistent(g) && p in g
    ensures g[p].previousNode.Some? ==> g[p].distance.Fin?
  {
    if g[p].previousNode.Some? {
      var q := g[p].previousNode.value;
      assert q in g;
    }
  }

  /**
    What the path read back after a search on a fresh grid is: the finish
    alone if the finish was never reached, and otherwise a walk of
    4-neighbours from the start with `distance + 1` nodes, each node once,
    every node before the finish in the returned trace. That it is a
    shortest open walk is `PathIsShortest`.
  */
  lemma PathAfterSearch(g0: map<Pos, Node>, g: map<Pos, Node>, start: Pos, finish: Pos,
                        result: Option<seq<Pos>>, n: nat, path: seq<Pos>)
    requires FreshGrid(g0) && Outcome(g0, g, start, finish, result, n)
    requires PredecessorChain(g, path, finish)
    ensures g[finish].distance == Inf ==> path == [finish]
    ensures g[finish].distance.Fin? ==>
      path[0] == start && |path| == g[finish].distance.n + 1 && Distinct(path) &&
      (forall i | 0 <= i < |path| - 1 :: Adjacent(path[i + 1], path[i])) &&
      (result.Some? ==> forall i | 0 <= i < |path| - 1 :: path[i] in result.value)
  {
    assert SearchTree(g, start);
    LinkedMeansReached(g, finish);
    if g[finish].distance.Fin? {
      ChainFromStart(g, start, path, finish);
      if result.Some? {
        assert forall i | 0 <= i < |path| - 1 :: path[i] in g && g[path[i]].isVisited;
      }
    } else {
      ChainLast(g, path, finish);
      assert |path| == 1 && path[0] == finish;
    }
  }

  // ---------------------------------------------------------------------------
  // What a search on a fresh grid finds
  // ---------------------------------------------------------------------------

  /** `w` is a walk through open cells of `g`, each step to a 4-neighbour. */
  ghost predicate OpenWalk(g: map<Pos, Node>, w: seq<Pos>) {
    InGrid(g, w) && (forall i | 0 <= i < |w| :: !g[w[i]].isWall) &&
    forall i | 0 <= i < |w| - 1 :: Adjacent(w[i + 1], w[i])
  }

  /** A walk without its last step is a walk. */
  lemma OpenWalkPrefix(g: map<Pos, Node>, w: seq<Pos>)
    requires OpenWalk(g, w) && |w| > 1
    ensures OpenWalk(g, w[..|w| - 1])
  {
    var v := w[..|w| - 1];
    assert forall p | p in v :: p in w;
    assert forall i | 0 <= i < |v| :: v[i] == w[i];
  }

  /**
    When a trace without the finish is returned on a fresh grid, it is closed
    under open steps: every walk through open cells from the start stays
    inside it.
  */
  lemma {:induction false} WalkStaysInTrace(g0: map<Pos, Node>, g: map<Pos, Node>, start: Pos, finish: Pos,
                                            t: seq<Pos>, n: nat, w: seq<Pos>)
    requires FreshGrid(g0) && Outcome(g0, g, start, finish, Some(t), n) && finish !in t
    requires OpenWalk(g0, w) && w != [] && w[0] == start
    ensures forall i | 0 <= i < |w| :: w[i] in t
  {
    var k := |w| - 1;
    var p := w[k];
    assert p in g0 && !g0[p].isWall;
    assert p in g && !g[p].isWall;
    if k == 0 {
      assert g[start].distance == Fin(0);
    } else {
      OpenWalkPrefix(g0, w);
      WalkStaysInTrace(g0, g, start, finish, t, n, w[..k]);
      assert w[k - 1] == w[..k][k - 1];
      assert w[k - 1] in t && Adjacent(p, w[k - 1]);
      assert g[p].distance.Fin?;
      assert forall i | 0 <= i < k :: w[i] == w[..k][i];
    }
    assert g[p].isVisited;
  }

  /**
    On a fresh grid the search finds the finish whenever an open walk leads
    to it from the start: the result is a trace, and it ends with the finish.
    Put the other way round, when the finish is not returned it cannot be
    reached from the start without crossing a wall.
  */
  lemma FoundIfReachable(g0: map<Pos, Node>, g: map<Pos, Node>, start: Pos, finish: Pos,
                         result: Option<seq<Pos>>, n: nat, w: seq<Pos>)
    requires FreshGrid(g0) && Outcome(g0, g, start, finish, result, n)
    requires OpenWalk(g0, w) && w != [] && w[0] == start && w[|w| - 1] == finish
    ensures result.Some? && finish in result.value && result.value[|result.value| - 1] == finish
    ensures g[finish].distance.Fin? && g[finish].isVisited
  {
    assert finish in w;
    assert finish in g0 && !g0[finish].isWall;
    if result.Some? && finish !in result.value {
      WalkStaysInTrace(g0, g, start, finish, result.value, n, w);
    }
  }

  /**
    When the finish is returned on a fresh grid at distance `D`, every open
    walk from the start of at most `D` steps ends at a node reached within
    that many steps: a node reached below `D` is not on the frontier, so it
    has been visited, before the finish, and its neighbours relaxed.
  */
  lemma {:induction false} ShortWalkReached(g0: map<Pos, Node>, g: map<Pos, Node>, start: Pos, finish: Pos,
                                            t: seq<Pos>, n: nat, w: seq<Pos>)
    requires FreshGrid(g0) && Outcome(g0, g, start, finish, Some(t), n) && finish in t
    requires OpenWalk(g0, w) && w != [] && w[0] == start && |w| - 1 <= g[finish].distance.n
    ensures w[|w| - 1] in g && g[w[|w| - 1]].distance.Fin? && g[w[|w| - 1]].distance.n <= |w| - 1
  {
    var k := |w| - 1;
    var p := w[k];
    assert p in g0 && p in g;
    if k == 0 {
      assert g[start].distance == Fin(0);
    } else {
      var v := w[..k];
      OpenWalkPrefix(g0, w);
      assert v[k - 1] == w[k - 1] && v[0] == start;
      ShortWalkReached(g0, g, start, finish, t, n, v);
      var q := w[k - 1];
      assert q in g0 && !g0[q].isWall && !g[q].isWall;
      assert g[q].distance.n < g[finish].distance.n;
      assert g[q].isVisited;
      assert q in t && q != finish;
      assert q in t[..|t| - 1];
      assert Adjacent(p, q) && !g[p].isWall;
    }
  }

  /**
    On a fresh grid the distance the search gives the finish is the length of
    a shortest open walk to it: no open walk from the start reaches the
    finish in fewer steps.
  */
  lemma FinishNoFarther(g0: map<Pos, Node>, g: map<Pos, Node>, start: Pos, finish: Pos,
                        result: Option<seq<Pos>>, n: nat, w: seq<Pos>)
    requires FreshGrid(g0) && Outcome(g0, g, start, finish, result, n)
    requires OpenWalk(g0, w) && w != [] && w[0] == start && w[|w| - 1] == finish
    ensures g[finish].distance.Fin? && g[finish].distance.n <= |w| - 1
  {
    FoundIfReachable(g0, g, start, finish, result, n, w);
    if |w| - 1 < g[finish].distance.n {
      ShortWalkReached(g0, g, start, finish, result.value, n, w);
    }
  }

  /**
    When an open walk leads from the start to the finish of a fresh grid, the
    path read back after the search is itself an open walk between them, and
    none is shorter.
  */
  lemma PathIsShortest(g0: map<Pos, Node>, g: map<Pos, Node>, start: Pos, finish: Pos,
                       result: Option<seq<Pos>>, n: nat, path: seq<Pos>, w: seq<Pos>)
    requires FreshGrid(g0) && Outcome(g0, g, start, finish, result, n)
    requires PredecessorChain(g, path, finish)
    requires OpenWalk(g0, w) && w != [] && w[0] == start && w[|w| - 1] == finish
    ensures path[0] == start && OpenWalk(g0, path) && |path| <= |w|
  {
    FinishNoFarther(g0, g, start, finish, result, n, w);
    FoundIfReachable(g0, g, start, finish, result, n, w);
    PathAfterSearch(g0, g, start, finish, result, n, path);
    assert finish in w && !g0[finish].isWall;
    forall i | 0 <= i < |path| ensures path[i] in g0 && !g0[path[i]].isWall {
      if i < |path| - 1 {
        assert path[i] in result.value;
      }
    }
  }

  /** The number of row and column steps between two cells. */
  function Manhattan(p: Pos, q: Pos): (d: nat)
    ensures d == 0 <==> p == q
  {
    (if p.0 <= q.0 then q.0 - p.0 else p.0 - q.0) + (if p.1 <= q.1 then q.1 - p.1 else p.1 - q.1)
  }

  /** A walk of 4-neighbour steps takes at least as many steps as the Manhattan distance between its ends. */
  lemma {:induction false} WalkAtLeastManhattan(w: seq<Pos>)
    requires w != [] && forall i | 0 <= i < |w| - 1 :: Adjacent(w[i + 1], w[i])
    ensures Manhattan(w[0], w[|w| - 1]) <= |w| - 1
  {
    if |w| > 1 {
      var v := w[..|w| - 1];
      assert forall i | 0 <= i < |v| :: v[i] == w[i];
      WalkAtLeastManhattan(v);
      assert v[0] == w[0] && v[|v| - 1] == w[|w| - 2];
      assert Adjacent(w[|w| - 1], w[|w| - 2]);
    }
  }
}
