/** The conventional optional value; `None` stands for JavaScript's `null` and `undefined`. */
module Wrappers {
  datatype Option<+T> = None | Some(value: T)
}

/**
  The data model shared by the search engine and the visualizer: a grid node
  and the grid, a rectangular two-dimensional store of nodes.

  In the source a node is a mutable object and nodes are compared by identity.
  Here a node is a value stored in an `array2`, and its identity is its
  position in the grid, so a back-reference `previousNode` is a position.
*/
module Nodes {
  import opened Wrappers

  /** A tentative distance. `Inf` is JavaScript's `Infinity`, used only as the "not reached" sentinel. */
  datatype Dist = Fin(n: nat) | Inf

  /** A grid position `(row, col)`; it is also the identity of the node stored there. */
  type Pos = (int, int)

  /** The object literal built by `createNode`, field for field. */
  datatype Node = Node(
    col: int,
    row: int,
    isStart: bool,
    isFinish: bool,
    distance: Dist,
    isVisited: bool,
    isWall: bool,
    previousNode: Option<Pos>)

  /** `p` is a cell of a `rows` by `cols` grid. */
  predicate InRect(rows: int, cols: int, p: Pos) {
    0 <= p.0 < rows && 0 <= p.1 < cols
  }

  predicate InBounds(grid: array2<Node>, p: Pos) {
    InRect(grid.Length0, grid.Length1, p)
  }

  function At(grid: array2<Node>, p: Pos): Node
    reads grid
    requires InBounds(grid, p)
  {
    grid[p.0, p.1]
  }

  ghost predicate AllInBounds(grid: array2<Node>, s: seq<Pos>) {
    forall i :: 0 <= i < |s| ==> InBounds(grid, s[i])
  }

  /**
    What the grid holds: the node at each of its positions. The search is
    specified on these snapshots; `Contents(grid)` before and after a call
    says what the call did to the grid.
  */
  ghost function Contents(grid: array2<Node>): (g: map<Pos, Node>)
    reads grid
    ensures forall p {:trigger p in g} :: p in g <==> InBounds(grid, p)
    ensures forall p {:trigger g[p]} | InBounds(grid, p) :: g[p] == At(grid, p)
  {
    map i, j | 0 <= i < grid.Length0 && 0 <= j < grid.Length1 :: (i, j) := grid[i, j]
  }

  /** No node occurs twice. */
  ghost predicate Distinct(s: seq<Pos>) {
    forall i, j :: 0 <= i < j < |s| ==> s[i] != s[j]
  }

  /** The tail of a list holds only nodes of the list; without repetitions it has none, and lacks the head. */
  lemma DistinctTail(s: seq<Pos>)
    requires |s| > 0
    ensures forall q :: q in s[1..] ==> q in s
    ensures Distinct(s) ==> Distinct(s[1..]) && s[0] !in s[1..]
  {
    var rest := s[1..];
    if Distinct(s) {
      forall k | 0 <= k < |rest| ensures rest[k] != s[0] {
        assert rest[k] == s[k + 1];
      }
      forall i, j | 0 <= i < j < |rest| ensures rest[i] != rest[j] {
        assert rest[i] == s[i + 1] && rest[j] == s[j + 1];
      }
    }
  }

  /** Two positions are 4-neighbours: they differ by one in exactly one coordinate. */
  ghost predicate Adjacent(p: Pos, q: Pos) {
    (p.0 == q.0 && (p.1 == q.1 + 1 || p.1 + 1 == q.1)) ||
    (p.1 == q.1 && (p.0 == q.0 + 1 || p.0 + 1 == q.0))
  }

  /** The order on distances: finite distances by value, `Inf` after all of them. */
  predicate AtMost(a: Dist, b: Dist) {
    b.Inf? || (a.Fin? && a.n <= b.n)
  }

  /** `distance + 1`; `Infinity + 1` is `Infinity`. */
  function Successor(d: Dist): Dist {
    match d
    case Fin(n) => Fin(n + 1)
    case Inf => Inf
  }

  /** The cell a node names by its own `row` and `col`. */
  ghost function OwnCell(g: map<Pos, Node>, p: Pos): Pos
    requires p in g
  {
    (g[p].row, g[p].col)
  }

  /** Every node's own `row` and `col` name a cell of the grid, as the search needs when it looks up neighbours. */
  ghost predicate CoordinatesInBounds(g: map<Pos, Node>) {
    forall p {:trigger OwnCell(g, p)} | p in g :: OwnCell(g, p) in g
  }

  /** The node stored at each position names that position. */
  ghost predicate Coherent(g: map<Pos, Node>) {
    forall p {:trigger OwnCell(g, p)} | p in g :: OwnCell(g, p) == p
  }

  /** A node as `createNode` leaves it: not reached, not finalized, no predecessor. */
  ghost predicate FreshNode(node: Node) {
    node.distance == Inf && !node.isVisited && node.previousNode == None
  }

  /** The state a search silently relies on: coherent coordinates and every node fresh (walls may be anywhere). */
  ghost predicate FreshGrid(g: map<Pos, Node>) {
    Coherent(g) && forall p | p in g :: FreshNode(g[p])
  }

  /** The fields a search run never writes. */
  ghost predicate SameLayout(a: Node, b: Node) {
    a.row == b.row && a.col == b.col && a.isStart == b.isStart &&
    a.isFinish == b.isFinish && a.isWall == b.isWall
  }

  /** `h` has the cells of `g`, and each with the same layout. */
  ghost predicate LayoutUnchanged(g: map<Pos, Node>, h: map<Pos, Node>) {
    (forall p :: p in h <==> p in g) &&
    forall p | p in g && p in h :: SameLayout(h[p], g[p])
  }
}
