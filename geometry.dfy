/** Grid geometry shared by the maze game: cells, the four directions,
    4-adjacency, the breadth-first search's neighbour order, and the
    reversal used to turn a parent chain into a start-to-end route. */
module Geometry {

  /** A cell of the maze; the maze itself is indexed `maze[y, x]`. */
  datatype Pos = Pos(x: int, y: int)

  /** The parent of the start cell in the search's parent map. */
  const Sentinel: Pos := Pos(-1, -1)

  datatype Dir = Up | Down | Left | Right

  /** The cell one step away in direction `d` (up decreases `y`). */
  function Step(p: Pos, d: Dir): Pos
  {
    match d
    case Up => Pos(p.x, p.y - 1)
    case Down => Pos(p.x, p.y + 1)
    case Left => Pos(p.x - 1, p.y)
    case Right => Pos(p.x + 1, p.y)
  }

  function Abs(n: int): nat
  {
    if n < 0 then -n else n
  }

  function Manhattan(a: Pos, b: Pos): nat
  {
    Abs(a.x - b.x) + Abs(a.y - b.y)
  }

  /** Two cells are 4-adjacent when they differ by one in exactly one coordinate. */
  predicate Adjacent(a: Pos, b: Pos)
  {
    Manhattan(a, b) == 1
  }

  /** The search's neighbour offsets, in its order: up, down, left, right. */
  const DX: seq<int> := [0, 0, -1, 1]
  const DY: seq<int> := [-1, 1, 0, 0]

  function Neighbour(p: Pos, i: int): (q: Pos)
    requires 0 <= i < 4
    ensures Adjacent(p, q)
  {
    Pos(p.x + DX[i], p.y + DY[i])
  }

  /** The four offsets reach every 4-adjacent cell and no other, in the order of `Dir`. */
  lemma AdjacentIsNeighbour(a: Pos, b: Pos)
    ensures Adjacent(a, b) <==>
      b == Neighbour(a, 0) || b == Neighbour(a, 1) || b == Neighbour(a, 2) || b == Neighbour(a, 3)
    ensures Neighbour(a, 0) == Step(a, Up) && Neighbour(a, 1) == Step(a, Down)
    ensures Neighbour(a, 2) == Step(a, Left) && Neighbour(a, 3) == Step(a, Right)
  {
  }

  /** A step leads to a 4-adjacent cell. */
  lemma StepAdjacent(p: Pos, d: Dir)
    ensures Adjacent(p, Step(p, d))
  {
  }

  /** Consecutive cells of `p` are 4-adjacent. */
  predicate IsChain(p: seq<Pos>)
  {
    forall i :: 0 <= i < |p| - 1 ==> Adjacent(p[i], p[i + 1])
  }

  /** A chain extended by a cell adjacent to its last cell is still a chain. */
  lemma ChainSnoc(s: seq<Pos>, x: Pos)
    requires IsChain(s)
    requires |s| > 0 ==> Adjacent(s[|s| - 1], x)
    ensures IsChain(s + [x])
  {
    var t := s + [x];
    forall i | 0 <= i < |t| - 1 ensures Adjacent(t[i], t[i + 1]) {
      if i < |s| - 1 {
        assert t[i] == s[i] && t[i + 1] == s[i + 1];
      }
    }
  }

  /** `s` in the opposite order: the reversal that turns the parent chain
      into a start-to-end route. */
  function Reversed<T>(s: seq<T>): (r: seq<T>)
    ensures |r| == |s|
    ensures forall i :: 0 <= i < |s| ==> r[i] == s[|s| - 1 - i]
  {
    if |s| == 0 then [] else [s[|s| - 1]] + Reversed(s[..|s| - 1])
  }

  /** Reversing a chain gives a chain, since adjacency is symmetric. */
  lemma ReversedChain(s: seq<Pos>)
    requires IsChain(s)
    ensures IsChain(Reversed(s))
  {
    var r := Reversed(s);
    forall i | 0 <= i < |r| - 1 ensures Adjacent(r[i], r[i + 1]) {
      assert r[i] == s[|s| - 1 - i] && r[i + 1] == s[|s| - 2 - i];
      assert Adjacent(s[|s| - 2 - i], s[|s| - 1 - i]);
    }
  }
}
