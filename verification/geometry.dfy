/** Integer cell coordinates of the 4-connected grid and the distance
    functions the searches use. The `z` component of the source's
    `Vector3Int` is always 0 for every offset and is not modelled. */
module Geometry {

  datatype Pos = Pos(x: int, y: int)

  function Abs(n: int): (r: nat)
    ensures r == n || r == -n
  {
    if n < 0 then -n else n
  }

  function Add(p: Pos, d: Pos): Pos
  {
    Pos(p.x + d.x, p.y + d.y)
  }

  const Right: Pos := Pos(1, 0)
  const Left: Pos := Pos(-1, 0)
  const Up: Pos := Pos(0, 1)
  const Down: Pos := Pos(0, -1)

  /** The fixed neighbour order shared by every algorithm: right, left, up, down. */
  const Directions: seq<Pos> := [Right, Left, Up, Down]

  /** The four cells one step away from `p`, in neighbour order. */
  function Around(p: Pos): (cs: seq<Pos>)
    ensures |cs| == 4
    ensures forall i :: 0 <= i < 4 ==> cs[i] == Add(p, Directions[i])
  {
    [Add(p, Right), Add(p, Left), Add(p, Up), Add(p, Down)]
  }

  /** |dx| + |dy| (Grid.GetDistance, Grid.GetHeuristicDistance and the
      Manhattan helpers of both genetic searches). */
  function Manhattan(a: Pos, b: Pos): (d: nat)
    ensures d == 0 <==> a == b
  {
    Abs(a.x - b.x) + Abs(a.y - b.y)
  }

  /** Two cells are neighbours of the 4-connected grid. */
  predicate Adjacent(a: Pos, b: Pos)
  {
    Manhattan(a, b) == 1
  }

  lemma ManhattanSymmetric(a: Pos, b: Pos)
    ensures Manhattan(a, b) == Manhattan(b, a)
  {
  }

  lemma ManhattanTriangle(a: Pos, b: Pos, c: Pos)
    ensures Manhattan(a, c) <= Manhattan(a, b) + Manhattan(b, c)
  {
  }

  /** A cell is adjacent to `p` exactly when it is one of the four cells around `p`. */
  lemma AdjacentIffAround(p: Pos, q: Pos)
    ensures Adjacent(p, q) <==> q in Around(p)
  {
    var cs := Around(p);
    if Adjacent(p, q) {
      if q.x == p.x + 1 { assert q == cs[0]; }
      else if q.x == p.x - 1 { assert q == cs[1]; }
      else if q.y == p.y + 1 { assert q == cs[2]; }
      else { assert q == cs[3]; }
    }
  }

  /** Index of the direction leading from `p` to the adjacent cell `q`:
      0 right, 1 left, 2 up, 3 down. */
  function DirIndex(p: Pos, q: Pos): (k: nat)
    requires Adjacent(p, q)
    ensures k < 4 && Around(p)[k] == q
  {
    if q.x == p.x + 1 then 0
    else if q.x == p.x - 1 then 1
    else if q.y == p.y + 1 then 2
    else 3
  }

  /** Moving along a walk of n cells changes the Manhattan distance from its
      first cell by at most n - 1. */
  lemma {:induction false} WalkSpan(p: seq<Pos>)
    requires |p| >= 1
    requires forall i :: 1 <= i < |p| ==> Adjacent(p[i-1], p[i])
    ensures Manhattan(p[0], p[|p|-1]) <= |p| - 1
  {
    if |p| > 1 {
      var q := p[..|p|-1];
      assert forall i :: 1 <= i < |q| ==> Adjacent(q[i-1], q[i]) by {
        forall i | 1 <= i < |q| ensures Adjacent(q[i-1], q[i]) {
          assert q[i-1] == p[i-1] && q[i] == p[i];
        }
      }
      WalkSpan(q);
      ManhattanTriangle(p[0], p[|p|-2], p[|p|-1]);
    }
  }

  /** The 10/14 octile cost of Astar.GetDistance: 14 per diagonal unit and 10
      per straight unit. */
  function Octile(a: Pos, b: Pos): (d: nat)
  {
    var dx := Abs(a.x - b.x);
    var dy := Abs(a.y - b.y);
    if dx > dy then 14 * dy + 10 * (dx - dy) else 14 * dx + 10 * (dy - dx)
  }

  lemma OctileProperties(a: Pos, b: Pos)
    ensures Octile(a, b) == Octile(b, a)
    ensures Octile(a, b) == 0 <==> a == b
    ensures Adjacent(a, b) ==> Octile(a, b) == 10
    ensures 10 * Manhattan(a, b) >= Octile(a, b) >= 7 * Manhattan(a, b)
  {
  }
}
