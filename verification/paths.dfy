/** Walks over the 4-connected grid and the back-pointer arena the
    deterministic searches keep: one parent per discovered position and a
    rank (g-cost, distance or breadth-first depth) that strictly decreases
    along parents, so `Retrace` terminates. */
module Paths {
  import opened Geometry

  /** A walk: every step moves to an adjacent walkable cell. The first cell is
      exempt, because every search starts from the cell it is given without
      checking it. */
  predicate IsWalk(walk: set<Pos>, p: seq<Pos>)
  {
    |p| >= 1 && forall i :: 1 <= i < |p| ==> p[i] in walk && Adjacent(p[i-1], p[i])
  }

  predicate PathFromTo(walk: set<Pos>, p: seq<Pos>, s: Pos, e: Pos)
  {
    IsWalk(walk, p) && p[0] == s && p[|p|-1] == e
  }

  /** `p` is a walk from `s` to `e` and no walk from `s` to `e` is shorter. */
  ghost predicate Shortest(walk: set<Pos>, p: seq<Pos>, s: Pos, e: Pos)
  {
    PathFromTo(walk, p, s, e) && forall q :: PathFromTo(walk, q, s, e) ==> |p| <= |q|
  }

  ghost predicate Unreachable(walk: set<Pos>, s: Pos, e: Pos)
  {
    forall q :: !PathFromTo(walk, q, s, e)
  }

  /** Every parent pointer leads to a position of strictly smaller,
      non-negative rank, and parent chains end at `start`. */
  predicate Ranked(parent: map<Pos, Pos>, rank: map<Pos, int>, start: Pos)
  {
    && (forall u :: u in parent ==> u in rank && parent[u] in rank && 0 <= rank[parent[u]] < rank[u])
    && (forall u :: u in parent ==> parent[u] == start || parent[u] in parent)
  }

  /** Every parent pointer is a step of the grid into a walkable cell. */
  predicate Linked(walk: set<Pos>, parent: map<Pos, Pos>)
  {
    forall u :: u in parent ==> u in walk && Adjacent(parent[u], u)
  }

  /** RetracePath: follow parents from `v` back to `start` and reverse. */
  function Retrace(parent: map<Pos, Pos>, ghost rank: map<Pos, int>, start: Pos, v: Pos): (r: seq<Pos>)
    requires Ranked(parent, rank, start)
    requires v == start || v in parent
    ensures |r| >= 1 && r[0] == start && r[|r|-1] == v
    ensures forall i :: 1 <= i < |r| ==> r[i] in parent && parent[r[i]] == r[i-1]
    decreases if v in parent then rank[v] else 0
  {
    if v == start then [start]
    else Retrace(parent, rank, start, parent[v]) + [v]
  }

  /** A retraced path over linked parents is a walk from `start` to `v`. */
  lemma RetraceIsPath(walk: set<Pos>, parent: map<Pos, Pos>, rank: map<Pos, int>, start: Pos, v: Pos)
    requires Ranked(parent, rank, start) && Linked(walk, parent)
    requires v == start || v in parent
    ensures PathFromTo(walk, Retrace(parent, rank, start, v), start, v)
  {
  }

  /** When every parent pointer adds the same positive cost `c` to the rank,
      the rank of `v` is `c` times the number of steps of its retraced path. */
  lemma {:induction false} RetraceLength(parent: map<Pos, Pos>, rank: map<Pos, int>, start: Pos, v: Pos, c: int)
    requires Ranked(parent, rank, start)
    requires start in rank && rank[start] == 0 && start !in parent
    requires forall u :: u in parent ==> rank[u] == rank[parent[u]] + c
    requires v == start || v in parent
    ensures v in rank && rank[v] == c * (|Retrace(parent, rank, start, v)| - 1)
    decreases if v in parent then rank[v] else 0
  {
    if v != start {
      var u := parent[v];
      RetraceLength(parent, rank, start, u, c);
      var k := |Retrace(parent, rank, start, u)|;
      assert |Retrace(parent, rank, start, v)| == k + 1;
      assert rank[v] == c * (k - 1) + c;
      assert c * (k - 1) + c == c * k;
    }
  }

  /** A walk that begins inside a set closed under walkable neighbours never
      leaves it. */
  lemma {:induction false} WalkStaysIn(walk: set<Pos>, s: set<Pos>, q: seq<Pos>)
    requires IsWalk(walk, q) && q[0] in s
    requires forall u, w :: u in s && w in walk && Adjacent(u, w) ==> w in s
    ensures forall i :: 0 <= i < |q| ==> q[i] in s
  {
    if |q| > 1 {
      var p := q[..|q|-1];
      assert IsWalk(walk, p) by {
        forall i | 1 <= i < |p| ensures p[i] in walk && Adjacent(p[i-1], p[i]) {
          assert p[i] == q[i] && p[i-1] == q[i-1];
        }
      }
      WalkStaysIn(walk, s, p);
      assert q[|q|-2] == p[|p|-1];
      forall i | 0 <= i < |q| ensures q[i] in s {
        if i < |q| - 1 { assert q[i] == p[i]; }
      }
    }
  }

  /** A path that lists no cell twice. */
  predicate Simple(p: seq<Pos>)
  {
    forall i, j :: 0 <= i < j < |p| ==> p[i] != p[j]
  }

  /** Ranks strictly increase along a retraced path, so it lists no cell twice. */
  lemma {:induction false} RetraceSimple(parent: map<Pos, Pos>, rank: map<Pos, int>, start: Pos, v: Pos)
    requires Ranked(parent, rank, start) && start in rank
    requires v == start || v in parent
    ensures var r := Retrace(parent, rank, start, v);
            && (forall i :: 0 <= i < |r| ==> r[i] in rank)
            && (forall i, j :: 0 <= i < j < |r| ==> rank[r[i]] < rank[r[j]])
            && Simple(r)
    decreases if v in parent then rank[v] else 0
  {
    if v != start {
      var u := parent[v];
      RetraceSimple(parent, rank, start, u);
      var p := Retrace(parent, rank, start, u);
      var r := p + [v];
      assert Retrace(parent, rank, start, v) == r;
      forall i, j | 0 <= i < j < |r| ensures rank[r[i]] < rank[r[j]] {
        if j == |r| - 1 {
          assert r[j] == v && p[|p|-1] == u;
          if i < |p| - 1 { assert rank[p[i]] < rank[p[|p|-1]]; }
        } else {
          assert r[i] == p[i] && r[j] == p[j];
        }
      }
    }
  }

  /** A subset is no larger, and a proper subset is strictly smaller. */
  lemma SubsetCard<T>(a: set<T>, b: set<T>)
    requires a <= b
    ensures |a| <= |b|
    ensures a != b ==> |a| < |b|
  {
    if a != b {
      var x :| x in b && x !in a;
      assert a <= b - {x};
    }
    assert b == a + (b - a);
  }
}
