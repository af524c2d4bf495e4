/** Algorithms/Genetic.cs: a genetic search whose chromosomes are lists of
    cells. The initial population is made of random walks; fitness rewards
    valid walks that reach the end cell; offspring are made by cutting two
    parents at independent points, and mutation moves single cells to a
    neighbour of their predecessor. Walkability is `tilemap.HasTile`: the set
    of occupied cells. */
module Genetic {
  import opened Geometry
  import opened Options
  import opened Paths
  import opened Random
  import GridOracle
  import Evolution

  datatype Chromosome = Chromosome(path: seq<Pos>, fitness: real)

  function FitnessOf(c: Chromosome): real
  {
    c.fitness
  }

  /** The FindPath parameters; `Defaults` holds the declared default values. */
  datatype Parameters = Parameters(populationSize: int, maxGenerations: int, mutationRate: real,
                                   elitismCount: int, geneMutationRate: real, tournamentSize: int)

  const Defaults: Parameters := Parameters(50, 100, 0.1, 2, 0.05, 5)

  const MaxPathLengthFactor: nat := 2

  /** The static field `manhattanDistance`, a constant 0.1, which the in-loop
      early return compares a path length against. */
  const ManhattanDistanceField: real := 0.1

  // ------------------------------------------------------------ path helpers

  /** No two neighbouring entries are equal. */
  predicate NoStutter(p: seq<Pos>)
  {
    forall i :: 1 <= i < |p| ==> p[i] != p[i-1]
  }

  /** RemoveConsecutiveDuplicates: the first entry, then every entry that
      differs from the one before it. */
  function RemoveConsecutiveDuplicates(p: seq<Pos>): (r: seq<Pos>)
    ensures |p| <= 1 ==> r == p
    ensures |p| >= 1 ==> |r| >= 1 && r[0] == p[0] && r[|r|-1] == p[|p|-1]
    ensures NoStutter(r) && |r| <= |p|
    ensures forall x :: x in r <==> x in p
  {
    if |p| <= 1 then p
    else
      var front := RemoveConsecutiveDuplicates(p[..|p|-1]);
      assert forall x :: x in p <==> x in p[..|p|-1] || x == p[|p|-1] by {
        assert p == p[..|p|-1] + [p[|p|-1]];
      }
      if p[|p|-1] != p[|p|-2] then front + [p[|p|-1]] else front
  }

  /** The lists RemoveConsecutiveDuplicates leaves alone are exactly those
      without equal neighbours. */
  lemma {:induction false} DedupFixedPoints(p: seq<Pos>)
    ensures RemoveConsecutiveDuplicates(p) == p <==> NoStutter(p)
    decreases |p|
  {
    if |p| > 1 {
      var front := p[..|p|-1];
      DedupFixedPoints(front);
      if NoStutter(p) {
        assert NoStutter(front);
        assert p == front + [p[|p|-1]];
      }
    }
  }

  /** Removing consecutive duplicates twice is the same as once. */
  lemma DedupIdempotent(p: seq<Pos>)
    ensures RemoveConsecutiveDuplicates(RemoveConsecutiveDuplicates(p)) == RemoveConsecutiveDuplicates(p)
  {
    DedupFixedPoints(RemoveConsecutiveDuplicates(p));
  }

  /** AreAdjacent: one coordinate differs by exactly one and the other agrees. */
  function AreAdjacent(a: Pos, b: Pos): (r: bool)
    ensures r <==> Adjacent(a, b)
  {
    var dx := Abs(a.x - b.x);
    var dy := Abs(a.y - b.y);
    (dx == 1 && dy == 0) || (dx == 0 && dy == 1)
  }

  /** The validity loop of CalculateFitness from index `i` on. */
  function ValidFrom(occupied: set<Pos>, path: seq<Pos>, i: nat): (ok: bool)
    requires i >= 1
    ensures ok <==> forall j :: i <= j < |path| ==> path[j] in occupied && AreAdjacent(path[j-1], path[j])
    decreases |path| - i
  {
    if i >= |path| then true
    else path[i] in occupied && AreAdjacent(path[i-1], path[i]) && ValidFrom(occupied, path, i + 1)
  }

  function KeepOccupied(occupied: set<Pos>, q: Pos): seq<Pos>
  {
    if q in occupied then [q] else []
  }

  /** GetWalkableNeighbors as both callers use it (revisits allowed, no
      path to avoid): the occupied cells among the four around `p`, in the
      order right, left, up, down. */
  function GetWalkableNeighbors(occupied: set<Pos>, p: Pos): (ns: seq<Pos>)
    ensures |ns| <= 4
    ensures forall q :: q in ns <==> q in occupied && Adjacent(p, q)
  {
    var cs := Around(p);
    assert forall q :: Adjacent(p, q) <==> q in cs by {
      forall q { AdjacentIffAround(p, q); }
    }
    KeepOccupied(occupied, cs[0]) + (KeepOccupied(occupied, cs[1])
      + (KeepOccupied(occupied, cs[2]) + KeepOccupied(occupied, cs[3])))
  }

  lemma KeepFromStep(occupied: set<Pos>, p: Pos, k: nat)
    requires k < 4
    ensures GridOracle.KeepFrom(occupied, p, k) == KeepOccupied(occupied, Around(p)[k]) + GridOracle.KeepFrom(occupied, p, k + 1)
  {
  }

  /** It lists the same cells in the same order as the grid's neighbour list. */
  lemma SameNeighbors(occupied: set<Pos>, p: Pos)
    ensures GetWalkableNeighbors(occupied, p) == GridOracle.Neighbors(occupied, p)
  {
    var cs := Around(p);
    var k0, k1, k2, k3 := KeepOccupied(occupied, cs[0]), KeepOccupied(occupied, cs[1]),
                          KeepOccupied(occupied, cs[2]), KeepOccupied(occupied, cs[3]);
    KeepFromStep(occupied, p, 0);
    KeepFromStep(occupied, p, 1);
    KeepFromStep(occupied, p, 2);
    KeepFromStep(occupied, p, 3);
    assert GridOracle.KeepFrom(occupied, p, 4) == [];
    assert k3 + [] == k3;
  }

  /** GetWalkableNeighbors followed by a uniform pick among them: no value
      and no draw when the cell has no occupied neighbour. */
  function DrawNeighbor(occupied: set<Pos>, p: Pos, r: Rng): (d: Drawn<Option<Pos>>)
    ensures d.value.Some? ==> d.value.value in occupied && Adjacent(p, d.value.value)
    ensures d.value.None? <==> forall q :: q in occupied ==> !Adjacent(p, q)
    ensures d.value.None? ==> d.next == r
  {
    var ns := GetWalkableNeighbors(occupied, p);
    if |ns| == 0 then Drawn(None, r)
    else
      var k := Between(r, 0, |ns|);
      Drawn(Some(ns[k.value]), k.next)
  }

  // ----------------------------------------------------------------- fitness

  /** The score of a valid walk of `len` cells that reaches an end cell
      `d` steps from the start: 10000 * d / len. */
  function ReachedFitness(d: nat, len: nat): (f: real)
    requires d < len
    ensures 0.0 <= f < 10000.0 && (f > 0.0 <==> d > 0)
  {
    var q := d as real / len as real;
    assert q < 1.0 by {
      assert q * len as real == d as real;
    }
    10000.0 * q
  }

  /** For a fixed distance, a longer walk scores strictly less. */
  lemma ReachedFitnessShorter(d: nat, a: nat, b: nat)
    requires 0 < d < a < b
    ensures ReachedFitness(d, a) > ReachedFitness(d, b)
  {
    var qa, qb := d as real / a as real, d as real / b as real;
    assert qa * a as real == d as real == qb * b as real;
    assert (qa - qb) * a as real == qb * (b - a) as real > 0.0;
    assert qa > qb;
  }

  /** The score of a valid walk that stops `dist` cells short of the end
      after `len` cells: 100 / (1 + dist + len / 10). */
  function StrandedFitness(dist: nat, len: nat): (f: real)
    requires len >= 1
    ensures 0.0 < f < 100.0
  {
    var den := 1.0 + dist as real + len as real * 0.1;
    assert den > 1.0;
    100.0 / den
  }

  /** CalculateFitness, on ideal reals. A path that is empty, does not start
      at the start cell, or has a step into an unoccupied or non-adjacent
      cell scores 0; a valid walk ending at the end cell scores
      ReachedFitness; any other valid walk scores StrandedFitness. */
  function CalculateFitness(path: seq<Pos>, start: Pos, end: Pos, occupied: set<Pos>): (f: real)
    ensures |path| == 0 || path[0] != start || !IsWalk(occupied, path) ==> f == 0.0
    ensures |path| >= 1 && path[0] == start && IsWalk(occupied, path) && path[|path|-1] == end ==>
              0.0 <= f < 10000.0 && (f > 0.0 <==> start != end)
    ensures |path| >= 1 && path[0] == start && IsWalk(occupied, path) && path[|path|-1] != end ==>
              0.0 < f < 100.0
  {
    if |path| == 0 || path[0] != start || !ValidFrom(occupied, path, 1) then 0.0
    else if path[|path|-1] == end then
      WalkSpan(path);
      ReachedFitness(Manhattan(start, end), |path|)
    else
      StrandedFitness(Manhattan(path[|path|-1], end), |path|)
  }

  /** Among valid walks from start to a different end cell, the shorter one
      is strictly fitter. */
  lemma ShorterIsFitter(p: seq<Pos>, q: seq<Pos>, start: Pos, end: Pos, occupied: set<Pos>)
    requires start != end
    requires PathFromTo(occupied, p, start, end) && PathFromTo(occupied, q, start, end)
    requires |p| < |q|
    ensures CalculateFitness(p, start, end, occupied) > CalculateFitness(q, start, end, occupied)
  {
    WalkSpan(p);
    ReachedFitnessShorter(Manhattan(start, end), |p|, |q|);
  }

  /** The early return inside the generation loop needs a non-empty path no
      longer than 0.1 * 1.2 cells, so it can never be taken. */
  lemma EarlyReturnNeverFires(p: seq<Pos>)
    ensures !(|p| > 0 && (|p| as real) <= ManhattanDistanceField * 1.2)
  {
  }

  // ------------------------------------------------------ initial population

  /** initialMaxPathLength: twice the start-end distance, 10 when the two
      coincide, and never below 5. */
  function InitialMaxLength(distance: nat): (n: nat)
    ensures n >= 5
    ensures distance == 0 ==> n == 10
    ensures distance > 0 ==> n == if 2 * distance < 5 then 5 else 2 * distance
  {
    var m := if distance > 0 then distance * MaxPathLengthFactor else 10;
    if m < 5 then 5 else m
  }

  /** Prefixing a cell adjacent to the head of a walk gives a walk. */
  lemma WalkCons(occupied: set<Pos>, cur: Pos, w: seq<Pos>)
    requires IsWalk(occupied, w) && w[0] in occupied && Adjacent(cur, w[0])
    ensures IsWalk(occupied, [cur] + w)
  {
    var v := [cur] + w;
    forall i | 2 <= i < |v| ensures v[i] in occupied && Adjacent(v[i-1], v[i]) {
      assert v[i] == w[i-1] && v[i-1] == w[i-2];
    }
  }

  /** The random-walk loop of InitializePopulation after the cell `cur`: at
      most `steps` more cells, each an occupied neighbour of the one before;
      it stops on the end cell once the walk has moved (`moved`), and at a
      cell without occupied neighbours. */
  function RandomWalk(occupied: set<Pos>, end: Pos, cur: Pos, moved: bool, steps: nat, r: Rng): (d: Drawn<seq<Pos>>)
    ensures |d.value| <= steps
    ensures IsWalk(occupied, [cur] + d.value)
    ensures forall i :: 0 <= i < |d.value| - 1 ==> d.value[i] != end
    ensures moved && cur == end ==> d.value == []
    decreases steps
  {
    if steps == 0 || (cur == end && moved) then Drawn([], r)
    else
      var n := DrawNeighbor(occupied, cur, r);
      if n.value.None? then Drawn([], r)
      else
        var rest := RandomWalk(occupied, end, n.value.value, true, steps - 1, n.next);
        WalkCons(occupied, cur, [n.value.value] + rest.value);
        Drawn([n.value.value] + rest.value, rest.next)
  }

  /** One chromosome of the initial population. */
  function InitialWalk(occupied: set<Pos>, start: Pos, end: Pos, r: Rng): (d: Drawn<seq<Pos>>)
    ensures PathStarting(occupied, d.value, start)
    ensures |d.value| <= InitialMaxLength(Manhattan(start, end))
    ensures StopsAtEnd(d.value, end)
  {
    var w := RandomWalk(occupied, end, start, false, InitialMaxLength(Manhattan(start, end)) - 1, r);
    Drawn([start] + w.value, w.next)
  }

  /** A walk through occupied cells that begins at `start`. */
  predicate PathStarting(occupied: set<Pos>, p: seq<Pos>, start: Pos)
  {
    IsWalk(occupied, p) && p[0] == start
  }

  /** InitializePopulation: `count` random walks, unscored. */
  function InitializePopulation(occupied: set<Pos>, start: Pos, end: Pos, count: nat, r: Rng): (d: Drawn<seq<Chromosome>>)
    ensures |d.value| == count
    ensures forall i :: 0 <= i < count ==>
              PathStarting(occupied, d.value[i].path, start) && d.value[i].fitness == 0.0
              && |d.value[i].path| <= InitialMaxLength(Manhattan(start, end))
    decreases count
  {
    if count == 0 then Drawn([], r)
    else
      var first := InitialWalk(occupied, start, end, r);
      var rest := InitializePopulation(occupied, start, end, count - 1, first.next);
      Drawn([Chromosome(first.value, 0.0)] + rest.value, rest.next)
  }

  /** Every initial walk passes the validity test of CalculateFitness, so
      it scores above zero unless it ends on the end cell and that cell is
      the start. */
  lemma InitialWalksScore(occupied: set<Pos>, start: Pos, end: Pos, r: Rng)
    ensures var p := InitialWalk(occupied, start, end, r).value;
            CalculateFitness(p, start, end, occupied) > 0.0 <==> start != end || p[|p|-1] != end
  {
  }

  // --------------------------------------------------------------- operators

  /** SelectParent: `picks` are the drawn indices; the result is a copy of
      the first drawn chromosome of greatest fitness. */
  method SelectParent(pop: seq<Chromosome>, size: nat, r: Rng) returns (j: nat, parent: Chromosome, next: Rng)
    requires |pop| > 0 && size >= 1
    ensures var picks := Draws(r, |pop|, size).value;
            Evolution.FirstFittest(pop, FitnessOf, picks, j) && parent == pop[picks[j]]
    ensures parent in pop
    ensures next == Draws(r, |pop|, size).next
  {
    var picks := Draws(r, |pop|, size);
    j := Evolution.Tournament(pop, FitnessOf, picks.value);
    parent := pop[picks.value[j]];
    next := picks.next;
  }

  /** One child of a crossover: the head of `x` before cut `c` joined to the
      tail of `y` from cut `d`, with consecutive repeats removed. It runs from
      `x`'s first cell to `y`'s last and holds exactly the cells of the two
      pieces. */
  function Splice(x: seq<Pos>, y: seq<Pos>, c: int, d: int): (r: seq<Pos>)
    requires 1 <= c < |x| && 1 <= d < |y|
    ensures |r| >= 1 && r[0] == x[0] && r[|r|-1] == y[|y|-1]
    ensures NoStutter(r) && |r| <= c + |y| - d
    ensures forall v :: v in r <==> v in x[..c] || v in y[d..]
  {
    var joined := x[..c] + y[d..];
    assert joined[0] == x[0] && joined[|joined|-1] == y[|y|-1];
    assert forall v :: v in joined <==> v in x[..c] || v in y[d..];
    RemoveConsecutiveDuplicates(joined)
  }

  /** Crossover at the cut points `c1` and `c2`. Parents of at most one cell
      are copied; otherwise each offspring is its own parent's head up to
      its cut followed by the other parent's tail from the other cut, with
      consecutive duplicates removed, and starts unscored. */
  function Cross(p1: Chromosome, p2: Chromosome, c1: int, c2: int): (o: (Chromosome, Chromosome))
    requires |p1.path| > 1 && |p2.path| > 1 ==> 1 <= c1 < |p1.path| && 1 <= c2 < |p2.path|
    ensures |p1.path| <= 1 || |p2.path| <= 1 ==> o == (p1, p2)
    ensures |p1.path| > 1 && |p2.path| > 1 ==>
              && o.0.fitness == 0.0 && o.1.fitness == 0.0
              && NoStutter(o.0.path) && NoStutter(o.1.path)
              && |o.0.path| >= 1 && o.0.path[0] == p1.path[0] && o.0.path[|o.0.path|-1] == p2.path[|p2.path|-1]
              && |o.1.path| >= 1 && o.1.path[0] == p2.path[0] && o.1.path[|o.1.path|-1] == p1.path[|p1.path|-1]
              && |o.0.path| <= c1 + |p2.path| - c2 && |o.1.path| <= c2 + |p1.path| - c1
              && (forall x :: x in o.0.path <==> x in p1.path[..c1] || x in p2.path[c2..])
              && (forall x :: x in o.1.path <==> x in p2.path[..c2] || x in p1.path[c1..])
  {
    if |p1.path| <= 1 || |p2.path| <= 1 then (p1, p2)
    else (Chromosome(Splice(p1.path, p2.path, c1, c2), 0.0), Chromosome(Splice(p2.path, p1.path, c2, c1), 0.0))
  }

  /** Crossover: the cut points are drawn only when both parents have more
      than one cell. */
  function Crossover(p1: Chromosome, p2: Chromosome, r: Rng): (d: Drawn<(Chromosome, Chromosome)>)
    ensures |p1.path| >= 1 ==> |d.value.0.path| >= 1 && d.value.0.path[0] == p1.path[0]
    ensures |p2.path| >= 1 ==> |d.value.1.path| >= 1 && d.value.1.path[0] == p2.path[0]
  {
    if |p1.path| <= 1 || |p2.path| <= 1 then Drawn((p1, p2), r)
    else
      var c1 := Between(r, 1, |p1.path|);
      var c2 := Between(c1.next, 1, |p2.path|);
      Drawn(Cross(p1, p2, c1.value, c2.value), c2.next)
  }

  /** maxAllowedLength: four times the start-end distance, or 20 when the two
      coincide. */
  function MaxAllowedLength(distance: nat): (n: nat)
    ensures n >= 4
    ensures distance == 0 ==> n == 20
    ensures distance > 0 ==> n == 4 * distance
  {
    if distance > 0 then distance * (MaxPathLengthFactor + 2) else 20
  }

  /** `m` is `orig` with some cells after the first replaced, each by an
      occupied neighbour of the cell before it in `m`. */
  predicate Perturbed(occupied: set<Pos>, orig: seq<Pos>, m: seq<Pos>)
  {
    && |m| == |orig| >= 1 && m[0] == orig[0]
    && forall j :: 1 <= j < |m| ==> m[j] == orig[j] || (m[j] in occupied && Adjacent(m[j-1], m[j]))
  }

  lemma PerturbedCons(occupied: set<Pos>, prev: Pos, cell: Pos, rest: seq<Pos>, tail: seq<Pos>)
    requires |rest| >= 1 && (cell == rest[0] || (cell in occupied && Adjacent(prev, cell)))
    requires Perturbed(occupied, [cell] + rest[1..], [cell] + tail)
    ensures Perturbed(occupied, [prev] + rest, [prev] + ([cell] + tail))
  {
    var orig, m := [prev] + rest, [prev] + ([cell] + tail);
    var orig', m' := [cell] + rest[1..], [cell] + tail;
    forall j | 2 <= j < |m| ensures m[j] == orig[j] || (m[j] in occupied && Adjacent(m[j-1], m[j])) {
      assert m[j] == m'[j-1] && m[j-1] == m'[j-2] && orig[j] == orig'[j-1];
    }
  }

  /** A prefix of a perturbed list is a perturbed prefix. */
  lemma PerturbedPrefix(occupied: set<Pos>, orig: seq<Pos>, m: seq<Pos>, k: nat)
    requires Perturbed(occupied, orig, m) && 1 <= k <= |m|
    ensures Perturbed(occupied, orig[..k], m[..k])
  {
    forall j | 1 <= j < k ensures m[..k][j] == orig[..k][j] || (m[..k][j] in occupied && Adjacent(m[..k][j-1], m[..k][j])) {
      assert m[..k][j] == m[j] && m[..k][j-1] == m[j-1] && orig[..k][j] == orig[j];
    }
  }

  /** The per-cell loop of Mutate after the cell `prev`, which is the cell
      before `rest[0]` as the loop has already left it: each cell whose coin
      falls below the gene rate is replaced by a drawn occupied neighbour of
      its predecessor, when that has any. */
  function MutateRest(occupied: set<Pos>, geneRate: real, prev: Pos, rest: seq<Pos>, r: Rng): (d: Drawn<seq<Pos>>)
    ensures Perturbed(occupied, [prev] + rest, [prev] + d.value)
    decreases |rest|
  {
    if rest == [] then Drawn([], r)
    else
      var coin := UnitInterval(r);
      var n := if coin.value < geneRate then DrawNeighbor(occupied, prev, coin.next) else Drawn(None, coin.next);
      var cell := if n.value.Some? then n.value.value else rest[0];
      var tail := MutateRest(occupied, geneRate, cell, rest[1..], n.next);
      PerturbedCons(occupied, prev, cell, rest, tail.value);
      Drawn([cell] + tail.value, tail.next)
  }

  /** With a gene rate of zero or less no coin falls below it: the loop
      leaves every cell as it is. */
  lemma {:induction false} MutateRestIdle(occupied: set<Pos>, geneRate: real, prev: Pos, rest: seq<Pos>, r: Rng)
    requires geneRate <= 0.0
    ensures MutateRest(occupied, geneRate, prev, rest, r).value == rest
    decreases |rest|
  {
    if rest != [] {
      MutateRestIdle(occupied, geneRate, rest[0], rest[1..], UnitInterval(r).next);
      assert rest == [rest[0]] + rest[1..];
    }
  }

  /** The whole per-cell loop: the first cell is never touched. */
  function MutateCells(occupied: set<Pos>, geneRate: real, path: seq<Pos>, r: Rng): (d: Drawn<seq<Pos>>)
    requires |path| >= 1
    ensures Perturbed(occupied, path, d.value)
  {
    var rest := MutateRest(occupied, geneRate, path[0], path[1..], r);
    assert path == [path[0]] + path[1..];
    Drawn([path[0]] + rest.value, rest.next)
  }

  function Trim(p: seq<Pos>, n: nat): (t: seq<Pos>)
    ensures |t| == (if |p| <= n then |p| else n) && t == p[..|t|]
  {
    if |p| > n then p[..n] else p
  }

  /** Mutate as the source writes it. When the start cell has to be put back
      in front, the chromosome receives the de-duplicated copy, and the trim
      that follows shortens the list the chromosome no longer holds. */
  function MutateAsWritten(c: Chromosome, start: Pos, end: Pos, occupied: set<Pos>,
                           rate: real, geneRate: real, r: Rng): (d: Drawn<Chromosome>)
    ensures d.value.fitness == c.fitness
    ensures |c.path| >= 1 && c.path[0] == start ==> d.value == Mutate(c, start, end, occupied, rate, geneRate, r).value
  {
    var coin := UnitInterval(r);
    if coin.value > rate || |c.path| <= 1 then Drawn(c, coin.next)
    else
      var m := MutateCells(occupied, geneRate, c.path, coin.next);
      if m.value[0] != start then
        Drawn(Chromosome(RemoveConsecutiveDuplicates([start] + m.value), c.fitness), m.next)
      else
        Drawn(Chromosome(Trim(m.value, MaxAllowedLength(Manhattan(start, end))), c.fitness), m.next)
  }

  /** Mutate with the trim applied to the chromosome's own path. A mutated
      chromosome begins at the start cell and is no longer than the cap;
      every cell after the first is either the cell that was there or an
      occupied neighbour of the cell before it. */
  function Mutate(c: Chromosome, start: Pos, end: Pos, occupied: set<Pos>,
                  rate: real, geneRate: real, r: Rng): (d: Drawn<Chromosome>)
    ensures d.value.fitness == c.fitness
    ensures d.value == c || (|d.value.path| >= 1 && d.value.path[0] == start
                             && |d.value.path| <= MaxAllowedLength(Manhattan(start, end)))
    ensures |c.path| >= 1 && c.path[0] == start ==>
              |d.value.path| <= |c.path| && Perturbed(occupied, c.path[..|d.value.path|], d.value.path)
  {
    var coin := UnitInterval(r);
    if coin.value > rate || |c.path| <= 1 then
      assert c.path[..|c.path|] == c.path;
      Drawn(c, coin.next)
    else
      var m := MutateCells(occupied, geneRate, c.path, coin.next);
      var cap := MaxAllowedLength(Manhattan(start, end));
      var p := if m.value[0] != start then RemoveConsecutiveDuplicates([start] + m.value) else m.value;
      var t := Trim(p, cap);
      assert m.value[0] == start ==> Perturbed(occupied, c.path[..|t|], t) by {
        if m.value[0] == start {
          PerturbedPrefix(occupied, c.path, m.value, |t|);
        }
      }
      Drawn(Chromosome(t, c.fitness), m.next)
  }


  /** As written, a mutated chromosome can stay longer than the cap: a
      22-cell straight walk that does not begin at the start cell, mutated
      with every coin at zero and a gene rate of zero, comes back with the
      start cell in front and 23 cells, three over the cap of 20. */
  lemma MutateAsWrittenSkipsTrim()
    ensures var start := Pos(0, 0);
            var c := Chromosome(seq(22, i => Pos(i + 1, 0)), 0.0);
            var d := MutateAsWritten(c, start, start, {}, 0.1, 0.0, Rng(i => 0, 0));
            d.value != c && |d.value.path| == 23 > MaxAllowedLength(Manhattan(start, start))
  {
    var start := Pos(0, 0);
    var p := seq(22, i => Pos(i + 1, 0));
    var c := Chromosome(p, 0.0);
    var r := Rng(i => 0, 0);
    var coin := UnitInterval(r);
    assert coin.value == 0.0;
    MutateRestIdle({}, 0.0, p[0], p[1..], coin.next);
    assert p == [p[0]] + p[1..];
    var q := [start] + p;
    assert NoStutter(q) by {
      forall i | 1 <= i < |q| ensures q[i] != q[i-1] {
        assert q[i] == Pos(i, 0) && q[i-1] == Pos(i - 1, 0);
      }
    }
    DedupFixedPoints(q);
  }

  // ------------------------------------------------------------- final path

  /** The end cell occurs nowhere after the first cell except perhaps last. */
  predicate StopsAtEnd(p: seq<Pos>, end: Pos)
  {
    forall i :: 1 <= i < |p| - 1 ==> p[i] != end
  }

  /** A path the final clean-up leaves as it is. */
  predicate Clean(occupied: set<Pos>, p: seq<Pos>, start: Pos, end: Pos)
  {
    |p| >= 1 && PathStarting(occupied, p, start) && NoStutter(p) && StopsAtEnd(p, end)
  }

  /** The validation loop of ValidateAndCleanFinalPath: start from the start
      cell, then keep every later cell that differs from the last kept one,
      is occupied and adjacent to it, and stop once the end cell is kept.
      The first entry of the list is never looked at: it is either the start
      cell or dropped. */
  method KeepValid(path: seq<Pos>, start: Pos, end: Pos, occupied: set<Pos>) returns (kept: seq<Pos>)
    requires |path| >= 1
    ensures PathStarting(occupied, kept, start) && NoStutter(kept) && StopsAtEnd(kept, end)
    ensures forall j :: 1 <= j < |kept| ==> kept[j] in path
    ensures |kept| <= |path|
    ensures Clean(occupied, path, start, end) ==> kept == path
  {
    var clean := Clean(occupied, path, start, end);
    kept := [start];
    var i := 1;
    while i < |path| && !(|kept| > 1 && kept[|kept|-1] == end)
      invariant 1 <= i <= |path|
      invariant PathStarting(occupied, kept, start) && NoStutter(kept) && |kept| <= i
      invariant StopsAtEnd(kept, end)
      invariant forall j :: 1 <= j < |kept| ==> kept[j] in path
      invariant clean ==> kept == path[..i]
    {
      var next, current := path[i], kept[|kept|-1];
      if next != current && next in occupied && AreAdjacent(current, next) {
        kept := kept + [next];
      }
      i := i + 1;
    }
    assert clean ==> i == |path|;
  }

  /** ValidateAndCleanFinalPath: the start cell alone for an empty list,
      otherwise the validation loop followed by RemoveConsecutiveDuplicates,
      which then has nothing left to remove. */
  method ValidateAndCleanFinalPath(path: seq<Pos>, start: Pos, end: Pos, occupied: set<Pos>) returns (out: seq<Pos>)
    ensures |path| == 0 ==> out == [start]
    ensures PathStarting(occupied, out, start) && NoStutter(out) && StopsAtEnd(out, end)
    ensures forall i :: 1 <= i < |out| ==> out[i] in path
    ensures |out| <= |path| + 1
    ensures Clean(occupied, path, start, end) ==> out == path
  {
    if |path| == 0 {
      return [start];
    }
    var kept := KeepValid(path, start, end, occupied);
    DedupFixedPoints(kept);
    out := RemoveConsecutiveDuplicates(kept);
  }

  // ---------------------------------------------------------- the evolution

  /** The population discipline of the generation loop: every chromosome is
      a non-empty list that begins at the start cell. */
  predicate Anchored(pop: seq<Chromosome>, start: Pos)
  {
    forall i :: 0 <= i < |pop| ==> StartsAt(pop[i], start)
  }

  predicate StartsAt(c: Chromosome, start: Pos)
  {
    |c.path| >= 1 && c.path[0] == start
  }

  /** The fitness pass and OrderByDescending. */
  method Evaluate(pop: seq<Chromosome>, start: Pos, end: Pos, occupied: set<Pos>) returns (sorted: seq<Chromosome>)
    requires Anchored(pop, start)
    ensures |sorted| == |pop| && Anchored(sorted, start)
    ensures Evolution.Descending(sorted, FitnessOf)
    ensures forall i :: 0 <= i < |sorted| ==> sorted[i].fitness == CalculateFitness(sorted[i].path, start, end, occupied)
  {
    var scored := seq(|pop|, i requires 0 <= i < |pop| => Chromosome(pop[i].path, CalculateFitness(pop[i].path, start, end, occupied)));
    sorted := Evolution.SortDescending(scored, FitnessOf);
    Evolution.SortedMembers(scored, FitnessOf);
    forall i | 0 <= i < |sorted|
      ensures |sorted[i].path| >= 1 && sorted[i].path[0] == start
      ensures sorted[i].fitness == CalculateFitness(sorted[i].path, start, end, occupied)
    {
      assert sorted[i] in scored;
    }
  }

  /** One pass of the filling loop: two tournament winners, crossed over,
      both mutated. */
  method Offspring(sorted: seq<Chromosome>, start: Pos, end: Pos, occupied: set<Pos>, params: Parameters, r0: Rng)
    returns (o1: Chromosome, o2: Chromosome, r: Rng)
    requires |sorted| > 0 && Anchored(sorted, start) && params.tournamentSize >= 1
    ensures StartsAt(o1, start) && StartsAt(o2, start)
  {
    var j1, parent1, j2, parent2;
    j1, parent1, r := SelectParent(sorted, params.tournamentSize, r0);
    j2, parent2, r := SelectParent(sorted, params.tournamentSize, r);
    var cross := Crossover(parent1, parent2, r);
    var m1 := MutateAsWritten(cross.value.0, start, end, occupied, params.mutationRate, params.geneMutationRate, cross.next);
    var m2 := MutateAsWritten(cross.value.1, start, end, occupied, params.mutationRate, params.geneMutationRate, m1.next);
    // The children start where their parents do, so the mutation as written
    // agrees with the corrected one, which keeps the start.
    assert m1.value == Mutate(cross.value.0, start, end, occupied, params.mutationRate, params.geneMutationRate, cross.next).value;
    assert m2.value == Mutate(cross.value.1, start, end, occupied, params.mutationRate, params.geneMutationRate, m1.next).value;
    o1, o2, r := m1.value, m2.value, m2.next;
  }

  /** Elitism and the filling loop: copies of the first `elitismCount`
      sorted chromosomes (fitness included), then offspring until the
      population has `populationSize` members again. */
  method NextGeneration(sorted: seq<Chromosome>, start: Pos, end: Pos, occupied: set<Pos>, params: Parameters, r0: Rng)
    returns (pop: seq<Chromosome>, r: Rng)
    requires |sorted| == params.populationSize > 0 && Anchored(sorted, start) && params.tournamentSize >= 1
    ensures |pop| == params.populationSize && Anchored(pop, start)
    ensures forall i :: 0 <= i < params.elitismCount && i < |pop| ==> pop[i] == sorted[i]
  {
    pop := [];
    var e := 0;
    while e < params.elitismCount && e < |sorted|
      invariant 0 <= e <= |sorted| && |pop| == e
      invariant forall i :: 0 <= i < e ==> pop[i] == sorted[i]
    {
      pop := pop + [sorted[e]];
      e := e + 1;
    }
    r := r0;
    while |pop| < params.populationSize
      invariant |pop| <= params.populationSize && Anchored(pop, start)
      invariant forall i :: 0 <= i < params.elitismCount && i < |pop| ==> pop[i] == sorted[i]
      decreases params.populationSize - |pop|
    {
      var o1, o2;
      o1, o2, r := Offspring(sorted, start, end, occupied, params, r);
      pop := pop + [o1];
      if |pop| < params.populationSize {
        pop := pop + [o2];
      }
    }
  }

  /** Genetic.FindPath. The in-loop early return is left out: it can never
      be taken (EarlyReturnNeverFires). After the last generation the
      population, with the fitness values it carries, is sorted once more, and
      its first path is cleaned and returned if its fitness exceeds 0.01. */
  method FindPath(start: Pos, end: Pos, occupied: set<Pos>, params: Parameters, rng: Rng) returns (result: Option<seq<Pos>>)
    requires params.tournamentSize >= 1
    ensures start !in occupied || end !in occupied || params.populationSize <= 0 ==> result == None
    ensures params.maxGenerations <= 0 ==> result == None
    ensures result.Some? ==>
              PathStarting(occupied, result.value, start) && NoStutter(result.value) && StopsAtEnd(result.value, end)
  {
    if start !in occupied || end !in occupied || params.populationSize <= 0 {
      return None;
    }
    var init := InitializePopulation(occupied, start, end, params.populationSize, rng);
    var population := init.value;
    var r := init.next;
    var gen := 0;
    while gen < params.maxGenerations
      invariant |population| == params.populationSize && Anchored(population, start)
      invariant 0 <= gen && (params.maxGenerations <= 0 ==> gen == 0)
      invariant gen == 0 ==> forall i :: 0 <= i < |population| ==> population[i].fitness == 0.0
    {
      var sorted := Evaluate(population, start, end, occupied);
      population, r := NextGeneration(sorted, start, end, occupied, params, r);
      gen := gen + 1;
    }
    var sorted := Evolution.SortDescending(population, FitnessOf);
    Evolution.SortedMembers(population, FitnessOf);
    assert sorted[0] in population;
    if sorted[0].fitness > 0.01 {
      var p := ValidateAndCleanFinalPath(sorted[0].path, start, end, occupied);
      result := Some(p);
    } else {
      result := None;
    }
  }
}
