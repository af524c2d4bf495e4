/** Algorithms/Geneticv2.cs: a genetic search whose chromosomes are fixed-length
    sequences of moves. A chromosome is decoded by walking from the start cell
    until a move leaves the occupied cells or the end cell is reached, and is
    scored from the decoded walk. Each generation keeps the two fittest
    chromosomes and breeds the rest by tournament selection, single-point
    crossover and per-gene mutation. Walkability here is `tilemap.HasTile`:
    the set of occupied cells, obstacles included. */
module Geneticv2 {
  import opened Geometry
  import opened Options
  import opened Paths
  import opened Random
  import Evolution

  /** The Move enum; `MoveNone` is the neutral gene that decoding skips. */
  datatype Move = MoveUp | MoveDown | MoveLeft | MoveRight | MoveNone

  const PopulationSize: nat := 100
  const MaxGenerations: nat := 200
  const CrossoverRate: real := 0.8
  const MutationRate: real := 0.1
  const TournamentSize: nat := 5
  const ElitismCount: nat := 2

  /** validMoves: every move except the neutral one, in enum order. */
  const ValidMoves: seq<Move> := [MoveUp, MoveDown, MoveLeft, MoveRight]

  /** moveVectors. */
  function MoveVector(m: Move): Pos
  {
    match m
    case MoveUp => Up
    case MoveDown => Down
    case MoveLeft => Left
    case MoveRight => Right
    case MoveNone => Pos(0, 0)
  }

  /** The cell one move away: a neighbour of `p` for every move but the
      neutral one, which stays put. */
  function Step(p: Pos, m: Move): (q: Pos)
    ensures m != MoveNone <==> Adjacent(p, q)
    ensures m == MoveNone <==> q == p
  {
    Add(p, MoveVector(m))
  }

  /** Different moves from the same cell lead to different cells. */
  lemma StepInjective(p: Pos, a: Move, b: Move)
    ensures Step(p, a) == Step(p, b) <==> a == b
  {
  }

  /** A chromosome of length `n` that holds no neutral gene. */
  predicate Shaped(genes: seq<Move>, n: nat)
  {
    |genes| == n && forall i :: 0 <= i < |genes| ==> genes[i] != MoveNone
  }

  datatype Individual = Individual(genes: seq<Move>, fitness: real, path: seq<Pos>, reached: bool)

  function FitnessOf(ind: Individual): real
  {
    ind.fitness
  }

  /** The offspring constructor: the genes, no score and an empty path. */
  function Unscored(genes: seq<Move>): Individual
  {
    Individual(genes, 0.0, [], false)
  }

  // ---------------------------------------------------------------- decoding

  /** What DecodeAndEvaluate's loop produces: the decoded cells, whether the
      end was reached, and how many steps landed on a cell already visited. */
  datatype Decoded = Decoded(path: seq<Pos>, reached: bool, hits: nat)

  /** The decoding loop from cell `cur` over the remaining genes, with the
      cells visited so far; `path` holds only the cells added from here on. */
  function Walk(occupied: set<Pos>, end: Pos, genes: seq<Move>, cur: Pos, visited: set<Pos>): (w: Decoded)
    ensures |w.path| <= |genes| && w.hits <= |w.path|
    ensures forall i :: 0 <= i < |w.path| ==> w.path[i] in occupied
    ensures |w.path| > 0 ==> Adjacent(cur, w.path[0])
    ensures forall i :: 1 <= i < |w.path| ==> Adjacent(w.path[i-1], w.path[i])
    ensures w.reached <==> |w.path| > 0 && w.path[|w.path|-1] == end
    ensures forall i :: 0 <= i < |w.path| - 1 ==> w.path[i] != end
    decreases |genes|
  {
    if genes == [] then Decoded([], false, 0)
    else if genes[0] == MoveNone then Walk(occupied, end, genes[1..], cur, visited)
    else
      var next := Step(cur, genes[0]);
      if next !in occupied then Decoded([], false, 0)
      else
        var hit := if next in visited then 1 else 0;
        if next == end then Decoded([next], true, hit)
        else
          var w := Walk(occupied, end, genes[1..], next, visited + {next});
          Decoded([next] + w.path, w.reached, hit + w.hits)
  }

  /** The path-building half of DecodeAndEvaluate. */
  function Decode(occupied: set<Pos>, start: Pos, end: Pos, genes: seq<Move>): (d: Decoded)
    ensures IsWalk(occupied, d.path) && d.path[0] == start
    ensures |d.path| <= |genes| + 1 && d.hits < |d.path|
    ensures d.reached <==> |d.path| > 1 && d.path[|d.path|-1] == end
    ensures forall i :: 1 <= i < |d.path| - 1 ==> d.path[i] != end
  {
    var w := Walk(occupied, end, genes, start, {start});
    Decoded([start] + w.path, w.reached, w.hits)
  }

  /** The genes decoding acts on: the non-neutral ones, in order. */
  function Moves(genes: seq<Move>): (ms: seq<Move>)
    ensures |ms| <= |genes|
    ensures forall i :: 0 <= i < |ms| ==> ms[i] != MoveNone
  {
    if genes == [] then []
    else if genes[0] == MoveNone then Moves(genes[1..])
    else [genes[0]] + Moves(genes[1..])
  }

  /** The cells reached by making the moves `ms` from `p`, ignoring walls. */
  function Trajectory(p: Pos, ms: seq<Move>): (t: seq<Pos>)
    ensures |t| == |ms|
    decreases |ms|
  {
    if ms == [] then []
    else
      var q := Step(p, ms[0]);
      [q] + Trajectory(q, ms[1..])
  }

  /** The decoding loop follows the unobstructed trajectory of the
      non-neutral genes, and stops early only on leaving the occupied cells
      or on reaching the end. */
  lemma {:induction false} WalkFollows(occupied: set<Pos>, end: Pos, genes: seq<Move>, cur: Pos, visited: set<Pos>)
    ensures var w := Walk(occupied, end, genes, cur, visited);
            var t := Trajectory(cur, Moves(genes));
            && |w.path| <= |t| && w.path == t[..|w.path|]
            && (|w.path| < |t| ==> w.reached || t[|w.path|] !in occupied)
    decreases |genes|
  {
    if genes != [] {
      var rest := genes[1..];
      if genes[0] == MoveNone {
        WalkFollows(occupied, end, rest, cur, visited);
      } else {
        var next := Step(cur, genes[0]);
        assert Moves(genes) == [genes[0]] + Moves(rest);
        var t := Trajectory(cur, Moves(genes));
        assert t == [next] + Trajectory(next, Moves(rest));
        if next !in occupied {
          assert Walk(occupied, end, genes, cur, visited).path == [];
        } else if next == end {
          assert Walk(occupied, end, genes, cur, visited).path == [next] == t[..1];
        } else {
          var v := visited + {next};
          WalkFollows(occupied, end, rest, next, v);
          var w' := Walk(occupied, end, rest, next, v);
          var t' := Trajectory(next, Moves(rest));
          assert Walk(occupied, end, genes, cur, visited).path == [next] + w'.path;
          assert t[..|w'.path| + 1] == [next] + t'[..|w'.path|];
        }
      }
    }
  }

  /** Decoding, characterised without the loop: the decoded cells are the
      first `k` cells of the trajectory of the non-neutral genes, all
      occupied, and decoding went on until the genes ran out, a move left
      the occupied cells, or the end was reached. */
  lemma DecodeFollows(occupied: set<Pos>, start: Pos, end: Pos, genes: seq<Move>)
    ensures var d := Decode(occupied, start, end, genes);
            var t := Trajectory(start, Moves(genes));
            var k := |d.path| - 1;
            && k <= |t| && d.path == [start] + t[..k]
            && (forall j :: 0 <= j < k ==> t[j] in occupied)
            && (forall j :: 0 <= j < k - 1 ==> t[j] != end)
            && (k < |t| ==> (k > 0 && t[k-1] == end) || t[k] !in occupied)
  {
    WalkFollows(occupied, end, genes, start, {start});
    var w := Walk(occupied, end, genes, start, {start});
    var t := Trajectory(start, Moves(genes));
    var k := |w.path|;
    assert Decode(occupied, start, end, genes).path == [start] + w.path;
    forall j | 0 <= j < k ensures t[j] in occupied && (j < k - 1 ==> t[j] != end) {
      assert t[j] == w.path[j];
    }
    if k > 0 {
      assert t[k - 1] == w.path[k - 1];
    }
  }

  /** No cell of `p` lies in `visited` and none is listed twice. */
  predicate Unvisited(visited: set<Pos>, p: seq<Pos>)
  {
    && (forall i :: 0 <= i < |p| ==> p[i] !in visited)
    && (forall i, j :: 0 <= i < j < |p| ==> p[i] != p[j])
  }

  lemma UnvisitedCons(visited: set<Pos>, next: Pos, q: seq<Pos>)
    ensures Unvisited(visited, [next] + q) <==> next !in visited && Unvisited(visited + {next}, q)
  {
    var p := [next] + q;
    if Unvisited(visited, p) {
      assert next == p[0];
      forall i | 0 <= i < |q| ensures q[i] !in visited + {next} {
        assert q[i] == p[i + 1];
      }
      forall i, j | 0 <= i < j < |q| ensures q[i] != q[j] {
        assert q[i] == p[i + 1] && q[j] == p[j + 1];
      }
    }
    if next !in visited && Unvisited(visited + {next}, q) {
      forall i | 0 <= i < |p| ensures p[i] !in visited {
        if i > 0 { assert p[i] == q[i - 1]; }
      }
      forall i, j | 0 <= i < j < |p| ensures p[i] != p[j] {
        assert p[j] == q[j - 1];
        if i > 0 { assert p[i] == q[i - 1]; }
      }
    }
  }

  /** The loop counts a self-intersection exactly when a step lands on a
      cell visited before (a cell of `visited` or an earlier step's). */
  lemma {:induction false} WalkHits(occupied: set<Pos>, end: Pos, genes: seq<Move>, cur: Pos, visited: set<Pos>)
    ensures var w := Walk(occupied, end, genes, cur, visited);
            w.hits == 0 <==> Unvisited(visited, w.path)
    decreases |genes|
  {
    if genes != [] {
      var rest := genes[1..];
      if genes[0] == MoveNone {
        WalkHits(occupied, end, rest, cur, visited);
      } else {
        var next := Step(cur, genes[0]);
        if next in occupied && next != end {
          var v := visited + {next};
          WalkHits(occupied, end, rest, next, v);
          UnvisitedCons(visited, next, Walk(occupied, end, rest, next, v).path);
        } else if next in occupied {
          UnvisitedCons(visited, next, []);
        }
      }
    }
  }

  /** A decoded walk is penalised for self-intersection exactly when it
      lists some cell twice. */
  lemma DecodeHits(occupied: set<Pos>, start: Pos, end: Pos, genes: seq<Move>)
    ensures var d := Decode(occupied, start, end, genes);
            d.hits == 0 <==> Simple(d.path)
  {
    WalkHits(occupied, end, genes, start, {start});
    var w := Walk(occupied, end, genes, start, {start});
    UnvisitedCons({}, start, w.path);
    assert {} + {start} == {start};
  }

  // ----------------------------------------------------------------- scoring

  /** The scoring half of DecodeAndEvaluate, on ideal reals: 10000 minus 10
      per cell for a walk that reached the end, 1 / (1 + remaining distance)
      otherwise; minus 0.1 (reached) or 1 (not reached) per
      self-intersection; a tenth for a failed walk that never moved; never
      below zero. */
  function Score(d: Decoded, end: Pos): (f: real)
    requires |d.path| >= 1
    ensures f >= 0.0
    ensures !d.reached ==> f <= 1.0
    ensures d.reached && d.hits == 0 && |d.path| < 1000 ==> f == 10000.0 - 10.0 * |d.path| as real
  {
    var last := d.path[|d.path| - 1];
    var base := if d.reached then 10000.0 - 10.0 * |d.path| as real
                else 1.0 / (1.0 + Manhattan(last, end) as real);
    var penalised := base - d.hits as real * (if d.reached then 0.1 else 1.0);
    var f := if |d.path| < 2 && !d.reached then penalised * 0.1 else penalised;
    if f < 0.0 then 0.0 else f
  }

  /** A walk that reached the end in fewer than 990 cells outscores every walk
      that did not, and among walks that reached the end without
      self-intersection the shorter one scores strictly higher. */
  lemma ScoreOrder(a: Decoded, b: Decoded, end: Pos)
    requires |a.path| >= 1 && |b.path| >= 1
    ensures a.reached && |a.path| < 990 && a.hits < |a.path| && !b.reached ==> Score(a, end) > Score(b, end)
    ensures a.reached && b.reached && a.hits == 0 && b.hits == 0 && |a.path| < |b.path| < 1000 ==>
              Score(a, end) > Score(b, end)
  {
  }

  /** DecodeAndEvaluate: the individual keeps its genes and carries a walk
      over free cells from the start, marked as reaching the end exactly when
      it moved and stops there; its fitness is never negative, at most 1 for
      a walk that fell short, and above 1 for a walk of fewer than 990 cells
      that reached the end. */
  function Evaluate(occupied: set<Pos>, start: Pos, end: Pos, genes: seq<Move>): (ind: Individual)
    ensures ind.genes == genes
    ensures IsWalk(occupied, ind.path) && ind.path[0] == start && |ind.path| <= |genes| + 1
    ensures ind.reached <==> |ind.path| > 1 && ind.path[|ind.path|-1] == end
    ensures ind.fitness >= 0.0 && (!ind.reached ==> ind.fitness <= 1.0)
    ensures ind.reached && |ind.path| < 990 ==> ind.fitness > 1.0
  {
    var d := Decode(occupied, start, end, genes);
    Individual(genes, Score(d, end), d.path, d.reached)
  }

  /** maxPathSegmentLength: the ceiling of 1.8 times the start-end distance,
      and at least 5. */
  function GeneLength(distance: nat): (n: nat)
    ensures n >= 5 && 5 * n >= 9 * distance
    ensures n > 5 ==> 5 * (n - 1) < 9 * distance
  {
    var c := (9 * distance + 4) / 5;
    if c < 5 then 5 else c
  }

  // ----------------------------------------------------------- the operators

  /** Crossover at `point`: genes before the point come from the own parent,
      the rest from the other one; the children are as long as `p1`. */
  function Crossover(p1: seq<Move>, p2: seq<Move>, point: int): (c: (seq<Move>, seq<Move>))
    requires |p1| <= |p2|
    ensures |c.0| == |p1| && |c.1| == |p1|
    ensures 0 <= point <= |p1| == |p2| ==> c.0 == p1[..point] + p2[point..] && c.1 == p2[..point] + p1[point..]
    ensures forall i :: 0 <= i < |p1| ==> c.0[i] in {p1[i], p2[i]} && c.1[i] in {p1[i], p2[i]}
  {
    (seq(|p1|, i requires 0 <= i < |p1| => if i < point then p1[i] else p2[i]),
     seq(|p1|, i requires 0 <= i < |p1| => if i < point then p2[i] else p1[i]))
  }

  /** Crossing the two children again at the same point gives back the
      parents, and crossover keeps chromosomes well-shaped. */
  lemma CrossoverSwap(p1: seq<Move>, p2: seq<Move>, point: int)
    requires |p1| == |p2|
    ensures var c := Crossover(p1, p2, point);
            Crossover(c.0, c.1, point) == (p1, p2)
    ensures forall n :: Shaped(p1, n) && Shaped(p2, n) ==>
              Shaped(Crossover(p1, p2, point).0, n) && Shaped(Crossover(p1, p2, point).1, n)
  {
    var c := Crossover(p1, p2, point);
    var d := Crossover(c.0, c.1, point);
    assert d.0 == p1 && d.1 == p2;
  }

  /** The moves a mutation may pick for a gene: valid moves other than the
      gene itself. */
  function Others(m: Move): (os: seq<Move>)
    ensures |os| >= 3
    ensures forall o :: o in os ==> o != m && o != MoveNone
  {
    match m
    case MoveUp => [MoveDown, MoveLeft, MoveRight]
    case MoveDown => [MoveUp, MoveLeft, MoveRight]
    case MoveLeft => [MoveUp, MoveDown, MoveRight]
    case MoveRight => [MoveUp, MoveDown, MoveLeft]
    case MoveNone => ValidMoves
  }

  /** Every valid move other than the gene is on offer. */
  lemma OthersComplete(m: Move, o: Move)
    ensures o in Others(m) <==> o != m && o != MoveNone
  {
    match o
    case MoveUp =>
    case MoveDown =>
    case MoveLeft =>
    case MoveRight =>
    case MoveNone =>
  }

  /** Mutate: for each gene in order, a coin below the mutation rate replaces
      it by a different valid move. The source redraws until the move
      differs; this model makes one draw among the moves that differ. */
  function Mutate(genes: seq<Move>, r: Rng): (d: Drawn<seq<Move>>)
    ensures |d.value| == |genes|
    ensures forall i :: 0 <= i < |genes| && d.value[i] != genes[i] ==> d.value[i] != MoveNone
    ensures Shaped(genes, |genes|) ==> Shaped(d.value, |genes|)
    decreases |genes|
  {
    if genes == [] then Drawn([], r)
    else
      var coin := Fraction(r);
      var gene :=
        if coin.value < MutationRate then
          var os := Others(genes[0]);
          var k := Below(coin.next, |os|);
          Drawn(os[k.value], k.next)
        else Drawn(genes[0], coin.next);
      var rest := Mutate(genes[1..], gene.next);
      Drawn([gene.value] + rest.value, rest.next)
  }

  /** The Individual(geneLength) constructor: `n` genes drawn from the valid moves. */
  function RandomGenes(r: Rng, n: nat): (d: Drawn<seq<Move>>)
    ensures Shaped(d.value, n)
  {
    var ks := Draws(r, |ValidMoves|, n);
    Drawn(seq(n, i requires 0 <= i < n => ValidMoves[ks.value[i]]), ks.next)
  }

  /** The initial population: `count` unscored individuals of `n` random genes. */
  function InitialPopulation(r: Rng, count: nat, n: nat): (d: Drawn<seq<Individual>>)
    ensures |d.value| == count
    ensures forall i :: 0 <= i < count ==> Shaped(d.value[i].genes, n) && d.value[i] == Unscored(d.value[i].genes)
    decreases count
  {
    if count == 0 then Drawn([], r)
    else
      var first := RandomGenes(r, n);
      var rest := InitialPopulation(first.next, count - 1, n);
      Drawn([Unscored(first.value)] + rest.value, rest.next)
  }

  /** TournamentSelection: five draws of a population index; the winner is
      the first drawn individual of greatest fitness among them. */
  method Select(pop: seq<Individual>, r: Rng) returns (j: nat, winner: Individual, next: Rng)
    requires |pop| > 0
    ensures var picks := Draws(r, |pop|, TournamentSize).value;
            Evolution.FirstFittest(pop, FitnessOf, picks, j) && winner == pop[picks[j]]
    ensures winner in pop
    ensures next == Draws(r, |pop|, TournamentSize).next
  {
    var picks := Draws(r, |pop|, TournamentSize);
    j := Evolution.Tournament(pop, FitnessOf, picks.value);
    winner := pop[picks.value[j]];
    next := picks.next;
  }

  /** One pass of the filling loop: two tournament winners, crossed over
      when the coin falls below the crossover rate and otherwise cloned,
      then both mutated. */
  method Offspring(sorted: seq<Individual>, n: nat, r0: Rng) returns (child1: seq<Move>, child2: seq<Move>, r: Rng)
    requires |sorted| > 0
    requires forall i :: 0 <= i < |sorted| ==> Shaped(sorted[i].genes, n)
    ensures Shaped(child1, n) && Shaped(child2, n)
  {
    var j1, parent1, j2, parent2;
    j1, parent1, r := Select(sorted, r0);
    j2, parent2, r := Select(sorted, r);
    var coin := Fraction(r);
    r := coin.next;
    child1, child2 := parent1.genes, parent2.genes;
    if coin.value < CrossoverRate {
      var point := Between(r, 1, n - 1);
      r := point.next;
      var c := Crossover(parent1.genes, parent2.genes, point.value);
      CrossoverSwap(parent1.genes, parent2.genes, point.value);
      child1, child2 := c.0, c.1;
    }
    var m1 := Mutate(child1, r);
    var m2 := Mutate(child2, m1.next);
    child1, child2, r := m1.value, m2.value, m2.next;
  }

  // ----------------------------------------------------------- the evolution

  /** Step c of the generation loop: the first `ElitismCount` genes of the
      sorted population carried over, then pairs of offspring until the
      population is full again. */
  method NextGeneration(sorted: seq<Individual>, n: nat, r0: Rng) returns (pop: seq<Individual>, r: Rng)
    requires |sorted| == PopulationSize
    requires forall i :: 0 <= i < |sorted| ==> Shaped(sorted[i].genes, n)
    ensures |pop| == PopulationSize
    ensures forall i :: 0 <= i < |pop| ==> Shaped(pop[i].genes, n) && pop[i] == Unscored(pop[i].genes)
    ensures forall i :: 0 <= i < ElitismCount ==> pop[i].genes == sorted[i].genes
  {
    pop := [];
    var e := 0;
    while e < ElitismCount && e < |sorted|
      invariant 0 <= e <= ElitismCount && |pop| == e
      invariant forall i :: 0 <= i < e ==> pop[i] == Unscored(sorted[i].genes)
    {
      pop := pop + [Unscored(sorted[e].genes)];
      e := e + 1;
    }
    r := r0;
    while |pop| < PopulationSize
      invariant ElitismCount <= |pop| <= PopulationSize
      invariant forall i :: 0 <= i < |pop| ==> Shaped(pop[i].genes, n) && pop[i] == Unscored(pop[i].genes)
      invariant forall i :: 0 <= i < ElitismCount ==> pop[i].genes == sorted[i].genes
      decreases PopulationSize - |pop|
    {
      var child1, child2;
      child1, child2, r := Offspring(sorted, n, r);
      pop := pop + [Unscored(child1)];
      if |pop| < PopulationSize {
        pop := pop + [Unscored(child2)];
      }
    }
  }

  /** A generation as FindPath sorts it: a full population of well-shaped
      chromosomes, each carrying its own evaluation, in descending fitness. */
  predicate Generated(occupied: set<Pos>, start: Pos, end: Pos, n: nat, gen: seq<Individual>)
  {
    && |gen| == PopulationSize
    && Evolution.Descending(gen, FitnessOf)
    && forall i :: 0 <= i < |gen| ==> Shaped(gen[i].genes, n) && gen[i] == Evaluate(occupied, start, end, gen[i].genes)
  }

  predicate Evaluated(occupied: set<Pos>, start: Pos, end: Pos, n: nat, history: seq<seq<Individual>>)
  {
    forall g :: 0 <= g < |history| ==> Generated(occupied, start, end, n, history[g])
  }

  /** Elitism: the two fittest of every generation are evaluated again, with
      the same result, in the next one. */
  predicate Elitist(history: seq<seq<Individual>>)
  {
    forall g :: 0 <= g < |history| - 1 && |history[g]| >= ElitismCount ==>
      history[g][0] in history[g + 1] && history[g][1] in history[g + 1]
  }

  /** `best`, first found in generation `bestGen`, is as fit as every
      individual of every generation and strictly fitter than the top of
      every earlier generation. */
  predicate BestSoFar(history: seq<seq<Individual>>, best: Individual, bestGen: nat)
  {
    && bestGen < |history| && |history[bestGen]| > 0 && best == history[bestGen][0]
    && (forall g, i :: 0 <= g < |history| && 0 <= i < |history[g]| ==> history[g][i].fitness <= best.fitness)
    && (forall g :: 0 <= g < bestGen && |history[g]| > 0 ==> history[g][0].fitness < best.fitness)
  }

  /** Because the elite survive and every generation is sorted, the top
      fitness never decreases from one generation to the next. */
  lemma TopNeverDrops(occupied: set<Pos>, start: Pos, end: Pos, n: nat, history: seq<seq<Individual>>, g: nat)
    requires Evaluated(occupied, start, end, n, history) && Elitist(history)
    requires g + 1 < |history|
    ensures history[g][0].fitness <= history[g + 1][0].fitness
  {
    assert Generated(occupied, start, end, n, history[g]);
    assert Generated(occupied, start, end, n, history[g + 1]);
    var i :| 0 <= i < |history[g + 1]| && history[g + 1][i] == history[g][0];
    if i > 0 {
      assert FitnessOf(history[g + 1][0]) >= FitnessOf(history[g + 1][i]);
    }
  }

  /** The bookkeeping of one generation: the new generation is recorded and
      the best-overall individual replaced only on strict improvement. */
  lemma Record(history: seq<seq<Individual>>, sorted: seq<Individual>, best: Individual, bestGen: nat)
    requires |history| > 0 ==> BestSoFar(history, best, bestGen)
    requires |sorted| > 0 && Evolution.Descending(sorted, FitnessOf)
    ensures var improved := |history| == 0 || sorted[0].fitness > best.fitness;
            BestSoFar(history + [sorted], if improved then sorted[0] else best, if improved then |history| else bestGen)
  {
    var h: seq<seq<Individual>> := history + [sorted];
    var improved := |history| == 0 || sorted[0].fitness > best.fitness;
    var b: Individual := if improved then sorted[0] else best;
    forall g: nat, i: nat | g < |h| && i < |h[g]| ensures h[g][i].fitness <= b.fitness {
      if g == |history| {
        assert FitnessOf(sorted[0]) >= FitnessOf(sorted[i]) || i == 0;
      } else {
        assert h[g] == history[g];
      }
    }
    forall g: nat | g < (if improved then |history| else bestGen) && |h[g]| > 0 ensures h[g][0].fitness < b.fitness {
      assert h[g] == history[g];
    }
  }

  /** Recording a sorted generation that holds the previous generation's
      elite keeps the history evaluated and elitist. */
  lemma Extend(occupied: set<Pos>, start: Pos, end: Pos, n: nat, history: seq<seq<Individual>>, sorted: seq<Individual>)
    requires Evaluated(occupied, start, end, n, history) && Elitist(history)
    requires Generated(occupied, start, end, n, sorted)
    requires |history| > 0 ==> history[|history| - 1][0] in sorted && history[|history| - 1][1] in sorted
    ensures Evaluated(occupied, start, end, n, history + [sorted]) && Elitist(history + [sorted])
  {
    EvaluatedSnoc(occupied, start, end, n, history, sorted);
    ElitistSnoc(history, sorted);
  }

  /** Appending an evaluated, sorted generation keeps the history evaluated. */
  lemma EvaluatedSnoc(occupied: set<Pos>, start: Pos, end: Pos, n: nat, history: seq<seq<Individual>>, sorted: seq<Individual>)
    requires Evaluated(occupied, start, end, n, history) && Generated(occupied, start, end, n, sorted)
    ensures Evaluated(occupied, start, end, n, history + [sorted])
  {
    var h := history + [sorted];
    forall g | 0 <= g < |h| ensures Generated(occupied, start, end, n, h[g]) {
      if g < |history| { assert h[g] == history[g]; } else { assert h[g] == sorted; }
    }
  }

  /** Appending a generation that holds the last one's elite keeps elitism. */
  lemma ElitistSnoc(history: seq<seq<Individual>>, sorted: seq<Individual>)
    requires Elitist(history)
    requires |history| > 0 && |history[|history| - 1]| >= ElitismCount ==>
               history[|history| - 1][0] in sorted && history[|history| - 1][1] in sorted
    ensures Elitist(history + [sorted])
  {
    var h := history + [sorted];
    forall g | 0 <= g < |h| - 1 && |h[g]| >= ElitismCount ensures h[g][0] in h[g + 1] && h[g][1] in h[g + 1] {
      assert h[g] == history[g];
      if g + 1 < |history| { assert h[g + 1] == history[g + 1]; }
    }
  }

  /** What the evolution loop keeps between generations: a full population
      of well-shaped chromosomes whose first two carry the genes of the last
      recorded generation's elite, an evaluated and elitist history, and the
      best-overall individual. */
  predicate Running(occupied: set<Pos>, start: Pos, end: Pos, n: nat, population: seq<Individual>,
                    history: seq<seq<Individual>>, best: Individual, bestGen: nat)
  {
    && |population| == PopulationSize
    && (forall i :: 0 <= i < |population| ==> Shaped(population[i].genes, n))
    && Evaluated(occupied, start, end, n, history) && Elitist(history)
    && (|history| > 0 ==>
          && |history[|history| - 1]| >= ElitismCount
          && population[0].genes == history[|history| - 1][0].genes
          && population[1].genes == history[|history| - 1][1].genes
          && BestSoFar(history, best, bestGen))
  }

  /** One pass of the generation loop: evaluate and sort, record the
      generation and the best-overall individual, breed the next population. */
  method Breed(occupied: set<Pos>, start: Pos, end: Pos, n: nat, population: seq<Individual>,
               history: seq<seq<Individual>>, best: Individual, bestGen: nat, r: Rng)
    returns (population': seq<Individual>, history': seq<seq<Individual>>, best': Individual, bestGen': nat, r': Rng)
    requires Running(occupied, start, end, n, population, history, best, bestGen)
    ensures Running(occupied, start, end, n, population', history', best', bestGen')
    ensures |history'| == |history| + 1 && history'[..|history|] == history
    ensures |history| > 0 && !(history'[|history|][0].fitness > best.fitness) ==> best' == best && bestGen' == bestGen
    ensures |history| == 0 || history'[|history|][0].fitness > best.fitness ==>
              best' == history'[|history|][0] && bestGen' == |history|
  {
    var sorted := Generation(occupied, start, end, n, population);
    Record(history, sorted, best, bestGen);
    if |history| > 0 {
      var last := history[|history| - 1];
      assert Generated(occupied, start, end, n, last);
      assert last[0] == Evaluate(occupied, start, end, population[0].genes);
      assert last[1] == Evaluate(occupied, start, end, population[1].genes);
    }
    Extend(occupied, start, end, n, history, sorted);
    if |history| == 0 || sorted[0].fitness > best.fitness {
      best', bestGen' := sorted[0], |history|;
    } else {
      best', bestGen' := best, bestGen;
    }
    history' := history + [sorted];
    population', r' := NextGeneration(sorted, n, r);
  }

  /** The evolution loop of FindPath. `history[g]` is generation `g` as
      evaluated and sorted; `best` is the best-overall individual, first
      found in generation `bestGen`. */
  method Evolve(occupied: set<Pos>, start: Pos, end: Pos, n: nat, initial: seq<Individual>, r0: Rng)
    returns (best: Individual, history: seq<seq<Individual>>, bestGen: nat)
    requires |initial| == PopulationSize
    requires forall i :: 0 <= i < |initial| ==> Shaped(initial[i].genes, n)
    ensures |history| == MaxGenerations
    ensures Evaluated(occupied, start, end, n, history) && Elitist(history)
    ensures BestSoFar(history, best, bestGen)
    ensures Shaped(best.genes, n) && best == Evaluate(occupied, start, end, best.genes)
  {
    var population := initial;
    var r := r0;
    history := [];
    best, bestGen := Unscored([]), 0;
    while |history| < MaxGenerations
      invariant |history| <= MaxGenerations
      invariant Running(occupied, start, end, n, population, history, best, bestGen)
    {
      population, history, best, bestGen, r := Breed(occupied, start, end, n, population, history, best, bestGen, r);
    }
    assert Generated(occupied, start, end, n, history[bestGen]);
  }

  /** Step a of the generation loop: every individual decoded and scored,
      then sorted by descending fitness. */
  method Generation(occupied: set<Pos>, start: Pos, end: Pos, n: nat, population: seq<Individual>)
    returns (sorted: seq<Individual>)
    requires |population| == PopulationSize
    requires forall i :: 0 <= i < |population| ==> Shaped(population[i].genes, n)
    ensures Generated(occupied, start, end, n, sorted)
    ensures forall i :: 0 <= i < |population| ==> Evaluate(occupied, start, end, population[i].genes) in sorted
    ensures multiset(sorted) ==
            multiset(seq(|population|, i requires 0 <= i < |population| => Evaluate(occupied, start, end, population[i].genes)))
  {
    var scored := seq(|population|, i requires 0 <= i < |population| => Evaluate(occupied, start, end, population[i].genes));
    sorted := Evolution.SortDescending(scored, FitnessOf);
    Evolution.SortedMembers(scored, FitnessOf);
    forall i | 0 <= i < |sorted|
      ensures Shaped(sorted[i].genes, n) && sorted[i] == Evaluate(occupied, start, end, sorted[i].genes)
    {
      assert sorted[i] in scored;
    }
    forall i | 0 <= i < |population| ensures Evaluate(occupied, start, end, population[i].genes) in sorted {
      assert scored[i] in scored;
    }
  }

  /** Geneticv2.FindPath. Unoccupied start or end cells give `None`; equal
      start and end give the one-cell path; otherwise the decoded path of the
      best-overall individual is returned only if it reached the end. */
  method FindPath(occupied: set<Pos>, start: Pos, end: Pos, rng: Rng) returns (result: Option<seq<Pos>>)
    ensures start !in occupied || end !in occupied ==> result == None
    ensures start in occupied && end in occupied && start == end ==> result == Some([start])
    ensures result.Some? && start != end ==>
              && PathFromTo(occupied, result.value, start, end)
              && Manhattan(start, end) + 1 <= |result.value| <= GeneLength(Manhattan(start, end)) + 1
  {
    if start !in occupied || end !in occupied {
      return None;
    }
    if start == end {
      return Some([start]);
    }
    var n := GeneLength(Manhattan(start, end));
    var initial := InitialPopulation(rng, PopulationSize, n);
    var best, history, bestGen := Evolve(occupied, start, end, n, initial.value, initial.next);
    var again := Evaluate(occupied, start, end, best.genes);
    if again.reached {
      var p := again.path;
      WalkSpan(p);
      result := Some(p);
    } else {
      result := None;
    }
  }
}
