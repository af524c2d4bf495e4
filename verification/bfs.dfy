/** Algorithms/Bruteforce.cs: breadth-first search with a FIFO queue and a
    visited set. The goal is recognised only when it is discovered as a new
    neighbour, so a search whose start is its goal never succeeds. */
module BreadthFirst {
  import opened Geometry
  import opened Options
  import opened GridOracle
  import opened Paths
  import opened Records
  import opened Sequences

  /** The search state. `depth` (number of parent links) and `expanded` (the
      dequeued cells) are bookkeeping of the model; the source keeps neither. */
  datatype Frontier = Frontier(visited: set<Pos>, queue: seq<Pos>, parent: map<Pos, Pos>,
                               depth: map<Pos, int>, expanded: set<Pos>)

  /** The neighbours a step lists, over all steps of a trace. */
  function Shown(t: seq<Option<Step>>): set<Pos>
  {
    if t == [] then {}
    else
      var ns := if t[|t|-1].Some? then t[|t|-1].value.neighbors else [];
      Shown(t[..|t|-1]) + (set n | n in ns)
  }

  /** The prefix of `ns` up to and including the first `e`; all of `ns` when
      `e` is not listed. This is how far the enqueue loop gets before it
      returns on the goal. */
  function TakeThrough(ns: seq<Pos>, e: Pos): (t: seq<Pos>)
    ensures t <= ns
    ensures e in ns ==> |t| >= 1 && t[|t|-1] == e && e !in t[..|t|-1]
    ensures e !in ns ==> t == ns
  {
    if ns == [] then []
    else if ns[0] == e then [e]
    else [ns[0]] + TakeThrough(ns[1..], e)
  }

  /** A step taken when the cells `seen` were visited: a walk from the start
      to its cell, listing the walkable neighbours not yet visited, with no
      counters. */
  ghost predicate StepOk(walk: set<Pos>, start: Pos, seen: set<Pos>, st: Step)
  {
    && PathFromTo(walk, st.path, start, st.current)
    && st.neighbors == Neighbors(walk - seen, st.current)
    && st.iterations.None? && st.explored.None?
  }

  /** Every recorded step is faithful to the cells visited before it: the
      start and everything the earlier steps listed. */
  ghost predicate Faithful(walk: set<Pos>, start: Pos, t: seq<Option<Step>>)
  {
    t == [] ||
      (&& Faithful(walk, start, t[..|t|-1])
       && t[|t|-1].Some?
       && StepOk(walk, start, {start} + Shown(t[..|t|-1]), t[|t|-1].value))
  }

  lemma FaithfulSnoc(walk: set<Pos>, start: Pos, t: seq<Option<Step>>, st: Step)
    requires Faithful(walk, start, t)
    requires StepOk(walk, start, {start} + Shown(t), st)
    ensures Faithful(walk, start, t + [Some(st)])
    ensures Shown(t + [Some(st)]) == Shown(t) + (set n | n in st.neighbors)
  {
    assert (t + [Some(st)])[..|t|] == t;
  }

  /** The recursive definition unrolled: every step is faithful to the
      prefix of the trace before it. */
  lemma {:induction false} FaithfulAt(walk: set<Pos>, start: Pos, t: seq<Option<Step>>, i: nat)
    requires Faithful(walk, start, t) && i < |t|
    ensures t[i].Some? && StepOk(walk, start, {start} + Shown(t[..i]), t[i].value)
    decreases |t|
  {
    if i < |t| - 1 {
      var p := t[..|t|-1];
      FaithfulAt(walk, start, p, i);
      FrontKeeps(t, i);
    }
  }

  /** Bookkeeping shape: visited cells are the expanded ones plus the queue,
      every visited cell has a depth and every one but the start a parent. */
  ghost predicate Shape(walk: set<Pos>, start: Pos, s: Frontier)
  {
    && s.visited <= walk + {start} && start in s.visited
    && s.depth.Keys == s.visited && s.parent.Keys == s.visited - {start}
    && s.depth[start] == 0
    && (forall v :: v in s.depth ==> s.depth[v] >= 0)
    && s.expanded <= s.visited
    && (forall v :: v in s.visited <==> v in s.expanded || v in s.queue)
    && (forall v :: v in s.expanded ==> v !in s.queue)
    && (forall i, j :: 0 <= i < j < |s.queue| ==> s.queue[i] != s.queue[j])
  }

  /** Parents are expanded cells one level up and one grid step away. */
  ghost predicate Tree(walk: set<Pos>, start: Pos, s: Frontier)
    requires Shape(walk, start, s)
  {
    && (forall v :: v in s.parent ==> s.parent[v] in s.expanded && s.depth[v] == s.depth[s.parent[v]] + 1)
    && Linked(walk, s.parent)
  }

  /** Breadth-first layering: queue depths are sorted and span at most one
      level, and no expanded cell is deeper than a queued one. */
  ghost predicate Layered(walk: set<Pos>, start: Pos, s: Frontier)
    requires Shape(walk, start, s)
  {
    && (forall i, j :: 0 <= i < j < |s.queue| ==> s.depth[s.queue[i]] <= s.depth[s.queue[j]])
    && (forall i :: 0 <= i < |s.queue| ==> s.depth[s.queue[i]] <= s.depth[s.queue[0]] + 1)
    && (forall c, i :: c in s.expanded && 0 <= i < |s.queue| ==> s.depth[c] <= s.depth[s.queue[i]])
  }

  /** Every walkable neighbour of an expanded cell is visited, at most one level deeper. */
  ghost predicate Closed(walk: set<Pos>, start: Pos, s: Frontier)
    requires Shape(walk, start, s)
  {
    forall u, w :: u in s.expanded && w in walk && Adjacent(u, w) ==> w in s.visited && s.depth[w] <= s.depth[u] + 1
  }

  ghost predicate Inv(walk: set<Pos>, start: Pos, end: Pos, s: Frontier)
  {
    && Shape(walk, start, s)
    && Tree(walk, start, s)
    && Layered(walk, start, s)
    && Closed(walk, start, s)
    && (end in s.visited ==> end == start)
  }

  /** The arena a retrace needs. */
  ghost predicate Arena(walk: set<Pos>, start: Pos, s: Frontier)
  {
    && s.depth.Keys == s.visited && s.parent.Keys == s.visited - {start}
    && start in s.visited && s.depth[start] == 0 && start !in s.parent
    && Ranked(s.parent, s.depth, start) && Linked(walk, s.parent)
    && (forall v :: v in s.parent ==> s.depth[v] == s.depth[s.parent[v]] + 1)
  }

  lemma TreeArena(walk: set<Pos>, start: Pos, s: Frontier)
    requires Shape(walk, start, s) && Tree(walk, start, s)
    ensures Arena(walk, start, s)
  {
  }

  /** Dequeue the head, mark `taken` visited, record the head as their parent
      and enqueue them. */
  function Expand(s: Frontier, taken: seq<Pos>): Frontier
    requires |s.queue| > 0 && s.queue[0] in s.depth
  {
    var cur := s.queue[0];
    Frontier(s.visited + (set n | n in taken),
             s.queue[1..] + taken,
             s.parent + (map n | n in taken :: cur),
             s.depth + (map n | n in taken :: s.depth[cur] + 1),
             s.expanded + {cur})
  }

  /** The cells an expansion may take: a prefix of the unvisited walkable
      neighbours of the head. */
  ghost predicate Fresh(walk: set<Pos>, s: Frontier, taken: seq<Pos>)
  {
    && (forall i, j :: 0 <= i < j < |taken| ==> taken[i] != taken[j])
    && (forall n :: n in taken ==> n in walk && n !in s.visited)
    && (|s.queue| > 0 ==> forall n :: n in taken ==> Adjacent(s.queue[0], n))
  }

  lemma NeighborsFresh(walk: set<Pos>, s: Frontier, taken: seq<Pos>)
    requires |s.queue| > 0 && taken <= Neighbors(walk - s.visited, s.queue[0])
    ensures Fresh(walk, s, taken)
  {
    var ns := Neighbors(walk - s.visited, s.queue[0]);
    NeighborsDistinct(walk - s.visited, s.queue[0]);
    assert forall i :: 0 <= i < |taken| ==> taken[i] == ns[i];
  }

  lemma ExpandShape(walk: set<Pos>, start: Pos, s: Frontier, taken: seq<Pos>)
    requires Shape(walk, start, s) && |s.queue| > 0 && Fresh(walk, s, taken)
    ensures Shape(walk, start, Expand(s, taken))
  {
    var t := Expand(s, taken);
    var cur := s.queue[0];
    var q := t.queue;
    var m := |s.queue| - 1;
    assert forall i :: 0 <= i < m ==> q[i] == s.queue[i + 1];
    assert forall i :: m <= i < |q| ==> q[i] == taken[i - m];
    forall i, j | 0 <= i < j < |q| ensures q[i] != q[j] {
      if j < m {
        assert q[i] == s.queue[i + 1] && q[j] == s.queue[j + 1];
      } else if i < m {
        assert q[i] in s.visited && q[j] !in s.visited;
      }
    }
    forall v | v in t.visited ensures v in t.expanded || v in t.queue {
      if v in s.queue && v != cur {
        var k :| 0 <= k < |s.queue| && s.queue[k] == v;
        assert k > 0 && q[k - 1] == v;
      }
    }
    forall v | v in t.expanded ensures v !in t.queue {
      if v == cur {
        assert forall i :: 1 <= i < |s.queue| ==> s.queue[i] != s.queue[0];
      }
    }
  }

  lemma ExpandTree(walk: set<Pos>, start: Pos, s: Frontier, taken: seq<Pos>)
    requires Shape(walk, start, s) && Tree(walk, start, s) && |s.queue| > 0 && Fresh(walk, s, taken)
    ensures Shape(walk, start, Expand(s, taken)) && Tree(walk, start, Expand(s, taken))
  {
    ExpandShape(walk, start, s, taken);
    var t := Expand(s, taken);
    forall v | v in t.parent
      ensures t.parent[v] in t.expanded && t.depth[v] == t.depth[t.parent[v]] + 1
      ensures v in walk && Adjacent(t.parent[v], v)
    {
      if v !in taken {
        assert v in s.parent && s.parent[v] !in taken;
      }
    }
  }

  /** The queue after an expansion: the old queue without its head, then the
      taken cells. */
  lemma ExpandQueue(s: Frontier, taken: seq<Pos>)
    requires |s.queue| > 0 && s.queue[0] in s.depth
    ensures var q := Expand(s, taken).queue;
            && |q| == |s.queue| - 1 + |taken|
            && (forall i :: 0 <= i < |s.queue| - 1 ==> q[i] == s.queue[i + 1])
            && (forall i :: |s.queue| - 1 <= i < |q| ==> q[i] == taken[i - (|s.queue| - 1)])
  {
  }

  /** Depths after an expansion: old cells keep theirs, taken cells sit one
      level below the head, and the new queue spans the head's level and the
      next. */
  lemma ExpandDepths(walk: set<Pos>, start: Pos, s: Frontier, taken: seq<Pos>)
    requires Shape(walk, start, s) && Layered(walk, start, s) && |s.queue| > 0 && Fresh(walk, s, taken)
    ensures var t := Expand(s, taken);
            var d := s.depth[s.queue[0]];
            && (forall v :: v in s.visited ==> t.depth[v] == s.depth[v])
            && (forall i :: 0 <= i < |t.queue| ==> t.queue[i] in t.depth && d <= t.depth[t.queue[i]] <= d + 1)
            && (forall i :: |s.queue| - 1 <= i < |t.queue| ==> t.depth[t.queue[i]] == d + 1)
  {
    var t := Expand(s, taken);
    var d := s.depth[s.queue[0]];
    var m := |s.queue| - 1;
    ExpandQueue(s, taken);
    assert forall v :: v in s.visited ==> t.depth[v] == s.depth[v];
    assert forall n :: n in taken ==> t.depth[n] == d + 1;
    forall i | 0 <= i < |t.queue| ensures t.queue[i] in t.depth && d <= t.depth[t.queue[i]] <= d + 1 {
      if i < m {
        assert t.queue[i] == s.queue[i + 1];
      } else {
        assert t.queue[i] in taken;
      }
    }
  }

  /** The queue after an expansion is still sorted by depth. */
  lemma ExpandSorted(walk: set<Pos>, start: Pos, s: Frontier, taken: seq<Pos>)
    requires Shape(walk, start, s) && Layered(walk, start, s) && |s.queue| > 0 && Fresh(walk, s, taken)
    ensures var t := Expand(s, taken);
            forall i, j :: 0 <= i < j < |t.queue| ==> t.queue[i] in t.depth && t.queue[j] in t.depth &&
                                                      t.depth[t.queue[i]] <= t.depth[t.queue[j]]
  {
    ExpandQueue(s, taken);
    ExpandDepths(walk, start, s, taken);
    var t := Expand(s, taken);
    var q := t.queue;
    var m := |s.queue| - 1;
    forall i, j | 0 <= i < j < |q| ensures t.depth[q[i]] <= t.depth[q[j]] {
      if j < m {
        assert s.depth[s.queue[i + 1]] <= s.depth[s.queue[j + 1]];
      }
    }
  }

  /** After an expansion no expanded cell is deeper than a queued one: the
      old expanded cells sat at most at the head's level, the head is at it,
      and the new queue starts there. */
  lemma ExpandBelowQueue(walk: set<Pos>, start: Pos, s: Frontier, taken: seq<Pos>, t: Frontier)
    requires Shape(walk, start, s) && Layered(walk, start, s) && |s.queue| > 0 && Fresh(walk, s, taken)
    requires t == Expand(s, taken) && Shape(walk, start, t)
    ensures forall c, i :: c in t.expanded && 0 <= i < |t.queue| ==> t.depth[c] <= t.depth[t.queue[i]]
  {
    ExpandDepths(walk, start, s, taken);
    var d := s.depth[s.queue[0]];
    forall c, i | c in t.expanded && 0 <= i < |t.queue| ensures t.depth[c] <= t.depth[t.queue[i]] {
      assert c in s.expanded ==> s.depth[c] <= d;
    }
  }

  lemma ExpandLayered(walk: set<Pos>, start: Pos, s: Frontier, taken: seq<Pos>)
    requires Shape(walk, start, s) && Layered(walk, start, s) && |s.queue| > 0 && Fresh(walk, s, taken)
    ensures Shape(walk, start, Expand(s, taken)) && Layered(walk, start, Expand(s, taken))
  {
    ExpandShape(walk, start, s, taken);
    ExpandSorted(walk, start, s, taken);
    ExpandBelowQueue(walk, start, s, taken, Expand(s, taken));
    ExpandDepths(walk, start, s, taken);
  }

  lemma ExpandClosed(walk: set<Pos>, start: Pos, s: Frontier)
    requires Shape(walk, start, s) && Layered(walk, start, s) && Closed(walk, start, s) && |s.queue| > 0
    requires Fresh(walk, s, Neighbors(walk - s.visited, s.queue[0]))
    ensures Shape(walk, start, Expand(s, Neighbors(walk - s.visited, s.queue[0])))
    ensures Closed(walk, start, Expand(s, Neighbors(walk - s.visited, s.queue[0])))
  {
    var cur := s.queue[0];
    var ns := Neighbors(walk - s.visited, cur);
    ExpandShape(walk, start, s, ns);
    var t := Expand(s, ns);
    var d := s.depth[cur];
    assert forall v :: v in s.visited ==> t.depth[v] == s.depth[v];
    forall u, w | u in t.expanded && w in walk && Adjacent(u, w)
      ensures w in t.visited && t.depth[w] <= t.depth[u] + 1
    {
      if u == cur {
        if w !in s.visited {
          assert w in ns;
        } else if w in s.expanded {
          assert s.depth[w] <= d;
        } else {
          var k :| 0 <= k < |s.queue| && s.queue[k] == w;
        }
      }
    }
  }

  lemma ExpandKeepsInv(walk: set<Pos>, start: Pos, end: Pos, s: Frontier)
    requires Inv(walk, start, end, s) && |s.queue| > 0
    requires end !in Neighbors(walk - s.visited, s.queue[0])
    ensures Inv(walk, start, end, Expand(s, Neighbors(walk - s.visited, s.queue[0])))
  {
    var ns := Neighbors(walk - s.visited, s.queue[0]);
    NeighborsFresh(walk, s, ns);
    ExpandTree(walk, start, s, ns);
    ExpandLayered(walk, start, s, ns);
    ExpandClosed(walk, start, s);
  }

  /** Every cell a walk of at most `D` steps reaches, where `D` is the depth at
      the head of the queue, is already visited, at depth no greater than the
      walk's step count. */
  lemma {:induction false} Reach(walk: set<Pos>, start: Pos, end: Pos, s: Frontier, q: seq<Pos>)
    requires Inv(walk, start, end, s) && |s.queue| > 0
    requires IsWalk(walk, q) && q[0] == start && |q| - 1 <= s.depth[s.queue[0]]
    ensures q[|q|-1] in s.visited && s.depth[q[|q|-1]] <= |q| - 1
  {
    if |q| > 1 {
      var p := q[..|q|-1];
      assert IsWalk(walk, p) by {
        forall i | 1 <= i < |p| ensures p[i] in walk && Adjacent(p[i-1], p[i]) {
          assert p[i] == q[i] && p[i-1] == q[i-1];
        }
      }
      Reach(walk, start, end, s, p);
      var u := q[|q|-2];
      assert u == p[|p|-1];
    }
  }

  /** The goal is among the new neighbours of the head: the retraced path to
      it is a shortest walk, because every walk of at most `depth(head)` steps
      ends on an already visited cell. */
  lemma GoalFound(walk: set<Pos>, start: Pos, end: Pos, s: Frontier)
    requires Inv(walk, start, end, s) && |s.queue| > 0
    requires end in Neighbors(walk - s.visited, s.queue[0])
    ensures var t := Expand(s, TakeThrough(Neighbors(walk - s.visited, s.queue[0]), end));
            && Arena(walk, start, t) && end in t.parent && start != end
            && Shortest(walk, Retrace(t.parent, t.depth, start, end), start, end)
            && |t.expanded| == |s.expanded| + 1
            && |t.expanded| <= |t.visited| <= |walk + {start}|
  {
    var cur := s.queue[0];
    var ns := Neighbors(walk - s.visited, cur);
    var taken := TakeThrough(ns, end);
    NeighborsFresh(walk, s, taken);
    ExpandTree(walk, start, s, taken);
    var t := Expand(s, taken);
    TreeArena(walk, start, t);
    var d := s.depth[cur];
    assert end in taken && t.depth[end] == d + 1;
    var path := Retrace(t.parent, t.depth, start, end);
    RetraceLength(t.parent, t.depth, start, end, 1);
    RetraceIsPath(walk, t.parent, t.depth, start, end);
    forall q | PathFromTo(walk, q, start, end) ensures |path| <= |q| {
      if |q| - 1 <= d {
        Reach(walk, start, end, s, q);
      }
    }
    SubsetCard(t.expanded, t.visited);
    SubsetCard(t.visited, walk + {start});
  }

  /** The loop invariant of FindPath: the search invariant, and a trace that
      has one faithful step per expanded cell and shows exactly the visited
      cells besides the start. */
  ghost predicate Running(walk: set<Pos>, start: Pos, end: Pos, s: Frontier, trace: seq<Option<Step>>)
  {
    && Inv(walk, start, end, s)
    && |s.expanded| == |trace|
    && s.visited == {start} + Shown(trace)
    && Faithful(walk, start, trace)
  }

  /** The step yielded when the head of the queue is dequeued. */
  function HeadStep(walk: set<Pos>, start: Pos, end: Pos, s: Frontier): (st: Step)
    requires Inv(walk, start, end, s) && |s.queue| > 0
    ensures st.current == s.queue[0]
    ensures StepOk(walk, start, s.visited, st)
  {
    TreeArena(walk, start, s);
    RetraceIsPath(walk, s.parent, s.depth, start, s.queue[0]);
    Step(Retrace(s.parent, s.depth, start, s.queue[0]), Neighbors(walk - s.visited, s.queue[0]), s.queue[0], None, None)
  }

  /** A full expansion makes progress: either a new cell is visited or the
      queue shrinks, and one more cell counts as expanded. */
  lemma Advance(walk: set<Pos>, start: Pos, s: Frontier)
    requires Shape(walk, start, s) && |s.queue| > 0
    ensures var ns := Neighbors(walk - s.visited, s.queue[0]);
            var t := Expand(s, ns);
            && t.visited == s.visited + (set n | n in ns)
            && |t.expanded| == |s.expanded| + 1
            && (|(walk + {start}) - t.visited| < |(walk + {start}) - s.visited|
                || (|(walk + {start}) - t.visited| == |(walk + {start}) - s.visited| && |t.queue| < |s.queue|))
  {
    var U := walk + {start};
    var ns := Neighbors(walk - s.visited, s.queue[0]);
    var t := Expand(s, ns);
    assert s.queue[0] !in s.expanded;
    if ns != [] {
      assert ns[0] in U - s.visited && ns[0] !in U - t.visited;
      SubsetCard(U - t.visited, U - s.visited);
    } else {
      assert t.visited == s.visited;
    }
  }

  /** Recording the step of an expansion keeps the loop invariant. */
  lemma Record(walk: set<Pos>, start: Pos, end: Pos, s: Frontier, t: Frontier,
               trace: seq<Option<Step>>, st: Step)
    requires Running(walk, start, end, s, trace)
    requires StepOk(walk, start, s.visited, st)
    requires Inv(walk, start, end, t)
    requires t.visited == s.visited + (set n | n in st.neighbors)
    requires |t.expanded| == |s.expanded| + 1
    ensures Running(walk, start, end, t, trace + [Some(st)])
  {
    FaithfulSnoc(walk, start, trace, st);
  }

  /** The queue ran dry: the visited cells are closed under walkable
      neighbours, so the goal is unreachable unless it is the start. */
  lemma Exhausted(walk: set<Pos>, start: Pos, end: Pos, s: Frontier)
    requires Inv(walk, start, end, s) && |s.queue| == 0
    ensures start == end || Unreachable(walk, start, end)
    ensures s.visited == s.expanded && |s.visited| <= |walk + {start}|
  {
    forall q | PathFromTo(walk, q, start, end) ensures start == end {
      WalkStaysIn(walk, s.visited, q);
    }
    SubsetCard(s.visited, walk + {start});
  }

  /** The initial state: only the start is visited and queued. */
  function Initial(start: Pos): Frontier
  {
    Frontier({start}, [start], map[], map[start := 0], {})
  }

  lemma InitialRunning(walk: set<Pos>, start: Pos, end: Pos)
    ensures Running(walk, start, end, Initial(start), [])
  {
  }

  /** One full iteration that does not meet the goal keeps the loop
      invariant and makes progress. */
  lemma Continue(walk: set<Pos>, start: Pos, end: Pos, s: Frontier, trace: seq<Option<Step>>)
    requires Running(walk, start, end, s, trace) && |s.queue| > 0
    requires end !in Neighbors(walk - s.visited, s.queue[0])
    ensures var t := Expand(s, Neighbors(walk - s.visited, s.queue[0]));
            && Running(walk, start, end, t, trace + [Some(HeadStep(walk, start, end, s))])
            && (|(walk + {start}) - t.visited| < |(walk + {start}) - s.visited|
                || (|(walk + {start}) - t.visited| == |(walk + {start}) - s.visited| && |t.queue| < |s.queue|))
  {
    ExpandKeepsInv(walk, start, end, s);
    Advance(walk, start, s);
    Record(walk, start, end, s, Expand(s, Neighbors(walk - s.visited, s.queue[0])), trace, HeadStep(walk, start, end, s));
  }

  /** What a finished search promises. A found path is a shortest walk
      (and the start is never its own goal); otherwise the goal is the start
      or unreachable. The report carries the path length, the iteration count
      (one per dequeued cell, between 1 and the number of reachable cells) and
      the visited count, and the trace holds one faithful step per iteration,
      followed on success by the final path. */
  ghost predicate Answers(walk: set<Pos>, start: Pos, end: Pos, o: Outcome)
  {
    && (o.found ==> start != end && Shortest(walk, o.path, start, end))
    && (!o.found ==> o.path == [] && (start == end || Unreachable(walk, start, end)))
    && o.report.algorithm == "Bruteforce" && o.report.reachedTarget == o.found
    && o.report.pathLength == |o.path|
    && 1 <= o.report.iterations <= o.report.nodesExplored <= |walk + {start}|
    && (!o.found ==> o.report.nodesExplored == o.report.iterations)
    && |o.trace| == o.report.iterations + (if o.found then 1 else 0)
    && Faithful(walk, start, o.trace[..o.report.iterations])
    && (o.found ==> o.trace[|o.trace|-1] == Some(Step(o.path, [], end, None, None)))
  }

  /** A search that met the goal answers with the retraced path, after one
      faithful step per iteration. */
  lemma FoundAnswers(walk: set<Pos>, start: Pos, end: Pos, shown: seq<Option<Step>>, path: seq<Pos>, explored: nat)
    requires start != end && Shortest(walk, path, start, end)
    requires 1 <= |shown| <= explored <= |walk + {start}| && Faithful(walk, start, shown)
    ensures var o := Outcome(shown + [Some(Step(path, [], end, None, None))], true, path,
                             Report("Bruteforce", |path|, explored, |shown|, true));
            Answers(walk, start, end, o)
  {
    assert (shown + [Some(Step(path, [], end, None, None))])[..|shown|] == shown;
  }

  /** The goal was discovered while expanding the head: record the step,
      retrace the path, yield it and report. */
  method Succeed(walk: set<Pos>, start: Pos, end: Pos, s: Frontier, trace: seq<Option<Step>>) returns (o: Outcome)
    requires Running(walk, start, end, s, trace) && |s.queue| > 0
    requires end in Neighbors(walk - s.visited, s.queue[0])
    ensures o.found && Answers(walk, start, end, o)
  {
    var step := HeadStep(walk, start, end, s);
    var shown := trace + [Some(step)];
    var t := Expand(s, TakeThrough(step.neighbors, end));
    GoalFound(walk, start, end, s);
    var path := Retrace(t.parent, t.depth, start, end);
    assert Faithful(walk, start, shown) by {
      FaithfulSnoc(walk, start, trace, step);
    }
    FoundAnswers(walk, start, end, shown, path, |t.visited|);
    o := Outcome(shown + [Some(Step(path, [], end, None, None))], true, path, Report("Bruteforce", |path|, |t.visited|, |shown|, true));
  }

  /** A search whose queue ran dry answers with no path, after one faithful
      step per visited cell. */
  lemma ExhaustedAnswers(walk: set<Pos>, start: Pos, end: Pos, trace: seq<Option<Step>>)
    requires start == end || Unreachable(walk, start, end)
    requires 1 <= |trace| <= |walk + {start}| && Faithful(walk, start, trace)
    ensures Answers(walk, start, end, Outcome(trace, false, [], Report("Bruteforce", 0, |trace|, |trace|, false)))
  {
    assert trace[..|trace|] == trace;
  }

  /** The queue ran dry without meeting the goal. */
  method Fail(walk: set<Pos>, start: Pos, end: Pos, s: Frontier, trace: seq<Option<Step>>) returns (o: Outcome)
    requires Running(walk, start, end, s, trace) && |s.queue| == 0
    ensures !o.found && Answers(walk, start, end, o)
  {
    assert (start == end || Unreachable(walk, start, end))
        && 1 <= |trace| == |s.visited| <= |walk + {start}| && Faithful(walk, start, trace) by {
      Exhausted(walk, start, end, s);
      assert start in s.visited;
    }
    ExhaustedAnswers(walk, start, end, trace);
    o := Outcome(trace, false, [], Report("Bruteforce", 0, |s.visited|, |trace|, false));
  }

  /** Bruteforce.FindPath, with the coroutine flattened into the trace of
      yielded steps and the analytics tuple it logs. */
  method FindPath(walk: set<Pos>, start: Pos, end: Pos) returns (o: Outcome)
    ensures Answers(walk, start, end, o)
  {
    var s := Initial(start);
    var trace: seq<Option<Step>> := [];
    ghost var U := walk + {start};
    InitialRunning(walk, start, end);
    while |s.queue| > 0
      invariant Running(walk, start, end, s, trace)
      decreases |U - s.visited|, |s.queue|
    {
      var step := HeadStep(walk, start, end, s);
      if end in step.neighbors {
        o := Succeed(walk, start, end, s, trace);
        return;
      }
      Continue(walk, start, end, s, trace);
      s := Expand(s, step.neighbors);
      trace := trace + [Some(step)];
    }
    o := Fail(walk, start, end, s, trace);
  }
}
