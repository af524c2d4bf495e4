/** The A* loop that Algorithms/AStarAlgorithm.cs and Astar.cs share. The
    open list is scanned for the first least (F, H); the selected node is
    removed and closed before the goal test; otherwise its walkable
    neighbours are visited in right, left, up, down order. Every neighbour is
    a freshly built node whose G is 0, so the improvement test
    `newG < neighbor.G || !open.Contains(neighbor)` only ever succeeds for a
    neighbour that is not open yet: the first discovery of a cell fixes its
    cost and parent for good. */
module BestFirst {
  import opened Geometry
  import opened Options
  import opened GridOracle
  import opened Paths
  import opened Records
  import opened Sequences
  import opened Selection

  /** The metric of an implementation: AStarAlgorithm measures steps and
      heuristic with Grid.GetDistance and Grid.GetHeuristicDistance (the
      Manhattan metric), Astar with its octile GetDistance. */
  datatype Metric = Manhattan4 | Octile8

  /** GetDistance (and, for the heuristic, GetHeuristicDistance) of a metric. */
  function Cost(m: Metric, a: Pos, b: Pos): (d: nat)
    ensures d == 0 <==> a == b
  {
    match m
    case Manhattan4 => ManhattanSymmetric(a, b); Manhattan(a, b)
    case Octile8 => OctileProperties(a, b); Octile(a, b)
  }

  lemma CostSymmetric(m: Metric, a: Pos, b: Pos)
    ensures Cost(m, a, b) == Cost(m, b, a)
  {
    ManhattanSymmetric(a, b);
    OctileProperties(a, b);
  }

  /** The cost of one grid step. */
  function Unit(m: Metric): nat
  {
    match m
    case Manhattan4 => 1
    case Octile8 => 10
  }

  /** Every neighbour step costs the metric's unit, 1 or 10. */
  lemma CostOfStep(m: Metric, a: Pos, b: Pos)
    requires Adjacent(a, b)
    ensures Cost(m, a, b) == Unit(m) && Unit(m) >= 1
  {
    if m.Octile8? {
      OctileProperties(a, b);
    }
  }

  /** The search state: G and H of every node ever created for a known
      position, the parent links, the open list in insertion order and the
      closed set. */
  datatype Search = Search(g: map<Pos, int>, h: map<Pos, int>, parent: map<Pos, Pos>,
                           open: seq<Pos>, closed: set<Pos>)

  /** The state before the loop: the start node, with G and H left at 0, is
      the only open node. */
  function Initial(start: Pos): (s: Search)
    ensures s.open == [start] && s.closed == {} && s.parent == map[]
    ensures s.g == map[start := 0] && s.h == map[start := 0]
  {
    Search(map[start := 0], map[start := 0], map[], [start], {})
  }

  /** A position has a node on the open list or in the closed set. */
  predicate Known(s: Search, v: Pos)
  {
    v in s.open || v in s.closed
  }

  /** The body of the neighbour loop for one neighbour `n`. A closed
      neighbour is skipped. Otherwise the fresh node is updated when the new
      G is below its G of 0 or the cell is not open, but it only enters the
      open list, and so the search, when the cell is not open: an update of
      a cell that is already open goes to a node nobody keeps. */
  function DiscoverOne(m: Metric, end: Pos, s: Search, cur: Pos, n: Pos): Search
    requires cur in s.g
  {
    if n in s.closed then s
    else
      var newG := s.g[cur] + Cost(m, cur, n);
      if newG < 0 || n !in s.open then
        if n !in s.open then
          Search(s.g[n := newG], s.h[n := Cost(m, n, end)], s.parent[n := cur], s.open + [n], s.closed)
        else s
      else s
  }

  /** The neighbour loop. */
  function Discover(m: Metric, end: Pos, s: Search, cur: Pos, ns: seq<Pos>): (r: Search)
    requires cur in s.g
    ensures r.closed == s.closed
    decreases |ns|
  {
    if ns == [] then s
    else
      var s1 := DiscoverOne(m, end, s, cur, ns[0]);
      assert cur in s1.g;
      Discover(m, end, s1, cur, ns[1..])
  }

  /** The neighbours of `ns` that no node stands for yet, in order. */
  function Unknown(s: Search, ns: seq<Pos>): seq<Pos>
  {
    if ns == [] then []
    else (if Known(s, ns[0]) then [] else [ns[0]]) + Unknown(s, ns[1..])
  }

  /** The unknown neighbours are exactly the listed ones not known, each once
      when the list is duplicate-free. */
  lemma {:induction false} UnknownMembers(s: Search, ns: seq<Pos>)
    ensures forall v :: v in Unknown(s, ns) <==> v in ns && !Known(s, v)
    ensures (forall i, j :: 0 <= i < j < |ns| ==> ns[i] != ns[j]) ==>
              forall i, j :: 0 <= i < j < |Unknown(s, ns)| ==> Unknown(s, ns)[i] != Unknown(s, ns)[j]
  {
    if ns != [] {
      UnknownMembers(s, ns[1..]);
      assert forall v :: v in ns <==> v == ns[0] || v in ns[1..];
      if (forall i, j :: 0 <= i < j < |ns| ==> ns[i] != ns[j]) {
        assert ns[0] !in ns[1..];
      }
    }
  }

  /** Which neighbours are unknown depends only on which are known. */
  lemma {:induction false} UnknownFrame(s: Search, t: Search, ns: seq<Pos>)
    requires forall v :: v in ns ==> (Known(s, v) <==> Known(t, v))
    ensures Unknown(s, ns) == Unknown(t, ns)
  {
    if ns != [] {
      UnknownFrame(s, t, ns[1..]);
    }
  }

  /** The effect of one neighbour in closed form, when `cur` is closed. */
  lemma DiscoverOneFacts(m: Metric, end: Pos, s: Search, cur: Pos, n: Pos)
    requires cur in s.g && cur in s.closed
    ensures var r := DiscoverOne(m, end, s, cur, n);
            && r.closed == s.closed
            && r.open == s.open + (if Known(s, n) then [] else [n])
            && (forall v :: Known(r, v) <==> Known(s, v) || v == n)
            && r.g == (if Known(s, n) then s.g else s.g[n := s.g[cur] + Cost(m, cur, n)])
            && r.h == (if Known(s, n) then s.h else s.h[n := Cost(m, n, end)])
            && r.parent == (if Known(s, n) then s.parent else s.parent[n := cur])
  {
  }

  /** Over distinct neighbours of a closed node, the loop appends exactly
      the unknown ones to the open list, in order. */
  lemma {:induction false} DiscoverOpen(m: Metric, end: Pos, s: Search, cur: Pos, ns: seq<Pos>)
    requires cur in s.g && cur in s.closed
    requires forall i, j :: 0 <= i < j < |ns| ==> ns[i] != ns[j]
    ensures Discover(m, end, s, cur, ns).open == s.open + Unknown(s, ns)
    decreases |ns|
  {
    if ns != [] {
      var n := ns[0];
      var s1 := DiscoverOne(m, end, s, cur, n);
      var head := if Known(s, n) then [] else [n];
      var rest := Unknown(s, ns[1..]);
      assert s1.open == s.open + head && cur in s1.g && cur in s1.closed by {
        DiscoverOneFacts(m, end, s, cur, n);
      }
      assert Unknown(s1, ns[1..]) == rest by {
        DiscoverOneFacts(m, end, s, cur, n);
        assert forall v :: v in ns[1..] ==> v != n;
        UnknownFrame(s, s1, ns[1..]);
      }
      assert Discover(m, end, s, cur, ns) == Discover(m, end, s1, cur, ns[1..]);
      DiscoverOpen(m, end, s1, cur, ns[1..]);
      assert Unknown(s, ns) == head + rest;
      Associative(s.open, head, rest);
    }
  }

  /** ... gives each unknown one its G, from the closed node, and changes no
      other G. */
  lemma {:induction false} DiscoverG(m: Metric, end: Pos, s: Search, cur: Pos, ns: seq<Pos>)
    requires cur in s.g && cur in s.closed
    requires forall i, j :: 0 <= i < j < |ns| ==> ns[i] != ns[j]
    ensures var r := Discover(m, end, s, cur, ns);
            && (forall v :: v in r.g <==> v in s.g || v in Unknown(s, ns))
            && (forall v :: v in r.g ==> r.g[v] == if v in Unknown(s, ns) then s.g[cur] + Cost(m, cur, v) else s.g[v])
    decreases |ns|
  {
    if ns != [] {
      var n := ns[0];
      var s1 := DiscoverOne(m, end, s, cur, n);
      var head := if Known(s, n) then [] else [n];
      var rest := Unknown(s, ns[1..]);
      assert && s1.g == (if Known(s, n) then s.g else s.g[n := s.g[cur] + Cost(m, cur, n)])
             && cur in s1.g && cur in s1.closed && s1.g[cur] == s.g[cur] by {
        DiscoverOneFacts(m, end, s, cur, n);
      }
      assert Unknown(s1, ns[1..]) == rest by {
        DiscoverOneFacts(m, end, s, cur, n);
        assert forall v :: v in ns[1..] ==> v != n;
        UnknownFrame(s, s1, ns[1..]);
      }
      assert n !in rest by {
        UnknownMembers(s, ns[1..]);
        assert ns[0] !in ns[1..];
      }
      DiscoverG(m, end, s1, cur, ns[1..]);
      assert Unknown(s, ns) == head + rest;
    }
  }

  /** ... its H, the distance to the goal, and changes no other H. */
  lemma {:induction false} DiscoverH(m: Metric, end: Pos, s: Search, cur: Pos, ns: seq<Pos>)
    requires cur in s.g && cur in s.closed
    requires forall i, j :: 0 <= i < j < |ns| ==> ns[i] != ns[j]
    ensures var r := Discover(m, end, s, cur, ns);
            && (forall v :: v in r.h <==> v in s.h || v in Unknown(s, ns))
            && (forall v :: v in r.h ==> r.h[v] == if v in Unknown(s, ns) then Cost(m, v, end) else s.h[v])
    decreases |ns|
  {
    if ns != [] {
      var n := ns[0];
      var s1 := DiscoverOne(m, end, s, cur, n);
      var head := if Known(s, n) then [] else [n];
      var rest := Unknown(s, ns[1..]);
      assert && s1.h == (if Known(s, n) then s.h else s.h[n := Cost(m, n, end)])
             && cur in s1.g && cur in s1.closed && s1.g[cur] == s.g[cur] by {
        DiscoverOneFacts(m, end, s, cur, n);
      }
      assert Unknown(s1, ns[1..]) == rest by {
        DiscoverOneFacts(m, end, s, cur, n);
        assert forall v :: v in ns[1..] ==> v != n;
        UnknownFrame(s, s1, ns[1..]);
      }
      assert n !in rest by {
        UnknownMembers(s, ns[1..]);
        assert ns[0] !in ns[1..];
      }
      DiscoverH(m, end, s1, cur, ns[1..]);
      assert Unknown(s, ns) == head + rest;
    }
  }

  /** ... and the closed node as parent, changing no other parent. */
  lemma {:induction false} DiscoverParent(m: Metric, end: Pos, s: Search, cur: Pos, ns: seq<Pos>)
    requires cur in s.g && cur in s.closed
    requires forall i, j :: 0 <= i < j < |ns| ==> ns[i] != ns[j]
    ensures var r := Discover(m, end, s, cur, ns);
            && (forall v :: v in r.parent <==> v in s.parent || v in Unknown(s, ns))
            && (forall v :: v in r.parent ==> r.parent[v] == if v in Unknown(s, ns) then cur else s.parent[v])
    decreases |ns|
  {
    if ns != [] {
      var n := ns[0];
      var s1 := DiscoverOne(m, end, s, cur, n);
      var head := if Known(s, n) then [] else [n];
      var rest := Unknown(s, ns[1..]);
      assert && s1.parent == (if Known(s, n) then s.parent else s.parent[n := cur])
             && cur in s1.g && cur in s1.closed && s1.g[cur] == s.g[cur] by {
        DiscoverOneFacts(m, end, s, cur, n);
      }
      assert Unknown(s1, ns[1..]) == rest by {
        DiscoverOneFacts(m, end, s, cur, n);
        assert forall v :: v in ns[1..] ==> v != n;
        UnknownFrame(s, s1, ns[1..]);
      }
      assert n !in rest by {
        UnknownMembers(s, ns[1..]);
        assert ns[0] !in ns[1..];
      }
      DiscoverParent(m, end, s1, cur, ns[1..]);
      assert Unknown(s, ns) == head + rest;
    }
  }

  /** The open list with node `k` taken out and put on the closed set. */
  function Close(s: Search, k: nat): Search
    requires k < |s.open|
  {
    s.(open := s.open[..k] + s.open[k + 1..], closed := s.closed + {s.open[k]})
  }

  /** The neighbour loop of the node `k` just closed, over the walkable
      cells around it. */
  function Expand(m: Metric, walk: set<Pos>, end: Pos, s: Search, k: nat): Search
    requires k < |s.open| && s.open[k] in s.g
  {
    Discover(m, end, Close(s, k), s.open[k], Neighbors(walk, s.open[k]))
  }

  /** The cells that join the open list when node `k` is expanded. */
  function Fresh(walk: set<Pos>, s: Search, k: nat): seq<Pos>
    requires k < |s.open|
  {
    Unknown(Close(s, k), Neighbors(walk, s.open[k]))
  }

  /** The selection keys (F, H) of the open list. */
  function Keys(s: Search): (keys: seq<(int, int)>)
    requires forall v :: v in s.open ==> v in s.g && v in s.h
    ensures |keys| == |s.open|
    ensures forall i :: 0 <= i < |s.open| ==> keys[i] == (s.g[s.open[i]] + s.h[s.open[i]], s.h[s.open[i]])
  {
    seq(|s.open|, i requires 0 <= i < |s.open| => (s.g[s.open[i]] + s.h[s.open[i]], s.h[s.open[i]]))
  }

  /** Every known position has a G and an H. */
  ghost predicate Cached(s: Search)
  {
    forall v :: Known(s, v) ==> v in s.g && v in s.h
  }

  /** The start is known at G 0, every known G is non-negative, and the
      known positions are the start and walkable cells. */
  ghost predicate Costs(walk: set<Pos>, start: Pos, s: Search)
  {
    && Cached(s)
    && Known(s, start) && s.g[start] == 0
    && (forall v :: Known(s, v) ==> s.g[v] >= 0)
    && (forall v :: Known(s, v) ==> v in walk + {start})
    && (start in s.closed || (s.open == [start] && s.closed == {}))
  }

  /** The open list is duplicate-free and disjoint from the closed set. */
  ghost predicate Lists(s: Search)
  {
    && (forall v :: v in s.closed ==> v !in s.open)
    && (forall i, j :: 0 <= i < j < |s.open| ==> s.open[i] != s.open[j])
  }

  /** Every known position but the start hangs off a closed parent one grid
      step away, one unit of G further and with H its distance to the goal. */
  ghost predicate Tree(m: Metric, walk: set<Pos>, start: Pos, end: Pos, s: Search)
    requires Cached(s)
  {
    && (forall v :: v in s.parent <==> Known(s, v) && v != start)
    && (forall v :: v in s.parent ==>
          && s.parent[v] in s.closed && v in walk && Adjacent(s.parent[v], v)
          && s.g[v] == s.g[s.parent[v]] + Unit(m) && s.h[v] == Cost(m, v, end))
  }

  /** Every walkable neighbour of a closed node is known. */
  ghost predicate Closure(walk: set<Pos>, s: Search)
  {
    forall u, w :: u in s.closed && w in walk && Adjacent(u, w) ==> Known(s, w)
  }

  ghost predicate Inv(m: Metric, walk: set<Pos>, start: Pos, end: Pos, s: Search)
  {
    && Costs(walk, start, s) && Lists(s) && Tree(m, walk, start, end, s)
    && Closure(walk, s) && end !in s.closed
  }

  /** What expanding node `k` did, stated on the states alone. */
  ghost predicate Stepped(m: Metric, walk: set<Pos>, end: Pos, s: Search, k: int, t: Search, joined: seq<Pos>)
    requires 0 <= k < |s.open| && s.open[k] in s.g
  {
    var cur := s.open[k];
    && t.closed == s.closed + {cur}
    && t.open == s.open[..k] + s.open[k + 1..] + joined
    && (forall i, j :: 0 <= i < j < |joined| ==> joined[i] != joined[j])
    && (forall n :: n in joined <==> n in walk && Adjacent(cur, n) && !Known(s, n))
    && (forall v :: v in s.g && v in s.h && Known(s, v) ==>
          v in t.g && t.g[v] == s.g[v] && v in t.h && t.h[v] == s.h[v])
    && (forall n :: n in joined ==>
          n in t.g && t.g[n] == s.g[cur] + Unit(m) && n in t.h && t.h[n] == Cost(m, n, end))
    && (forall v :: v in t.parent <==> v in s.parent || v in joined)
    && (forall v :: v in s.parent ==> t.parent[v] == s.parent[v])
    && (forall n :: n in joined ==> t.parent[n] == cur)
  }

  /** Closing node `k` keeps every other open node open, in order, and
      leaves the known positions as they were. */
  lemma CloseOpen(s: Search, k: nat)
    requires k < |s.open|
    requires forall i, j :: 0 <= i < j < |s.open| ==> s.open[i] != s.open[j]
    ensures forall v :: v in Close(s, k).open <==> v in s.open && v != s.open[k]
    ensures forall v :: Known(Close(s, k), v) <==> Known(s, v)
  {
    var o := Close(s, k).open;
    forall v | v in s.open && v != s.open[k] ensures v in o {
      var i :| 0 <= i < |s.open| && s.open[i] == v;
      if i < k { assert o[i] == v; } else { assert o[i - 1] == v; }
    }
  }

  /** The expansion in closed form. */
  lemma ExpandStepped(m: Metric, walk: set<Pos>, end: Pos, s: Search, k: nat)
    requires k < |s.open| && s.open[k] in s.g && Lists(s)
    requires forall v :: v in s.parent ==> Known(s, v)
    ensures Stepped(m, walk, end, s, k, Expand(m, walk, end, s, k), Fresh(walk, s, k))
  {
    var cur := s.open[k];
    var s1 := Close(s, k);
    var ns := Neighbors(walk, cur);
    NeighborsDistinct(walk, cur);
    CloseOpen(s, k);
    DiscoverOpen(m, end, s1, cur, ns);
    DiscoverG(m, end, s1, cur, ns);
    DiscoverH(m, end, s1, cur, ns);
    DiscoverParent(m, end, s1, cur, ns);
    UnknownMembers(s1, ns);
    forall n | n in ns ensures Cost(m, cur, n) == Unit(m) {
      CostOfStep(m, cur, n);
    }
  }

  /** After an expansion the known positions are the old ones and the joined ones. */
  lemma StepKnown(m: Metric, walk: set<Pos>, end: Pos, s: Search, k: nat, t: Search, joined: seq<Pos>)
    requires k < |s.open| && s.open[k] in s.g
    requires Stepped(m, walk, end, s, k, t, joined)
    ensures forall v :: Known(t, v) <==> Known(s, v) || v in joined
  {
    var cur := s.open[k];
    forall v ensures Known(t, v) <==> Known(s, v) || v in joined {
      if v in s.open && v != cur {
        var i :| 0 <= i < |s.open| && s.open[i] == v;
        if i < k { assert t.open[i] == v; } else { assert t.open[i - 1] == v; }
      }
    }
  }

  lemma StepCosts(m: Metric, walk: set<Pos>, start: Pos, end: Pos, s: Search, k: nat, t: Search, joined: seq<Pos>)
    requires Costs(walk, start, s) && k < |s.open|
    requires Stepped(m, walk, end, s, k, t, joined)
    requires forall v :: Known(t, v) <==> Known(s, v) || v in joined
    ensures Costs(walk, start, t)
  {
  }

  lemma StepLists(m: Metric, walk: set<Pos>, end: Pos, s: Search, k: nat, t: Search, joined: seq<Pos>)
    requires Lists(s) && k < |s.open| && s.open[k] in s.g
    requires Stepped(m, walk, end, s, k, t, joined)
    ensures Lists(t)
  {
    var o := s.open[..k] + s.open[k + 1..];
    forall i, j | 0 <= i < j < |t.open| ensures t.open[i] != t.open[j] {
      var i' := if i < k then i else i + 1;
      var j' := if j < k then j else j + 1;
      if j < |o| {
        assert t.open[i] == s.open[i'] && t.open[j] == s.open[j'] && i' < j' < |s.open|;
      } else if i < |o| {
        assert t.open[i] == s.open[i'] && t.open[j] == joined[j - |o|];
        assert s.open[i'] in s.open && joined[j - |o|] in joined;
      } else {
        assert t.open[i] == joined[i - |o|] && t.open[j] == joined[j - |o|] && i - |o| < j - |o| < |joined|;
      }
    }
  }

  lemma StepTree(m: Metric, walk: set<Pos>, start: Pos, end: Pos, s: Search, k: nat, t: Search, joined: seq<Pos>)
    requires Costs(walk, start, s) && Tree(m, walk, start, end, s) && k < |s.open|
    requires Stepped(m, walk, end, s, k, t, joined)
    requires Cached(t) && forall v :: Known(t, v) <==> Known(s, v) || v in joined
    ensures Tree(m, walk, start, end, t)
  {
  }

  lemma StepClosure(m: Metric, walk: set<Pos>, end: Pos, s: Search, k: nat, t: Search, joined: seq<Pos>)
    requires Closure(walk, s) && k < |s.open| && s.open[k] in s.g
    requires Stepped(m, walk, end, s, k, t, joined)
    requires forall v :: Known(t, v) <==> Known(s, v) || v in joined
    ensures Closure(walk, t)
  {
  }

  /** Expanding an open node other than the goal keeps the search invariant
      and closes exactly that node. */
  lemma ExpandKeepsInv(m: Metric, walk: set<Pos>, start: Pos, end: Pos, s: Search, k: nat)
    requires Inv(m, walk, start, end, s) && k < |s.open| && s.open[k] != end
    ensures var t := Expand(m, walk, end, s, k);
            Inv(m, walk, start, end, t) && t.closed == s.closed + {s.open[k]} && s.open[k] !in s.closed
  {
    var t := Expand(m, walk, end, s, k);
    var joined := Fresh(walk, s, k);
    ExpandStepped(m, walk, end, s, k);
    StepKnown(m, walk, end, s, k, t, joined);
    StepCosts(m, walk, start, end, s, k, t, joined);
    StepLists(m, walk, end, s, k, t, joined);
    StepTree(m, walk, start, end, s, k, t, joined);
    StepClosure(m, walk, end, s, k, t, joined);
  }

  /** Under the invariant the parents are ranked by G and linked by grid
      steps, so a path can be retraced from any known position. */
  lemma InvArena(m: Metric, walk: set<Pos>, start: Pos, end: Pos, s: Search)
    requires Inv(m, walk, start, end, s)
    ensures Ranked(s.parent, s.g, start) && Linked(walk, s.parent) && start in s.g
    ensures forall v :: Known(s, v) ==> v == start || v in s.parent
  {
  }

  /** A known node's `g` is the step cost times the number of steps on its
      retraced path: every node sits one unit above its parent. */
  lemma GIsLength(m: Metric, walk: set<Pos>, start: Pos, end: Pos, s: Search, v: Pos)
    requires Inv(m, walk, start, end, s)
    requires v == start || v in s.parent
    ensures v in s.g && s.g[v] == Unit(m) * (|Retrace(s.parent, s.g, start, v)| - 1)
  {
    InvArena(m, walk, start, end, s);
    RetraceLength(s.parent, s.g, start, v, Unit(m));
  }

  /** The selected node is the goal: its retraced path is a walk from the
      start that lists no cell twice, and a start that is its own goal is met
      on the first iteration with the one-cell path. */
  lemma GoalFound(m: Metric, walk: set<Pos>, start: Pos, end: Pos, s: Search, k: nat)
    requires Inv(m, walk, start, end, s) && k < |s.open| && s.open[k] == end
    ensures Ranked(s.parent, s.g, start) && start in s.g && (end == start || end in s.parent)
    ensures var path := Retrace(s.parent, s.g, start, end);
            && PathFromTo(walk, path, start, end) && Simple(path)
            && (start == end ==> path == [start] && s.closed == {})
    ensures |s.closed| + 1 <= |walk + {start}|
  {
    InvArena(m, walk, start, end, s);
    RetraceIsPath(walk, s.parent, s.g, start, end);
    RetraceSimple(s.parent, s.g, start, end);
    SubsetCard(s.closed + {end}, walk + {start});
  }

  /** The open list ran dry: the start was closed and the goal never was,
      and the closed set is closed under walkable neighbours, so no walk leads
      from the start to the goal. */
  lemma Exhausted(m: Metric, walk: set<Pos>, start: Pos, end: Pos, s: Search)
    requires Inv(m, walk, start, end, s) && |s.open| == 0
    ensures start != end && Unreachable(walk, start, end)
    ensures |s.closed| <= |walk + {start}|
  {
    forall q | PathFromTo(walk, q, start, end) ensures false {
      WalkStaysIn(walk, s.closed, q);
    }
    SubsetCard(s.closed, walk + {start});
  }

  /** The counters of a step class: AStarAlgorithm's steps carry the
      iteration count and the closed count, Astar's carry none. */
  function Counter(counted: bool, n: int): Option<int>
  {
    if counted then Some(n) else None
  }

  /** The step yielded by the `i`-th iteration (from 1): a walk from the start
      to its cell that lists no cell twice, every walkable neighbour of the
      cell, and the counters `i - 1` completed iterations and `i` closed nodes. */
  ghost predicate StepOk(counted: bool, walk: set<Pos>, start: Pos, i: int, st: Step)
  {
    && PathFromTo(walk, st.path, start, st.current) && Simple(st.path)
    && st.neighbors == Neighbors(walk, st.current)
    && st.iterations == Counter(counted, i - 1) && st.explored == Counter(counted, i)
  }

  ghost predicate Faithful(counted: bool, walk: set<Pos>, start: Pos, t: seq<Option<Step>>)
  {
    t == [] ||
      (&& Faithful(counted, walk, start, t[..|t|-1])
       && t[|t|-1].Some?
       && StepOk(counted, walk, start, |t|, t[|t|-1].value))
  }

  lemma FaithfulSnoc(counted: bool, walk: set<Pos>, start: Pos, t: seq<Option<Step>>, st: Step)
    requires Faithful(counted, walk, start, t) && StepOk(counted, walk, start, |t| + 1, st)
    ensures Faithful(counted, walk, start, t + [Some(st)])
  {
    assert (t + [Some(st)])[..|t|] == t;
  }

  /** The recursive definition unrolled: the step at index `i` is iteration `i + 1`. */
  lemma {:induction false} FaithfulAt(counted: bool, walk: set<Pos>, start: Pos, t: seq<Option<Step>>, i: nat)
    requires Faithful(counted, walk, start, t) && i < |t|
    ensures t[i].Some? && StepOk(counted, walk, start, i + 1, t[i].value)
    decreases |t|
  {
    if i < |t| - 1 {
      FaithfulAt(counted, walk, start, t[..|t|-1], i);
    }
  }

  /** The loop invariant of FindPath: one faithful step per closed node. */
  ghost predicate Running(m: Metric, counted: bool, walk: set<Pos>, start: Pos, end: Pos,
                          s: Search, trace: seq<Option<Step>>)
  {
    Inv(m, walk, start, end, s) && |trace| == |s.closed| && Faithful(counted, walk, start, trace)
  }

  /** The step yielded once node `k` is closed, before its neighbours are processed. */
  function ExpandedStep(m: Metric, counted: bool, walk: set<Pos>, start: Pos, end: Pos, s: Search, k: nat): (st: Step)
    requires Inv(m, walk, start, end, s) && k < |s.open| && s.open[k] != end
    ensures st.current == s.open[k] && StepOk(counted, walk, start, |s.closed| + 1, st)
  {
    InvArena(m, walk, start, end, s);
    RetraceIsPath(walk, s.parent, s.g, start, s.open[k]);
    RetraceSimple(s.parent, s.g, start, s.open[k]);
    Step(Retrace(s.parent, s.g, start, s.open[k]), Neighbors(walk, s.open[k]), s.open[k],
         Counter(counted, |s.closed|), Counter(counted, |s.closed| + 1))
  }

  /** One full iteration that does not meet the goal keeps the loop
      invariant and closes one more cell. */
  lemma Continue(m: Metric, counted: bool, walk: set<Pos>, start: Pos, end: Pos,
                 s: Search, trace: seq<Option<Step>>, k: nat)
    requires Running(m, counted, walk, start, end, s, trace) && k < |s.open| && s.open[k] != end
    ensures var t := Expand(m, walk, end, s, k);
            && Running(m, counted, walk, start, end, t, trace + [Some(ExpandedStep(m, counted, walk, start, end, s, k))])
            && |(walk + {start}) - t.closed| < |(walk + {start}) - s.closed|
  {
    var U := walk + {start};
    var t := Expand(m, walk, end, s, k);
    ExpandKeepsInv(m, walk, start, end, s, k);
    FaithfulSnoc(counted, walk, start, trace, ExpandedStep(m, counted, walk, start, end, s, k));
    assert s.open[k] in U - s.closed && s.open[k] !in U - t.closed;
    SubsetCard(U - t.closed, U - s.closed);
  }

  lemma InitialRunning(m: Metric, counted: bool, walk: set<Pos>, start: Pos, end: Pos)
    ensures Running(m, counted, walk, start, end, Initial(start), [])
  {
  }

  /** What a finished search promises. A found path is a walk from the start
      to the goal that lists no cell twice (not necessarily a shortest one);
      a start that is its own goal is found at once; otherwise the goal
      differs from the start and is unreachable. The report carries the
      path length, the completed iterations and the closed count, which
      includes the goal; the trace holds one faithful step per completed
      iteration and then the final step, or the bare yield of a failure. */
  ghost predicate Answers(counted: bool, name: string, walk: set<Pos>, start: Pos, end: Pos, o: Outcome)
  {
    && (o.found ==> PathFromTo(walk, o.path, start, end) && Simple(o.path))
    && (start == end ==> o.found && o.path == [start] && o.report.iterations == 0)
    && (!o.found ==> o.path == [] && start != end && Unreachable(walk, start, end))
    && o.report.algorithm == name && o.report.reachedTarget == o.found
    && o.report.pathLength == |o.path|
    && 0 <= o.report.iterations
    && o.report.nodesExplored == o.report.iterations + (if o.found then 1 else 0) <= |walk + {start}|
    && |o.trace| == o.report.iterations + 1
    && Faithful(counted, walk, start, o.trace[..o.report.iterations])
    && (o.found ==>
          o.trace[|o.trace|-1] == Some(Step(o.path, [], end, Counter(counted, o.report.iterations),
                                            Counter(counted, o.report.nodesExplored))))
    && (!o.found ==> o.trace[|o.trace|-1] == None)
  }

  /** The selected node is the goal: retrace, report and yield the final step. */
  method Succeed(m: Metric, counted: bool, name: string, walk: set<Pos>, start: Pos, end: Pos,
                 s: Search, trace: seq<Option<Step>>, k: nat) returns (o: Outcome)
    requires Running(m, counted, walk, start, end, s, trace) && k < |s.open| && s.open[k] == end
    ensures o.found && Answers(counted, name, walk, start, end, o)
  {
    GoalFound(m, walk, start, end, s, k);
    var path := Retrace(s.parent, s.g, start, end);
    var iterations := |s.closed|;
    var full := trace + [Some(Step(path, [], end, Counter(counted, iterations), Counter(counted, iterations + 1)))];
    assert full[..iterations] == trace;
    o := Outcome(full, true, path, Report(name, |path|, iterations + 1, iterations, true));
  }

  /** The open list ran dry: report failure and yield null. */
  method Fail(m: Metric, counted: bool, name: string, walk: set<Pos>, start: Pos, end: Pos,
              s: Search, trace: seq<Option<Step>>) returns (o: Outcome)
    requires Running(m, counted, walk, start, end, s, trace) && |s.open| == 0
    ensures !o.found && Answers(counted, name, walk, start, end, o)
  {
    Exhausted(m, walk, start, end, s);
    var full := trace + [None];
    assert full[..|trace|] == trace;
    o := Outcome(full, false, [], Report(name, 0, |s.closed|, |s.closed|, false));
  }

  /** The shared A* loop, with the coroutine flattened into the trace of
      yielded values and the figures it reports under `name`. */
  method FindPath(m: Metric, counted: bool, name: string, walk: set<Pos>, start: Pos, end: Pos) returns (o: Outcome)
    ensures Answers(counted, name, walk, start, end, o)
  {
    var s := Initial(start);
    var trace: seq<Option<Step>> := [];
    ghost var U := walk + {start};
    InitialRunning(m, counted, walk, start, end);
    while |s.open| > 0
      invariant Running(m, counted, walk, start, end, s, trace)
      decreases |U - s.closed|
    {
      var k := SelectFirstLeast(Keys(s));
      if s.open[k] == end {
        o := Succeed(m, counted, name, walk, start, end, s, trace, k);
        return;
      }
      var step := ExpandedStep(m, counted, walk, start, end, s, k);
      Continue(m, counted, walk, start, end, s, trace, k);
      s := Expand(m, walk, end, s, k);
      trace := trace + [Some(step)];
    }
    o := Fail(m, counted, name, walk, start, end, s, trace);
  }
}
