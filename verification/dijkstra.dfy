/** Algorithms/Dijkstra.cs: unit-cost Dijkstra over a node cache that holds
    one node per position. Nodes are created at distance int.MaxValue, the
    open list is scanned for the first smallest distance, the goal test runs
    when a node is selected (so a start that is its own goal succeeds at
    once), and relaxation only ever lowers a distance strictly. */
module Dijkstra {
  import opened Geometry
  import opened Options
  import opened GridOracle
  import opened Paths
  import opened Records
  import opened Sequences
  import opened Selection

  /** int.MaxValue: the distance every node is created with. */
  const INF: int := 2147483647

  /** The search state: the distance of every cached node, the parent links,
      the open list in insertion order and the closed set. */
  datatype Search = Search(cache: map<Pos, int>, parent: map<Pos, Pos>, open: seq<Pos>, closed: set<Pos>)

  /** The distance of the node GetNode hands out for `p`. */
  function Dist(cache: map<Pos, int>, p: Pos): int
  {
    if p in cache then cache[p] else INF
  }

  /** GetNode: the cached node of `p`, created at distance INF on first use. */
  function GetNode(cache: map<Pos, int>, p: Pos): (r: map<Pos, int>)
    ensures r.Keys == cache.Keys + {p}
    ensures forall q :: q in cache ==> r[q] == cache[q]
    ensures p !in cache ==> r[p] == INF
  {
    if p in cache then cache else cache[p := INF]
  }

  /** Asking again for the same position gives the same node, and creating a
      node changes no distance anybody can observe. */
  lemma GetNodeStable(cache: map<Pos, int>, p: Pos, q: Pos)
    ensures GetNode(GetNode(cache, p), p) == GetNode(cache, p)
    ensures Dist(GetNode(cache, p), q) == Dist(cache, q)
    ensures GetNode(cache, p)[p] == Dist(cache, p)
  {
  }

  /** The state before the loop: the start node at distance 0, the end node
      cached, and the start alone on the open list. */
  function Initial(start: Pos, end: Pos): (s: Search)
    ensures s.cache.Keys == {start, end} && s.cache[start] == 0
    ensures end != start ==> s.cache[end] == INF
    ensures s.open == [start] && s.closed == {} && s.parent == map[]
  {
    Search(GetNode(GetNode(map[], start)[start := 0], end), map[], [start], {})
  }

  /** Relaxing `n` from `cur` lowers its distance: it is not closed and
      `cur`'s distance plus one is strictly smaller than its own. */
  predicate Improves(s: Search, cur: Pos, n: Pos)
    requires cur in s.cache
  {
    n !in s.closed && s.cache[cur] + 1 < Dist(s.cache, n)
  }

  /** The body of the neighbour loop for one walkable neighbour `n`. */
  function RelaxOne(s: Search, cur: Pos, n: Pos): Search
    requires cur in s.cache
  {
    var c := GetNode(s.cache, n);
    if n in s.closed then s.(cache := c)
    else if s.cache[cur] + 1 < c[n] then
      Search(c[n := s.cache[cur] + 1], s.parent[n := cur],
             if n in s.open then s.open else s.open + [n], s.closed)
    else s.(cache := c)
  }

  /** The neighbours of `ns` that relaxation appends to the open list, in order. */
  function Joining(s: Search, cur: Pos, ns: seq<Pos>): seq<Pos>
    requires cur in s.cache
  {
    if ns == [] then []
    else (if Improves(s, cur, ns[0]) && ns[0] !in s.open then [ns[0]] else []) + Joining(s, cur, ns[1..])
  }

  /** The joining neighbours are exactly the improvable ones not yet open,
      each listed once when the neighbours are distinct. */
  lemma {:induction false} JoiningMembers(s: Search, cur: Pos, ns: seq<Pos>)
    requires cur in s.cache
    ensures forall v :: v in Joining(s, cur, ns) <==> v in ns && Improves(s, cur, v) && v !in s.open
    ensures (forall i, j :: 0 <= i < j < |ns| ==> ns[i] != ns[j]) ==>
              forall i, j :: 0 <= i < j < |Joining(s, cur, ns)| ==> Joining(s, cur, ns)[i] != Joining(s, cur, ns)[j]
  {
    if ns != [] {
      JoiningMembers(s, cur, ns[1..]);
      assert forall v :: v in ns <==> v == ns[0] || v in ns[1..];
      if (forall i, j :: 0 <= i < j < |ns| ==> ns[i] != ns[j]) {
        assert ns[0] !in ns[1..];
      }
    }
  }

  /** Which neighbours join the open list depends only on distances, the
      closed set and open-list membership. */
  lemma {:induction false} JoiningFrame(s: Search, t: Search, cur: Pos, ns: seq<Pos>)
    requires cur in s.cache && cur in t.cache && s.cache[cur] == t.cache[cur] && s.closed == t.closed
    requires forall v :: v in ns ==> Dist(s.cache, v) == Dist(t.cache, v) && (v in s.open <==> v in t.open)
    ensures Joining(s, cur, ns) == Joining(t, cur, ns)
  {
    if ns != [] {
      JoiningFrame(s, t, cur, ns[1..]);
    }
  }

  /** The effect of one neighbour in closed form. */
  lemma RelaxOneFacts(s: Search, cur: Pos, n: Pos)
    requires cur in s.cache && n != cur
    ensures var r := RelaxOne(s, cur, n);
            && r.closed == s.closed
            && r.cache.Keys == s.cache.Keys + {n}
            && r.cache[cur] == s.cache[cur]
            && (forall v :: v in r.cache ==>
                  r.cache[v] == if v == n && Improves(s, cur, v) then s.cache[cur] + 1 else Dist(s.cache, v))
            && (forall v :: v != n ==> Dist(r.cache, v) == Dist(s.cache, v) && (v in r.open <==> v in s.open))
            && (forall v :: v != n ==> (Improves(r, cur, v) <==> Improves(s, cur, v)))
            && (forall v :: v in r.parent <==> v in s.parent || (v == n && Improves(s, cur, v)))
            && (forall v :: v in r.parent ==> r.parent[v] == if v == n && Improves(s, cur, v) then cur else s.parent[v])
            && r.open == s.open + (if Improves(s, cur, n) && n !in s.open then [n] else [])
  {
  }

  /** One neighbour's effect on the open list. */
  lemma RelaxOneOpen(s: Search, cur: Pos, n: Pos)
    requires cur in s.cache && n != cur
    ensures var r := RelaxOne(s, cur, n);
            && r.closed == s.closed && cur in r.cache && r.cache[cur] == s.cache[cur]
            && (forall v :: v != n ==> Dist(r.cache, v) == Dist(s.cache, v) && (v in r.open <==> v in s.open))
            && r.open == s.open + (if Improves(s, cur, n) && n !in s.open then [n] else [])
  {
  }

  /** The neighbour loop of one expansion, one walkable neighbour at a time. */
  function Relax(s: Search, cur: Pos, ns: seq<Pos>): (r: Search)
    requires cur in s.cache
    ensures r.closed == s.closed
    decreases |ns|
  {
    if ns == [] then s
    else Relax(RelaxOne(s, cur, ns[0]), cur, ns[1..])
  }

  /** Over distinct neighbours other than `cur`, the loop caches a node for
      every neighbour and keeps `cur`'s distance. */
  lemma {:induction false} RelaxKeys(s: Search, cur: Pos, ns: seq<Pos>)
    requires cur in s.cache && cur !in ns
    ensures var r := Relax(s, cur, ns);
            && (forall v :: v in r.cache <==> v in s.cache || v in ns)
            && r.cache[cur] == s.cache[cur]
    decreases |ns|
  {
    if ns != [] {
      var n, rest := ns[0], ns[1..];
      var s1 := RelaxOne(s, cur, n);
      assert s1.cache.Keys == s.cache.Keys + {n} && cur in s1.cache && s1.cache[cur] == s.cache[cur] by {
        RelaxOneCache(s, cur, n);
      }
      assert cur !in rest;
      RelaxKeys(s1, cur, rest);
      var r := Relax(s1, cur, rest);
      assert Relax(s, cur, ns) == r;
      forall v
        ensures v in r.cache <==> v in s.cache || v in ns
      {
        assert v in ns <==> v == n || v in rest;
      }
    }
  }

  /** Over distinct neighbours other than `cur`, the loop's effect on the
      distances has a closed form: the improvable neighbours get `cur`'s
      distance plus one and no other distance changes. */
  lemma {:induction false} RelaxCache(s: Search, cur: Pos, ns: seq<Pos>)
    requires cur in s.cache && cur !in ns
    requires forall i, j :: 0 <= i < j < |ns| ==> ns[i] != ns[j]
    ensures var r := Relax(s, cur, ns);
            forall v :: v in r.cache ==>
              r.cache[v] == if v in ns && Improves(s, cur, v) then s.cache[cur] + 1 else Dist(s.cache, v)
    decreases |ns|
  {
    if ns != [] {
      var n, rest := ns[0], ns[1..];
      var s1 := RelaxOne(s, cur, n);
      RelaxOneCache(s, cur, n);
      assert n !in rest && forall v :: v in rest ==> v != n && v in ns;
      assert cur !in rest && forall i, j :: 0 <= i < j < |rest| ==> rest[i] != rest[j];
      RelaxCache(s1, cur, rest);
      var r := Relax(s1, cur, rest);
      assert Relax(s, cur, ns) == r;
      forall v | v in r.cache
        ensures r.cache[v] == if v in ns && Improves(s, cur, v) then s.cache[cur] + 1 else Dist(s.cache, v)
      {
        if v != n {
          assert Improves(s1, cur, v) <==> Improves(s, cur, v);
        }
      }
    }
  }

  /** The effect of one neighbour on the cache alone. */
  lemma RelaxOneCache(s: Search, cur: Pos, n: Pos)
    requires cur in s.cache && n != cur
    ensures var r := RelaxOne(s, cur, n);
            && r.cache.Keys == s.cache.Keys + {n}
            && cur in r.cache && r.cache[cur] == s.cache[cur]
            && n in r.cache && r.cache[n] == (if Improves(s, cur, n) then s.cache[cur] + 1 else Dist(s.cache, n))
            && (forall v :: v != n ==> Dist(r.cache, v) == Dist(s.cache, v))
            && (forall v :: v != n ==> (Improves(r, cur, v) <==> Improves(s, cur, v)))
  {
    RelaxOneFacts(s, cur, n);
  }

  /** The loop gives exactly the improvable neighbours `cur` as parent. */
  lemma {:induction false} RelaxParent(s: Search, cur: Pos, ns: seq<Pos>)
    requires cur in s.cache && cur !in ns
    requires forall i, j :: 0 <= i < j < |ns| ==> ns[i] != ns[j]
    ensures var r := Relax(s, cur, ns);
            && (forall v :: v in r.parent <==> v in s.parent || (v in ns && Improves(s, cur, v)))
            && (forall v :: v in r.parent ==>
                  r.parent[v] == if v in ns && Improves(s, cur, v) then cur else s.parent[v])
    decreases |ns|
  {
    if ns != [] {
      var s1 := RelaxOne(s, cur, ns[0]);
      RelaxOneFacts(s, cur, ns[0]);
      assert forall v :: v in ns[1..] ==> v != ns[0] && v in ns;
      assert forall v :: v in ns ==> v == ns[0] || v in ns[1..];
      RelaxParent(s1, cur, ns[1..]);
    }
  }

  /** The loop appends exactly the improvable neighbours not yet open, in
      neighbour order. */
  lemma {:induction false} RelaxOpen(s: Search, cur: Pos, ns: seq<Pos>)
    requires cur in s.cache && cur !in ns
    requires forall i, j :: 0 <= i < j < |ns| ==> ns[i] != ns[j]
    ensures Relax(s, cur, ns).open == s.open + Joining(s, cur, ns)
    decreases |ns|
  {
    if ns != [] {
      var n, rest := ns[0], ns[1..];
      var s1 := RelaxOne(s, cur, n);
      var head := if Improves(s, cur, n) && n !in s.open then [n] else [];
      assert s1.open == s.open + head && cur in s1.cache && s1.cache[cur] == s.cache[cur] by {
        RelaxOneOpen(s, cur, n);
      }
      assert Joining(s1, cur, rest) == Joining(s, cur, rest) by {
        RelaxOneOpen(s, cur, n);
        assert forall v :: v in rest ==> v != n;
        JoiningFrame(s, s1, cur, rest);
      }
      assert Joining(s, cur, ns) == head + Joining(s, cur, rest);
      assert Relax(s, cur, ns) == Relax(s1, cur, rest);
      assert cur !in rest && forall i, j :: 0 <= i < j < |rest| ==> rest[i] != rest[j] by {
        assert forall i :: 0 <= i < |rest| ==> rest[i] == ns[i + 1];
      }
      RelaxOpen(s1, cur, rest);
      Associative(s.open, head, Joining(s, cur, rest));
    }
  }

  /** The open list with the closed node `k` taken out and put on the closed set. */
  function Close(s: Search, k: nat): Search
    requires k < |s.open|
  {
    s.(open := s.open[..k] + s.open[k + 1..], closed := s.closed + {s.open[k]})
  }

  /** One non-goal iteration: close the selected node and relax its walkable
      neighbours in right, left, up, down order. */
  function Expand(walk: set<Pos>, s: Search, k: nat): Search
    requires k < |s.open| && s.open[k] in s.cache
  {
    Relax(Close(s, k), s.open[k], Neighbors(walk, s.open[k]))
  }

  /** The cells that join the open list when node `k` is expanded. */
  function Fresh(walk: set<Pos>, s: Search, k: nat): seq<Pos>
    requires k < |s.open| && s.open[k] in s.cache
  {
    Joining(Close(s, k), s.open[k], Neighbors(walk, s.open[k]))
  }

  /** The selection keys: distance first, nothing to break ties but list order. */
  function Keys(s: Search): (keys: seq<(int, int)>)
    requires forall v :: v in s.open ==> v in s.cache
    ensures |keys| == |s.open|
    ensures forall i :: 0 <= i < |s.open| ==> keys[i] == (s.cache[s.open[i]], 0)
  {
    seq(|s.open|, i requires 0 <= i < |s.open| => (s.cache[s.open[i]], 0))
  }

  /** A position has a node on the open list or in the closed set. */
  predicate Known(s: Search, v: Pos)
  {
    v in s.open || v in s.closed
  }

  /** Distances fit below the sentinel: the grid has fewer cells than int.MaxValue. */
  ghost predicate Small(walk: set<Pos>, start: Pos)
  {
    |walk + {start}| < INF
  }

  /** Every known position has a node in the cache. */
  ghost predicate Cached(s: Search)
  {
    forall v :: Known(s, v) ==> v in s.cache
  }

  /** The known positions are exactly the cached ones below INF, they lie on
      the grid's walkable cells or the start, and the start is known at 0. */
  ghost predicate Distances(walk: set<Pos>, start: Pos, s: Search)
  {
    && Cached(s)
    && start in s.cache && s.cache[start] == 0 && Known(s, start)
    && (forall v :: v in s.cache ==> 0 <= s.cache[v] <= INF)
    && (forall v :: Known(s, v) ==> s.cache[v] < INF)
    && (forall v :: v in s.cache && s.cache[v] < INF ==> Known(s, v))
    && (forall v :: Known(s, v) ==> v in walk + {start})
  }

  /** The open list is duplicate-free and disjoint from the closed set. */
  ghost predicate Lists(s: Search)
  {
    && (forall v :: v in s.closed ==> v !in s.open)
    && (forall i, j :: 0 <= i < j < |s.open| ==> s.open[i] != s.open[j])
  }

  /** Every known position but the start hangs off a closed parent one step
      and one unit of distance away. */
  ghost predicate Tree(walk: set<Pos>, start: Pos, s: Search)
    requires Cached(s)
  {
    && (forall v :: v in s.parent <==> Known(s, v) && v != start)
    && (forall v :: v in s.parent ==>
          && s.parent[v] in s.closed && v in walk && Adjacent(s.parent[v], v)
          && s.cache[v] == s.cache[s.parent[v]] + 1)
  }

  /** The bookkeeping, and the goal has not been closed. */
  ghost predicate Shape(walk: set<Pos>, start: Pos, end: Pos, s: Search)
  {
    Distances(walk, start, s) && Lists(s) && Tree(walk, start, s) && end !in s.closed
  }

  /** Unit-cost layering: open distances span at most one unit, closed
      distances never exceed open ones, and no distance exceeds the number of
      closed nodes. */
  ghost predicate Layered(s: Search)
    requires Cached(s)
  {
    && (forall i, j :: 0 <= i < |s.open| && 0 <= j < |s.open| ==> s.cache[s.open[i]] <= s.cache[s.open[j]] + 1)
    && (forall c, i :: c in s.closed && 0 <= i < |s.open| ==> s.cache[c] <= s.cache[s.open[i]])
    && (forall v :: Known(s, v) ==> s.cache[v] <= |s.closed|)
  }

  /** Every walkable neighbour of a closed node is known, at most one unit further. */
  ghost predicate Closure(walk: set<Pos>, s: Search)
    requires Cached(s)
  {
    forall u, w :: u in s.closed && w in walk && Adjacent(u, w) ==> Known(s, w) && s.cache[w] <= s.cache[u] + 1
  }

  ghost predicate Inv(walk: set<Pos>, start: Pos, end: Pos, s: Search)
  {
    && Shape(walk, start, end, s)
    && Layered(s)
    && (Small(walk, start) ==> Closure(walk, s))
  }

  /** Node `k` has the least distance on the open list. */
  ghost predicate Least(s: Search, k: int)
    requires forall v :: v in s.open ==> v in s.cache
  {
    0 <= k < |s.open| && forall i :: 0 <= i < |s.open| ==> s.cache[s.open[k]] <= s.cache[s.open[i]]
  }

  /** What expanding node `k` did, stated on the states alone. */
  ghost predicate Stepped(walk: set<Pos>, start: Pos, s: Search, k: int, t: Search, joined: seq<Pos>)
    requires 0 <= k < |s.open| && s.open[k] in s.cache
  {
    var cur := s.open[k];
    var m := s.cache[cur];
    && t.closed == s.closed + {cur}
    && t.open == s.open[..k] + s.open[k + 1..] + joined
    && (forall i, j :: 0 <= i < j < |joined| ==> joined[i] != joined[j])
    && (forall n :: n in joined ==> n in walk && Adjacent(cur, n) && !Known(s, n))
    && (Small(walk, start) ==> forall n :: n in walk && Adjacent(cur, n) && !Known(s, n) ==> n in joined)
    && (forall v :: v in s.cache && Known(s, v) ==> v in t.cache && t.cache[v] == s.cache[v])
    && (forall n :: n in joined ==> n in t.cache && t.cache[n] == m + 1 && m + 1 < INF)
    && (forall v :: v in t.cache && !Known(s, v) && v !in joined ==> t.cache[v] == INF)
    && (forall v :: v in t.parent <==> v in s.parent || v in joined)
    && (forall v :: v in s.parent ==> t.parent[v] == s.parent[v])
    && (forall n :: n in joined ==> t.parent[n] == cur)
  }

  /** Closing node `k` keeps every other open node open, in order. */
  lemma CloseOpen(s: Search, k: nat)
    requires k < |s.open|
    requires forall i, j :: 0 <= i < j < |s.open| ==> s.open[i] != s.open[j]
    ensures forall v :: v in Close(s, k).open <==> v in s.open && v != s.open[k]
    ensures forall i, j :: 0 <= i < j < |Close(s, k).open| ==> Close(s, k).open[i] != Close(s, k).open[j]
  {
    var o := Close(s, k).open;
    forall v | v in s.open && v != s.open[k] ensures v in o {
      var i :| 0 <= i < |s.open| && s.open[i] == v;
      if i < k { assert o[i] == v; } else { assert o[i - 1] == v; }
    }
    forall i, j | 0 <= i < j < |o| ensures o[i] != o[j] {
      var i' := if i < k then i else i + 1;
      var j' := if j < k then j else j + 1;
      assert o[i] == s.open[i'] && o[j] == s.open[j'];
    }
  }

  /** From the least open node, a walkable neighbour improves only if it is
      not yet known, and every unknown one improves when distances fit below
      the sentinel. */
  lemma NeighbourImproves(walk: set<Pos>, start: Pos, end: Pos, s: Search, k: nat, n: Pos)
    requires Inv(walk, start, end, s) && Least(s, k)
    requires n in walk && Adjacent(s.open[k], n)
    ensures Improves(Close(s, k), s.open[k], n) ==> !Known(s, n)
    ensures Small(walk, start) && !Known(s, n) ==> Improves(Close(s, k), s.open[k], n)
  {
    var cur := s.open[k];
    if n in s.open {
      var i :| 0 <= i < |s.open| && s.open[i] == n;
      assert s.cache[n] <= s.cache[cur] + 1;
    }
    if Small(walk, start) && !Known(s, n) {
      assert cur !in s.closed;
      SubsetCard(s.closed + {cur}, walk + {start});
      assert s.cache[cur] <= |s.closed|;
    }
  }

  /** The expansion in closed form, given which neighbours improve. */
  lemma ExpandCore(walk: set<Pos>, start: Pos, s: Search, k: nat)
    requires k < |s.open| && s.open[k] in s.cache
    requires forall i, j :: 0 <= i < j < |s.open| ==> s.open[i] != s.open[j]
    requires forall v :: !Known(s, v) ==> Dist(s.cache, v) == INF
    requires forall v :: v in s.parent ==> Known(s, v)
    requires forall n :: n in walk && Adjacent(s.open[k], n) ==>
               && (Improves(Close(s, k), s.open[k], n) ==> !Known(s, n))
               && (Small(walk, start) && !Known(s, n) ==> Improves(Close(s, k), s.open[k], n))
    ensures Stepped(walk, start, s, k, Expand(walk, s, k), Fresh(walk, s, k))
  {
    var cur := s.open[k];
    var s1 := Close(s, k);
    var ns := Neighbors(walk, cur);
    NeighborsDistinct(walk, cur);
    assert cur !in ns;
    RelaxKeys(s1, cur, ns);
    RelaxCache(s1, cur, ns);
    RelaxParent(s1, cur, ns);
    RelaxOpen(s1, cur, ns);
    JoiningMembers(s1, cur, ns);
    CloseOpen(s, k);
  }

  /** Relaxing from the least open node improves exactly the unknown
      neighbours (all of them when distances fit below the sentinel), so an
      expansion only ever adds fresh cells at one unit beyond it. */
  lemma ExpandStepped(walk: set<Pos>, start: Pos, end: Pos, s: Search, k: nat)
    requires Inv(walk, start, end, s) && Least(s, k)
    ensures Stepped(walk, start, s, k, Expand(walk, s, k), Fresh(walk, s, k))
  {
    forall n | n in walk && Adjacent(s.open[k], n)
      ensures Improves(Close(s, k), s.open[k], n) ==> !Known(s, n)
      ensures Small(walk, start) && !Known(s, n) ==> Improves(Close(s, k), s.open[k], n)
    {
      NeighbourImproves(walk, start, end, s, k, n);
    }
    ExpandCore(walk, start, s, k);
  }

  /** After an expansion the known positions are the old ones and the joined ones. */
  lemma StepKnown(walk: set<Pos>, start: Pos, s: Search, k: nat, t: Search, joined: seq<Pos>)
    requires k < |s.open| && s.open[k] in s.cache
    requires Stepped(walk, start, s, k, t, joined)
    ensures forall v :: Known(t, v) <==> Known(s, v) || v in joined
  {
    var cur := s.open[k];
    forall v ensures Known(t, v) <==> Known(s, v) || v in joined {
      if v in s.open && v != cur {
        var i :| 0 <= i < |s.open| && s.open[i] == v;
        if i < k { assert t.open[i] == v; } else { assert t.open[i - 1] == v; }
      }
    }
  }

  lemma StepDistances(walk: set<Pos>, start: Pos, s: Search, k: nat, t: Search, joined: seq<Pos>)
    requires Distances(walk, start, s) && k < |s.open|
    requires Stepped(walk, start, s, k, t, joined)
    requires forall v :: Known(t, v) <==> Known(s, v) || v in joined
    ensures Distances(walk, start, t)
  {
  }

  lemma StepLists(walk: set<Pos>, start: Pos, s: Search, k: nat, t: Search, joined: seq<Pos>)
    requires Lists(s) && k < |s.open| && s.open[k] in s.cache
    requires Stepped(walk, start, s, k, t, joined)
    ensures Lists(t)
  {
    var o := s.open[..k] + s.open[k + 1..];
    forall i, j | 0 <= i < j < |t.open| ensures t.open[i] != t.open[j] {
      var i' := if i < k then i else i + 1;
      var j' := if j < k then j else j + 1;
      if j < |o| {
        assert t.open[i] == s.open[i'] && t.open[j] == s.open[j'] && i' < j' < |s.open|;
      } else if i < |o| {
        assert t.open[i] == s.open[i'] && t.open[j] == joined[j - |o|];
        assert s.open[i'] in s.open && joined[j - |o|] in joined;
      } else {
        assert t.open[i] == joined[i - |o|] && t.open[j] == joined[j - |o|] && i - |o| < j - |o| < |joined|;
      }
    }
  }

  lemma StepTree(walk: set<Pos>, start: Pos, s: Search, k: nat, t: Search, joined: seq<Pos>)
    requires Distances(walk, start, s) && Tree(walk, start, s) && k < |s.open|
    requires Stepped(walk, start, s, k, t, joined)
    requires Cached(t) && forall v :: Known(t, v) <==> Known(s, v) || v in joined
    ensures Tree(walk, start, t)
  {
  }

  /** An expansion of a node other than the goal keeps the bookkeeping. */
  lemma StepShape(walk: set<Pos>, start: Pos, end: Pos, s: Search, k: nat, t: Search, joined: seq<Pos>)
    requires Shape(walk, start, end, s) && k < |s.open| && s.open[k] != end
    requires Stepped(walk, start, s, k, t, joined)
    ensures Shape(walk, start, end, t)
  {
    StepKnown(walk, start, s, k, t, joined);
    StepDistances(walk, start, s, k, t, joined);
    StepLists(walk, start, s, k, t, joined);
    StepTree(walk, start, s, k, t, joined);
  }

  /** After expanding the least open node, every open distance lies within
      one unit above it. */
  lemma StepBand(walk: set<Pos>, start: Pos, s: Search, k: nat, t: Search, joined: seq<Pos>)
    requires Cached(s) && Least(s, k)
    requires forall i :: 0 <= i < |s.open| ==> s.cache[s.open[i]] <= s.cache[s.open[k]] + 1
    requires Stepped(walk, start, s, k, t, joined)
    ensures forall i :: 0 <= i < |t.open| ==>
              (t.open[i] in t.cache && s.cache[s.open[k]] <= t.cache[t.open[i]] <= s.cache[s.open[k]] + 1)
  {
    var o := s.open[..k] + s.open[k + 1..];
    forall i | 0 <= i < |t.open|
      ensures t.open[i] in t.cache && s.cache[s.open[k]] <= t.cache[t.open[i]] <= s.cache[s.open[k]] + 1
    {
      if i < |o| {
        var i' := if i < k then i else i + 1;
        assert t.open[i] == s.open[i'];
      } else {
        assert t.open[i] == joined[i - |o|];
      }
    }
  }

  /** ... and the unit-cost layering. */
  lemma StepLayered(walk: set<Pos>, start: Pos, s: Search, k: nat, t: Search, joined: seq<Pos>)
    requires Cached(s) && Layered(s) && Lists(s) && Least(s, k)
    requires Stepped(walk, start, s, k, t, joined)
    requires Cached(t) && forall v :: Known(t, v) <==> Known(s, v) || v in joined
    ensures Layered(t)
  {
    var m := s.cache[s.open[k]];
    StepBand(walk, start, s, k, t, joined);
    assert |t.closed| == |s.closed| + 1;
    assert forall c :: c in t.closed ==> t.cache[c] <= m;
  }

  /** ... and, when distances fit, the closure of the closed set. */
  lemma StepClosure(walk: set<Pos>, start: Pos, s: Search, k: nat, t: Search, joined: seq<Pos>)
    requires Cached(s) && Layered(s) && Closure(walk, s) && Least(s, k) && Small(walk, start)
    requires Stepped(walk, start, s, k, t, joined)
    requires Cached(t) && forall v :: Known(t, v) <==> Known(s, v) || v in joined
    ensures Closure(walk, t)
  {
    var cur := s.open[k];
    forall w | w in walk && Adjacent(cur, w) && w in s.open ensures s.cache[w] <= s.cache[cur] + 1 {
      var i :| 0 <= i < |s.open| && s.open[i] == w;
    }
  }

  /** Expanding the least open node other than the goal keeps the search
      invariant and closes exactly that node. */
  lemma ExpandKeepsInv(walk: set<Pos>, start: Pos, end: Pos, s: Search, k: nat)
    requires Inv(walk, start, end, s) && Least(s, k) && s.open[k] != end
    ensures var t := Expand(walk, s, k);
            Inv(walk, start, end, t) && t.closed == s.closed + {s.open[k]} && s.open[k] !in s.closed
  {
    var t := Expand(walk, s, k);
    var joined := Fresh(walk, s, k);
    ExpandStepped(walk, start, end, s, k);
    StepShape(walk, start, end, s, k, t, joined);
    StepKnown(walk, start, s, k, t, joined);
    StepLayered(walk, start, s, k, t, joined);
    if Small(walk, start) {
      StepClosure(walk, start, s, k, t, joined);
    }
  }

  /** Under the invariant the parents are ranked by distance and linked by
      grid steps, so paths can be retraced from any known position. */
  lemma InvArena(walk: set<Pos>, start: Pos, end: Pos, s: Search)
    requires Inv(walk, start, end, s)
    ensures Ranked(s.parent, s.cache, start) && Linked(walk, s.parent) && start !in s.parent
    ensures forall v :: v in s.parent ==> s.cache[v] == s.cache[s.parent[v]] + 1
    ensures forall v :: Known(s, v) ==> v == start || v in s.parent
  {
  }

  /** A known cell's cached distance is the number of steps on its retraced
      path, so the path handed back for a goal has Distance + 1 cells. */
  lemma DistanceIsLength(walk: set<Pos>, start: Pos, end: Pos, s: Search, v: Pos)
    requires Inv(walk, start, end, s)
    requires v == start || v in s.parent
    ensures v in s.cache && s.cache[v] == |Retrace(s.parent, s.cache, start, v)| - 1
  {
    InvArena(walk, start, end, s);
    RetraceLength(s.parent, s.cache, start, v, 1);
  }

  /** Distances of closed cells are walk lengths from the start, and any
      walk from the start that ends outside the closed set is at least as
      long as the least open distance `m`. */
  lemma {:induction false} Reach(walk: set<Pos>, start: Pos, end: Pos, s: Search, k: nat, q: seq<Pos>)
    requires Inv(walk, start, end, s) && Small(walk, start) && Least(s, k)
    requires IsWalk(walk, q) && q[0] == start
    ensures q[|q|-1] in s.closed ==> s.cache[q[|q|-1]] <= |q| - 1
    ensures q[|q|-1] !in s.closed ==> s.cache[s.open[k]] <= |q| - 1
  {
    var m := s.cache[s.open[k]];
    var x := q[|q|-1];
    if |q| == 1 {
      if x !in s.closed {
        var i :| 0 <= i < |s.open| && s.open[i] == x;
      }
    } else {
      var p := q[..|q|-1];
      assert IsWalk(walk, p) by {
        forall i | 1 <= i < |p| ensures p[i] in walk && Adjacent(p[i-1], p[i]) {
          assert p[i] == q[i] && p[i-1] == q[i-1];
        }
      }
      Reach(walk, start, end, s, k, p);
      var y := p[|p|-1];
      assert y == q[|q|-2] && x in walk && Adjacent(y, x);
      if y in s.closed {
        if x !in s.closed {
          var i :| 0 <= i < |s.open| && s.open[i] == x;
        }
      } else if x in s.closed {
        assert s.cache[x] <= m;
      }
    }
  }

  /** The goal is the least open node: its retraced path is a walk from the
      start, and a shortest one when distances fit below the sentinel. */
  lemma GoalFound(walk: set<Pos>, start: Pos, end: Pos, s: Search, k: nat)
    requires Inv(walk, start, end, s) && Least(s, k) && s.open[k] == end
    ensures Ranked(s.parent, s.cache, start) && (end == start || end in s.parent)
    ensures PathFromTo(walk, Retrace(s.parent, s.cache, start, end), start, end)
    ensures Small(walk, start) ==> Shortest(walk, Retrace(s.parent, s.cache, start, end), start, end)
    ensures |s.closed| + 1 <= |walk + {start}|
  {
    InvArena(walk, start, end, s);
    RetraceIsPath(walk, s.parent, s.cache, start, end);
    var path := Retrace(s.parent, s.cache, start, end);
    if Small(walk, start) {
      RetraceLength(s.parent, s.cache, start, end, 1);
      forall q | PathFromTo(walk, q, start, end) ensures |path| <= |q| {
        Reach(walk, start, end, s, k, q);
      }
    }
    SubsetCard(s.closed + {end}, walk + {start});
  }

  /** The open list ran dry: the start was closed and the goal never was, and
      when distances fit the closed set is closed under walkable neighbours,
      so the goal is unreachable. */
  lemma Exhausted(walk: set<Pos>, start: Pos, end: Pos, s: Search)
    requires Inv(walk, start, end, s) && |s.open| == 0
    ensures start != end && 1 <= |s.closed| <= |walk + {start}|
    ensures Small(walk, start) ==> Unreachable(walk, start, end)
  {
    if Small(walk, start) {
      forall q | PathFromTo(walk, q, start, end) ensures false {
        WalkStaysIn(walk, s.closed, q);
      }
    }
    SubsetCard(s.closed, walk + {start});
  }

  /** A yielded step of iteration `i`: a walk from the start to its cell,
      listing all walkable neighbours of the cell, with the iteration count. */
  ghost predicate StepOk(walk: set<Pos>, start: Pos, i: int, st: Step)
  {
    && PathFromTo(walk, st.path, start, st.current)
    && st.neighbors == Neighbors(walk, st.current)
    && st.iterations == Some(i) && st.explored.None?
  }

  /** Step `i` (from 1) of the trace is faithful. */
  ghost predicate Faithful(walk: set<Pos>, start: Pos, t: seq<Option<Step>>)
  {
    t == [] ||
      (&& Faithful(walk, start, t[..|t|-1])
       && t[|t|-1].Some?
       && StepOk(walk, start, |t|, t[|t|-1].value))
  }

  lemma FaithfulSnoc(walk: set<Pos>, start: Pos, t: seq<Option<Step>>, st: Step)
    requires Faithful(walk, start, t) && StepOk(walk, start, |t| + 1, st)
    ensures Faithful(walk, start, t + [Some(st)])
  {
    assert (t + [Some(st)])[..|t|] == t;
  }

  /** The recursive definition unrolled: the step at index `i` is iteration `i + 1`. */
  lemma {:induction false} FaithfulAt(walk: set<Pos>, start: Pos, t: seq<Option<Step>>, i: nat)
    requires Faithful(walk, start, t) && i < |t|
    ensures t[i].Some? && StepOk(walk, start, i + 1, t[i].value)
    decreases |t|
  {
    if i < |t| - 1 {
      FaithfulAt(walk, start, t[..|t|-1], i);
    }
  }

  /** The loop invariant of FindPath: one faithful step per closed node. */
  ghost predicate Running(walk: set<Pos>, start: Pos, end: Pos, s: Search, trace: seq<Option<Step>>)
  {
    Inv(walk, start, end, s) && |trace| == |s.closed| && Faithful(walk, start, trace)
  }

  /** The step yielded after relaxing the neighbours of node `k`. */
  function ExpandedStep(walk: set<Pos>, start: Pos, end: Pos, s: Search, k: nat): (st: Step)
    requires Inv(walk, start, end, s) && Least(s, k) && s.open[k] != end
    ensures st.current == s.open[k] && StepOk(walk, start, |s.closed| + 1, st)
  {
    var t := Expand(walk, s, k);
    ExpandKeepsInv(walk, start, end, s, k);
    InvArena(walk, start, end, t);
    RetraceIsPath(walk, t.parent, t.cache, start, s.open[k]);
    Step(Retrace(t.parent, t.cache, start, s.open[k]), Neighbors(walk, s.open[k]), s.open[k], Some(|s.closed| + 1), None)
  }

  /** One full iteration that does not meet the goal keeps the loop
      invariant and closes one more cell. */
  lemma Continue(walk: set<Pos>, start: Pos, end: Pos, s: Search, trace: seq<Option<Step>>, k: nat)
    requires Running(walk, start, end, s, trace) && Least(s, k) && s.open[k] != end
    ensures var t := Expand(walk, s, k);
            && Running(walk, start, end, t, trace + [Some(ExpandedStep(walk, start, end, s, k))])
            && |(walk + {start}) - t.closed| < |(walk + {start}) - s.closed|
  {
    var U := walk + {start};
    var t := Expand(walk, s, k);
    ExpandKeepsInv(walk, start, end, s, k);
    FaithfulSnoc(walk, start, trace, ExpandedStep(walk, start, end, s, k));
    assert s.open[k] in U - s.closed && s.open[k] !in U - t.closed;
    SubsetCard(U - t.closed, U - s.closed);
  }

  /** The initial state keeps the invariant with an empty trace. */
  lemma InitialRunning(walk: set<Pos>, start: Pos, end: Pos)
    ensures Running(walk, start, end, Initial(start, end), [])
  {
    var s := Initial(start, end);
    assert forall v :: Known(s, v) <==> v == start;
  }

  /** What a finished search promises. A found path is a walk from the start
      to the goal, and a shortest one when the grid has fewer cells than
      int.MaxValue; otherwise the goal differs from the start and, on such a
      grid, is unreachable. The report carries the path length, the
      iteration count (between 1 and the number of reachable cells) and the
      closed count, which leaves out the goal; the trace holds one faithful
      step per non-goal iteration and, on success, the final path. */
  ghost predicate Answers(walk: set<Pos>, start: Pos, end: Pos, o: Outcome)
  {
    && (o.found ==> PathFromTo(walk, o.path, start, end))
    && (o.found && Small(walk, start) ==> Shortest(walk, o.path, start, end))
    && (!o.found ==> o.path == [] && start != end)
    && (!o.found && Small(walk, start) ==> Unreachable(walk, start, end))
    && o.report.algorithm == "Dijkstra" && o.report.reachedTarget == o.found
    && o.report.pathLength == |o.path|
    && 1 <= o.report.iterations <= |walk + {start}|
    && o.report.nodesExplored == o.report.iterations - (if o.found then 1 else 0)
    && |o.trace| == o.report.iterations
    && Faithful(walk, start, o.trace[..o.report.nodesExplored])
    && (o.found ==> o.trace[|o.trace|-1] == Some(Step(o.path, [], end, Some(o.report.iterations), None)))
  }

  /** The selection scan: the first open node of least distance (a later
      node replaces the current pick only when strictly nearer). */
  method SelectCurrent(s: Search) returns (k: nat)
    requires Cached(s) && |s.open| > 0
    ensures Least(s, k)
    ensures forall i :: 0 <= i < k ==> s.cache[s.open[k]] < s.cache[s.open[i]]
  {
    var keys := Keys(s);
    k := SelectFirstLeast(keys);
    FirstLeastPrimary(keys, k);
  }

  /** The least open node is the goal: retrace, yield the final step and report. */
  method Succeed(walk: set<Pos>, start: Pos, end: Pos, s: Search, trace: seq<Option<Step>>, k: nat) returns (o: Outcome)
    requires Running(walk, start, end, s, trace) && Least(s, k) && s.open[k] == end
    ensures o.found && Answers(walk, start, end, o)
  {
    GoalFound(walk, start, end, s, k);
    var path := Retrace(s.parent, s.cache, start, end);
    var iterations := |s.closed| + 1;
    var full := trace + [Some(Step(path, [], end, Some(iterations), None))];
    assert full[..|s.closed|] == trace;
    o := Outcome(full, true, path, Report("Dijkstra", |path|, |s.closed|, iterations, true));
  }

  /** The open list ran dry without meeting the goal. */
  method Fail(walk: set<Pos>, start: Pos, end: Pos, s: Search, trace: seq<Option<Step>>) returns (o: Outcome)
    requires Running(walk, start, end, s, trace) && |s.open| == 0
    ensures !o.found && Answers(walk, start, end, o)
  {
    Exhausted(walk, start, end, s);
    assert trace[..|trace|] == trace;
    o := Outcome(trace, false, [], Report("Dijkstra", 0, |s.closed|, |s.closed|, false));
  }

  /** Dijkstra.FindPath, with the coroutine flattened into the trace of
      yielded steps and the analytics tuple it logs. */
  method FindPath(walk: set<Pos>, start: Pos, end: Pos) returns (o: Outcome)
    ensures Answers(walk, start, end, o)
  {
    var s := Initial(start, end);
    var trace: seq<Option<Step>> := [];
    ghost var U := walk + {start};
    InitialRunning(walk, start, end);
    while |s.open| > 0
      invariant Running(walk, start, end, s, trace)
      decreases |U - s.closed|
    {
      var k := SelectCurrent(s);
      if s.open[k] == end {
        o := Succeed(walk, start, end, s, trace, k);
        return;
      }
      var step := ExpandedStep(walk, start, end, s, k);
      Continue(walk, start, end, s, trace, k);
      s := Expand(walk, s, k);
      trace := trace + [Some(step)];
    }
    o := Fail(walk, start, end, s, trace);
  }
}
