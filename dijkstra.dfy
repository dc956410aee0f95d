/**
 * Single-source shortest paths by Dijkstra's algorithm over an adjacency
 * list, driven by the min-heap priority queue with lazy deletion: instead of
 * lowering the priority of a queued node, a relaxation pushes a fresh entry,
 * and an entry popped for a node that is already settled is discarded.
 *
 * Distances are unbounded integers; `Inf` stands for the INT_MAX marker of
 * a node that has not been reached.  Predecessors are node indices, -1 for
 * "none".
 */
module ShortestPaths {
  import opened Graph
  import opened PriorityQueue

  /** A tentative distance: unreached, or a finite cost. */
  datatype Dist = Inf | Fin(d: int)

  datatype Option<T> = None | Some(value: T)

  /** `x` is strictly below `dist`; every integer is below `Inf`. */
  predicate Below(x: int, dist: Dist) {
    dist.Inf? || x < dist.d
  }

  // ---------------------------------------------------------------------
  // Walks through the graph and the distances they define
  // ---------------------------------------------------------------------

  /**
   * The node sequence `p` is a walk through `g` whose edges, for some choice
   * among parallel edges, cost `cost` in total.
   */
  ghost predicate Walk(g: Adjacency, p: seq<int>, cost: int)
    decreases |p|
  {
    if |p| == 0 then false
    else if |p| == 1 then 0 <= p[0] < |g| && cost == 0
    else
      var a, b := p[|p| - 2], p[|p| - 1];
      && 0 <= a < |g|
      && exists k :: 0 <= k < |g[a]| && g[a][k].dest == b && Walk(g, p[..|p| - 1], cost - g[a][k].cost)
  }

  /** Some walk leads from `s` to `v`. */
  ghost predicate Reachable(g: Adjacency, s: int, v: int) {
    exists p, c :: 0 < |p| && Walk(g, p, c) && p[0] == s && p[|p| - 1] == v
  }

  /** No walk from `s` to `v` costs less than `d`. */
  ghost predicate LowerBound(g: Adjacency, s: int, v: int, d: int) {
    forall p, c :: 0 < |p| && Walk(g, p, c) && p[0] == s && p[|p| - 1] == v ==> d <= c
  }

  /** `g` has an edge from `u` to `v` of cost `cost`. */
  ghost predicate HasEdge(g: Adjacency, u: int, v: int, cost: int)
    requires 0 <= u < |g|
  {
    exists k :: 0 <= k < |g[u]| && g[u][k] == Edge(v, cost)
  }

  // ---------------------------------------------------------------------
  // Path reconstruction
  // ---------------------------------------------------------------------

  /** Every predecessor link is a node index or -1. */
  ghost predicate PrevLinks(prev: seq<int>) {
    forall v :: 0 <= v < |prev| ==> -1 <= prev[v] < |prev|
  }

  /**
   * The nodes from `start` to `v` found by following predecessor links back
   * from `v`, taking at most `fuel` links: `[start]` when `v` is `start`, no
   * path when a link is missing (or the links run out of fuel), and
   * otherwise the path to `prev[v]` followed by `v`.
   */
  function PathWithin(start: int, v: int, prev: seq<int>, fuel: nat): (r: Option<seq<int>>)
    requires 0 <= v < |prev|
    requires PrevLinks(prev)
    ensures r.Some? ==> 0 < |r.value| && r.value[0] == start && r.value[|r.value| - 1] == v
    ensures r.Some? ==> forall i :: 0 <= i < |r.value| ==> 0 <= r.value[i] < |prev|
    ensures r.Some? ==> forall i :: 0 < i < |r.value| ==> 0 <= r.value[i] < |prev| && prev[r.value[i]] == r.value[i - 1]
    decreases fuel
  {
    if v == start then Some([start])
    else if prev[v] == -1 then None
    else if fuel == 0 then None
    else
      match PathWithin(start, prev[v], prev, fuel - 1)
      case None => None
      case Some(p) => Some(p + [v])
  }

  /**
   * The path that is printed for `v`: the node sequence from `start` to `v`
   * along predecessor links, or no path.  The walk follows at most one link
   * per node.
   */
  function PrintPath(start: int, v: int, prev: seq<int>): (r: Option<seq<int>>)
    requires 0 <= v < |prev|
    requires PrevLinks(prev)
    ensures v == start ==> r == Some([start])
    ensures v != start && prev[v] == -1 ==> r == None
    ensures r.Some? ==> 0 < |r.value| && r.value[0] == start && r.value[|r.value| - 1] == v
    ensures r.Some? ==> forall i :: 0 < i < |r.value| ==> 0 <= r.value[i] < |prev| && prev[r.value[i]] == r.value[i - 1]
  {
    PathWithin(start, v, prev, |prev|)
  }

  // ---------------------------------------------------------------------
  // The state of the engine between steps
  // ---------------------------------------------------------------------

  /**
   * A snapshot of the engine: the tentative distances, the predecessors,
   * the settled nodes and the entries of the priority queue, together with
   * bookkeeping that exists only for the proof: the nodes not yet settled,
   * the order `rank` in which nodes were settled, the priority `floor` of
   * the entry settled last, the node `u` whose edges are being relaxed (-1
   * between nodes) and the number `done` of its edges already relaxed.
   */
  datatype State = State(dist: seq<Dist>, prev: seq<int>, vis: seq<bool>, queue: multiset<Entry<int>>,
                         unvisited: set<int>, rank: seq<int>, floor: int, u: int, done: int)

  ghost predicate Sized(g: Adjacency, s: int, st: State) {
    && WellFormed(g)
    && 0 <= s < |g|
    && |st.dist| == |g| && |st.prev| == |g| && |st.vis| == |g| && |st.rank| == |g|
  }

  /**
   * What holds of node `v`:
   *  - it is unsettled exactly when it is in `unvisited`; once settled it has
   *    a finite distance, a rank below the number of settled nodes and (with
   *    non-negative costs) a distance no greater than `floor`;
   *  - the start node has distance 0 and no predecessor; any other node has
   *    a predecessor exactly when its distance is finite, and then the
   *    predecessor is settled, settled earlier than `v` if `v` is, and joined
   *    to `v` by an edge whose cost is the difference of their distances;
   *  - if it is reached but unsettled, an entry carrying its distance is queued;
   *  - if it is settled, its edges (only the first `done` when it is `u`)
   *    lead to nodes with a finite distance, no greater than the distance
   *    through the edge when costs are non-negative.
   */
  ghost predicate NodeInv(g: Adjacency, s: int, st: State, v: int)
    requires Sized(g, s, st) && 0 <= v < |g|
  {
    && (v in st.unvisited <==> !st.vis[v])
    && (st.vis[v] ==>
          && st.dist[v].Fin? && 0 <= st.rank[v] < |g| - |st.unvisited|
          && (NonNegative(g) ==> st.dist[v].d <= st.floor))
    && -1 <= st.prev[v] < |g|
    && (v == s ==> st.dist[v] == Fin(0) && st.prev[v] == -1)
    && (v != s ==> (st.dist[v].Inf? <==> st.prev[v] == -1))
    && (v != s && st.dist[v].Fin? ==>
          && 0 <= st.prev[v] && st.vis[st.prev[v]] && st.dist[st.prev[v]].Fin?
          && HasEdge(g, st.prev[v], v, st.dist[v].d - st.dist[st.prev[v]].d)
          && (st.vis[v] ==> st.rank[st.prev[v]] < st.rank[v]))
    && (!st.vis[v] && st.dist[v].Fin? ==> Entry(v, st.dist[v].d) in st.queue)
    && (st.vis[v] ==>
          forall k :: 0 <= k < |g[v]| && (v == st.u ==> k < st.done) ==>
            && st.dist[g[v][k].dest].Fin?
            && (NonNegative(g) ==> st.dist[g[v][k].dest].d <= st.dist[v].d + g[v][k].cost))
  }

  /**
   * A queue entry names a node whose distance is at most the entry's
   * priority, and (with non-negative costs) no entry lies below `floor`.
   */
  ghost predicate EntryInv(g: Adjacency, dist: seq<Dist>, floor: int, e: Entry<int>) {
    && 0 <= e.value < |dist| && dist[e.value].Fin? && dist[e.value].d <= e.priority
    && (NonNegative(g) ==> floor <= e.priority)
  }

  /** The invariant of the main loop. */
  ghost predicate Inv(g: Adjacency, s: int, st: State) {
    && Sized(g, s, st)
    && |st.unvisited| <= |g|
    && (forall x :: x in st.unvisited ==> 0 <= x < |g|)
    && (st.vis[s] || st.queue == multiset{Entry(s, 0)})
    && (forall v :: 0 <= v < |g| ==> NodeInv(g, s, st, v))
    && (forall e {:trigger EntryInv(g, st.dist, st.floor, e)} :: e in st.queue ==> EntryInv(g, st.dist, st.floor, e))
    && (st.u == -1 ==> st.done == 0)
    && (st.u != -1 ==>
          && 0 <= st.u < |g| && st.vis[st.u] && st.vis[s] && 0 <= st.done <= |g[st.u]|
          && (NonNegative(g) ==> st.dist[st.u].Fin? && st.dist[st.u].d == st.floor))
  }

  /** The state after initialisation, with only the start node queued, satisfies the invariant. */
  lemma InitEstablishes(g: Adjacency, s: int, st: State)
    requires WellFormed(g) && 0 <= s < |g|
    requires |st.dist| == |g| && |st.prev| == |g| && |st.vis| == |g| && |st.rank| == |g|
    requires forall v :: 0 <= v < |g| ==> st.dist[v] == (if v == s then Fin(0) else Inf)
    requires forall v :: 0 <= v < |g| ==> st.prev[v] == -1 && !st.vis[v]
    requires st.queue == multiset{Entry(s, 0)}
    requires |st.unvisited| == |g|
    requires forall x :: x in st.unvisited <==> 0 <= x < |g|
    requires st.floor == 0 && st.u == -1 && st.done == 0
    ensures Inv(g, s, st)
  {
    assert EntryInv(g, st.dist, st.floor, Entry(s, 0));
  }

  /** Discarding a popped entry of a settled node keeps the invariant. */
  lemma PopSettled(g: Adjacency, s: int, st: State, root: Entry<int>)
    requires Inv(g, s, st) && st.u == -1
    requires root in st.queue
    requires 0 <= root.value < |g| && st.vis[root.value]
    ensures Inv(g, s, st.(queue := st.queue - multiset{root}))
  {
    var st' := st.(queue := st.queue - multiset{root});
    forall v | 0 <= v < |g|
      ensures NodeInv(g, s, st', v)
    {
      assert NodeInv(g, s, st, v);
    }
    forall e | e in st'.queue
      ensures EntryInv(g, st'.dist, st'.floor, e)
    {
      assert EntryInv(g, st.dist, st.floor, e);
    }
  }

  /**
   * Popping the least entry of a node that is not yet settled: its priority
   * is the node's distance, and settling it keeps the invariant.
   */
  lemma PopUnsettled(g: Adjacency, s: int, st: State, root: Entry<int>)
    requires Inv(g, s, st) && st.u == -1
    requires root in st.queue
    requires forall e :: e in st.queue ==> root.priority <= e.priority
    requires 0 <= root.value < |g| && !st.vis[root.value]
    ensures st.dist[root.value] == Fin(root.priority) && root.value in st.unvisited
    ensures Inv(g, s, Settle(g, st, root))
  {
    var u := root.value;
    var st' := Settle(g, st, root);
    assert NodeInv(g, s, st, u);
    assert EntryInv(g, st.dist, st.floor, root);
    assert Entry(u, st.dist[u].d) in st.queue;
    forall v | 0 <= v < |g|
      ensures NodeInv(g, s, st', v)
    {
      assert NodeInv(g, s, st, v);
      if v == u && v != s && st.dist[v].Fin? {
        assert NodeInv(g, s, st, st.prev[v]);
      }
    }
    forall e | e in st'.queue
      ensures EntryInv(g, st'.dist, st'.floor, e)
    {
      assert EntryInv(g, st.dist, st.floor, e);
    }
  }

  /** The state once the popped entry `root` settles its node. */
  ghost function Settle(g: Adjacency, st: State, root: Entry<int>): (st': State)
    requires 0 <= root.value < |st.vis| && |st.rank| == |st.vis|
    ensures |st'.vis| == |st.vis| && st'.vis[root.value] && root.value !in st'.unvisited
  {
    st.(vis := st.vis[root.value := true], queue := st.queue - multiset{root},
        unvisited := st.unvisited - {root.value}, rank := st.rank[root.value := |g| - |st.unvisited|],
        floor := root.priority, u := root.value, done := 0)
  }

  /**
   * Relaxing edge `done` of `u` towards a node `v` that is not settled,
   * when it gives `v` a smaller distance: `v` gets the new distance and `u`
   * as predecessor, and a fresh entry for `v` is queued.
   */
  lemma Relax(g: Adjacency, s: int, st: State)
    requires Inv(g, s, st)
    requires st.u != -1 && st.done < |g[st.u]|
    requires !st.vis[g[st.u][st.done].dest] && st.dist[st.u].Fin?
    requires Below(st.dist[st.u].d + g[st.u][st.done].cost, st.dist[g[st.u][st.done].dest])
    ensures
      var v, d := g[st.u][st.done].dest, st.dist[st.u].d + g[st.u][st.done].cost;
      Inv(g, s, st.(dist := st.dist[v := Fin(d)], prev := st.prev[v := st.u],
                    queue := st.queue + multiset{Entry(v, d)}, done := st.done + 1))
  {
    var u, v, d := st.u, g[st.u][st.done].dest, st.dist[st.u].d + g[st.u][st.done].cost;
    var st' := st.(dist := st.dist[v := Fin(d)], prev := st.prev[v := u],
                   queue := st.queue + multiset{Entry(v, d)}, done := st.done + 1);
    forall w | 0 <= w < |g|
      ensures NodeInv(g, s, st', w)
    {
      RelaxNode(g, s, st, st', w);
    }
    forall e | e in st'.queue
      ensures EntryInv(g, st'.dist, st'.floor, e)
    {
      if e != Entry(v, d) {
        assert EntryInv(g, st.dist, st.floor, e);
      }
    }
  }

  /** Relaxing edge `done` of `u` keeps what holds of each single node `w`. */
  lemma RelaxNode(g: Adjacency, s: int, st: State, st': State, w: int)
    requires Inv(g, s, st)
    requires st.u != -1 && st.done < |g[st.u]|
    requires !st.vis[g[st.u][st.done].dest] && st.dist[st.u].Fin?
    requires Below(st.dist[st.u].d + g[st.u][st.done].cost, st.dist[g[st.u][st.done].dest])
    requires
      var v, d := g[st.u][st.done].dest, st.dist[st.u].d + g[st.u][st.done].cost;
      st' == st.(dist := st.dist[v := Fin(d)], prev := st.prev[v := st.u],
                 queue := st.queue + multiset{Entry(v, d)}, done := st.done + 1)
    requires 0 <= w < |g|
    ensures Sized(g, s, st') && NodeInv(g, s, st', w)
  {
    var u, v, d := st.u, g[st.u][st.done].dest, st.dist[st.u].d + g[st.u][st.done].cost;
    assert NodeInv(g, s, st, v);
    assert NodeInv(g, s, st, w);
    if w == v {
      assert HasEdge(g, u, v, d - st.dist[u].d) by {
        assert g[u][st.done] == Edge(v, d - st.dist[u].d);
      }
    }
  }

  /** Leaving edge `done` of `u` alone, when it does not improve its target, keeps the invariant. */
  lemma NoRelax(g: Adjacency, s: int, st: State)
    requires Inv(g, s, st)
    requires st.u != -1 && st.done < |g[st.u]|
    requires !(!st.vis[g[st.u][st.done].dest] && st.dist[st.u].Fin?
               && Below(st.dist[st.u].d + g[st.u][st.done].cost, st.dist[g[st.u][st.done].dest]))
    ensures Inv(g, s, st.(done := st.done + 1))
  {
    var st' := st.(done := st.done + 1);
    assert NodeInv(g, s, st, g[st.u][st.done].dest);
    forall w | 0 <= w < |g|
      ensures NodeInv(g, s, st', w)
    {
      assert NodeInv(g, s, st, w);
    }
  }

  /** Once every edge of `u` is relaxed, the loop invariant holds again. */
  lemma Expanded(g: Adjacency, s: int, st: State)
    requires Inv(g, s, st)
    requires st.u != -1 && st.done == |g[st.u]|
    ensures Inv(g, s, st.(u := -1, done := 0))
  {
    var st' := st.(u := -1, done := 0);
    forall w | 0 <= w < |g|
      ensures NodeInv(g, s, st', w)
    {
      assert NodeInv(g, s, st, w);
    }
  }

  // ---------------------------------------------------------------------
  // What the final state means
  // ---------------------------------------------------------------------

  /**
   * Every edge out of a node with a finite distance leads to a node with a
   * finite distance, no greater than the distance through the edge when
   * costs are non-negative.
   */
  ghost predicate Closed(g: Adjacency, dist: seq<Dist>)
    requires WellFormed(g) && |dist| == |g|
  {
    forall x, k :: 0 <= x < |g| && dist[x].Fin? && 0 <= k < |g[x]| ==>
      && dist[g[x][k].dest].Fin?
      && (NonNegative(g) ==> dist[g[x][k].dest].d <= dist[x].d + g[x][k].cost)
  }

  /**
   * Every node other than `s` with a finite distance has a predecessor of
   * lower rank, with a finite distance, joined to it by an edge whose cost
   * is the difference of their distances.
   */
  ghost predicate Traced(g: Adjacency, s: int, dist: seq<Dist>, prev: seq<int>, rank: seq<int>)
    requires |dist| == |g| && |prev| == |g| && |rank| == |g|
  {
    && PrevLinks(prev)
    && (forall v :: 0 <= v < |g| && dist[v].Fin? ==> 0 <= rank[v])
    && (forall v :: 0 <= v < |g| && v != s && dist[v].Fin? ==>
          && 0 <= prev[v] && dist[prev[v]].Fin?
          && HasEdge(g, prev[v], v, dist[v].d - dist[prev[v]].d)
          && rank[prev[v]] < rank[v])
  }

  /**
   * When the distances are closed under the edges, every walk from `s`
   * ends at a node with a finite distance, no greater than the walk's cost
   * if costs are non-negative.
   */
  lemma {:induction false} SettledWalk(g: Adjacency, s: int, dist: seq<Dist>, p: seq<int>, c: int)
    requires WellFormed(g) && |dist| == |g| && 0 <= s < |g| && dist[s] == Fin(0)
    requires Closed(g, dist)
    requires 0 < |p| && Walk(g, p, c) && p[0] == s
    ensures 0 <= p[|p| - 1] < |g| && dist[p[|p| - 1]].Fin?
    ensures NonNegative(g) ==> dist[p[|p| - 1]].d <= c
    decreases |p|
  {
    if 1 < |p| {
      var a, b := p[|p| - 2], p[|p| - 1];
      var k :| 0 <= k < |g[a]| && g[a][k].dest == b && Walk(g, p[..|p| - 1], c - g[a][k].cost);
      SettledWalk(g, s, dist, p[..|p| - 1], c - g[a][k].cost);
    }
  }

  /**
   * Following predecessor links from a node with a finite distance reaches
   * `s` within `rank` steps, along a walk whose cost is that distance.
   */
  lemma {:induction false} SettledPath(g: Adjacency, s: int, dist: seq<Dist>, prev: seq<int>, rank: seq<int>,
                                       v: int, fuel: nat)
    requires |dist| == |g| && |prev| == |g| && |rank| == |g| && 0 <= s < |g| && dist[s] == Fin(0)
    requires Traced(g, s, dist, prev, rank)
    requires 0 <= v < |g| && dist[v].Fin? && rank[v] <= fuel
    ensures PathWithin(s, v, prev, fuel).Some?
    ensures Walk(g, PathWithin(s, v, prev, fuel).value, dist[v].d)
    decreases fuel
  {
    if v != s {
      var u := prev[v];
      var k := TracedLink(g, s, dist, prev, rank, v);
      SettledPath(g, s, dist, prev, rank, u, fuel - 1);
      var p := PathWithin(s, u, prev, fuel - 1).value;
      assert PathWithin(s, v, prev, fuel) == Some(p + [v]);
      WalkExtend(g, p, dist[u].d, u, k);
    }
  }

  /** The predecessor of a traced node is traced too, is ranked earlier, and an edge leads from it. */
  lemma TracedLink(g: Adjacency, s: int, dist: seq<Dist>, prev: seq<int>, rank: seq<int>, v: int) returns (k: int)
    requires |dist| == |g| && |prev| == |g| && |rank| == |g|
    requires Traced(g, s, dist, prev, rank)
    requires 0 <= v < |g| && v != s && dist[v].Fin?
    ensures 0 <= prev[v] < |g| && dist[prev[v]].Fin? && 0 <= rank[prev[v]] < rank[v]
    ensures 0 <= k < |g[prev[v]]| && g[prev[v]][k] == Edge(v, dist[v].d - dist[prev[v]].d)
  {
    k :| 0 <= k < |g[prev[v]]| && g[prev[v]][k] == Edge(v, dist[v].d - dist[prev[v]].d);
  }

  /** A walk ending at `u` extends by an edge from `u` to `v` to a walk costing that much more. */
  lemma WalkExtend(g: Adjacency, p: seq<int>, c: int, u: int, k: int)
    requires 0 < |p| && Walk(g, p, c) && p[|p| - 1] == u && 0 <= u < |g|
    requires 0 <= k < |g[u]|
    ensures Walk(g, p + [g[u][k].dest], c + g[u][k].cost)
  {
    var q := p + [g[u][k].dest];
    assert q[..|q| - 1] == p;
  }

  /** With the queue empty and no node being expanded, the invariant gives closure and traced predecessors. */
  lemma FinalState(g: Adjacency, s: int, st: State)
    requires Inv(g, s, st) && st.queue == multiset{} && st.u == -1
    ensures st.dist[s] == Fin(0) && st.prev[s] == -1
    ensures forall v :: 0 <= v < |g| && v != s ==> (st.dist[v] == Inf <==> st.prev[v] == -1)
    ensures forall v :: 0 <= v < |g| && st.dist[v].Fin? ==> st.rank[v] < |g|
    ensures Closed(g, st.dist)
    ensures Traced(g, s, st.dist, st.prev, st.rank)
  {
    assert NodeInv(g, s, st, s);
    forall v | 0 <= v < |g|
      ensures v != s ==> (st.dist[v] == Inf <==> st.prev[v] == -1)
      ensures -1 <= st.prev[v] < |g|
      ensures st.dist[v].Fin? ==> st.vis[v] && 0 <= st.rank[v] < |g|
    {
      assert NodeInv(g, s, st, v);
    }
    forall x, k | 0 <= x < |g| && st.dist[x].Fin? && 0 <= k < |g[x]|
      ensures st.dist[g[x][k].dest].Fin?
      ensures NonNegative(g) ==> st.dist[g[x][k].dest].d <= st.dist[x].d + g[x][k].cost
    {
      assert NodeInv(g, s, st, x);
    }
    forall v | 0 <= v < |g| && v != s && st.dist[v].Fin?
      ensures 0 <= st.prev[v] && st.dist[st.prev[v]].Fin?
      ensures HasEdge(g, st.prev[v], v, st.dist[v].d - st.dist[st.prev[v]].d)
      ensures st.rank[st.prev[v]] < st.rank[v]
    {
      assert NodeInv(g, s, st, v);
    }
  }

  /**
   * What the engine computes: `dist` and `prev` form a tree of paths from
   * `s`.  The start has distance 0 and no predecessor; every other node has
   * a predecessor exactly when its distance is finite; a node has a finite
   * distance exactly when it can be reached from `s`, and then following
   * predecessors back from it yields a walk from `s` whose cost is its
   * distance; for an unreached node no path is found; and when no edge
   * costs less than zero, no walk from `s` is cheaper than the distance.
   */
  ghost predicate PathTree(g: Adjacency, s: int, dist: seq<Dist>, prev: seq<int>)
    requires 0 <= s < |g| && |dist| == |g| && |prev| == |g|
  {
    && dist[s] == Fin(0) && prev[s] == -1
    && PrevLinks(prev)
    && (forall v :: 0 <= v < |g| && v != s ==> (dist[v] == Inf <==> prev[v] == -1))
    && (forall v :: 0 <= v < |g| ==> (dist[v].Fin? <==> Reachable(g, s, v)))
    && (forall v :: 0 <= v < |g| && dist[v].Fin? ==>
          PrintPath(s, v, prev).Some? && Walk(g, PrintPath(s, v, prev).value, dist[v].d))
    && (forall v :: 0 <= v < |g| && dist[v] == Inf ==> PrintPath(s, v, prev) == None)
    && (NonNegative(g) ==> forall v :: 0 <= v < |g| && dist[v].Fin? ==> LowerBound(g, s, v, dist[v].d))
  }

  /**
   * Along traced predecessors, every node with a finite distance is
   * reachable, and its printed path is a walk from `s` costing its distance.
   */
  lemma TracedPaths(g: Adjacency, s: int, dist: seq<Dist>, prev: seq<int>, rank: seq<int>)
    requires |dist| == |g| && |prev| == |g| && |rank| == |g| && 0 <= s < |g| && dist[s] == Fin(0)
    requires Traced(g, s, dist, prev, rank)
    requires forall v :: 0 <= v < |g| && dist[v].Fin? ==> rank[v] < |g|
    ensures forall v :: 0 <= v < |g| && dist[v].Fin? ==>
              && PrintPath(s, v, prev).Some? && Walk(g, PrintPath(s, v, prev).value, dist[v].d)
              && Reachable(g, s, v)
  {
    forall v | 0 <= v < |g| && dist[v].Fin?
      ensures PrintPath(s, v, prev).Some? && Walk(g, PrintPath(s, v, prev).value, dist[v].d)
      ensures Reachable(g, s, v)
    {
      SettledPath(g, s, dist, prev, rank, v, |g|);
    }
  }

  /**
   * When the distances are closed under the edges, every reachable node has
   * a finite distance, and with non-negative costs no walk is cheaper.
   */
  lemma ClosedBounds(g: Adjacency, s: int, dist: seq<Dist>)
    requires WellFormed(g) && |dist| == |g| && 0 <= s < |g| && dist[s] == Fin(0)
    requires Closed(g, dist)
    ensures forall v :: 0 <= v < |g| && Reachable(g, s, v) ==> dist[v].Fin?
    ensures NonNegative(g) ==> forall v :: 0 <= v < |g| && dist[v].Fin? ==> LowerBound(g, s, v, dist[v].d)
  {
    forall v | 0 <= v < |g| && Reachable(g, s, v)
      ensures dist[v].Fin?
    {
      var p, c :| 0 < |p| && Walk(g, p, c) && p[0] == s && p[|p| - 1] == v;
      SettledWalk(g, s, dist, p, c);
    }
    if NonNegative(g) {
      forall v, p, c | 0 <= v < |g| && dist[v].Fin? && 0 < |p| && Walk(g, p, c) && p[0] == s && p[|p| - 1] == v
        ensures dist[v].d <= c
      {
        SettledWalk(g, s, dist, p, c);
      }
    }
  }

  /** The final state of the engine: when the queue is empty, `dist` and `prev` form the path tree. */
  lemma Finished(g: Adjacency, s: int, st: State)
    requires Inv(g, s, st) && st.queue == multiset{} && st.u == -1
    ensures PathTree(g, s, st.dist, st.prev)
  {
    FinalState(g, s, st);
    TreeFromFinal(g, s, st.dist, st.prev, st.rank);
  }

  /** Closed and traced distances, as the engine leaves them, form the path tree. */
  lemma TreeFromFinal(g: Adjacency, s: int, dist: seq<Dist>, prev: seq<int>, rank: seq<int>)
    requires WellFormed(g) && |dist| == |g| && |prev| == |g| && |rank| == |g| && 0 <= s < |g|
    requires dist[s] == Fin(0) && prev[s] == -1
    requires forall v :: 0 <= v < |g| && v != s ==> (dist[v] == Inf <==> prev[v] == -1)
    requires forall v :: 0 <= v < |g| && dist[v].Fin? ==> rank[v] < |g|
    requires Closed(g, dist)
    requires Traced(g, s, dist, prev, rank)
    ensures PathTree(g, s, dist, prev)
  {
    TracedPaths(g, s, dist, prev, rank);
    ClosedBounds(g, s, dist);
  }

  // ---------------------------------------------------------------------
  // The engine
  // ---------------------------------------------------------------------

  /**
   * From `d0`/`p0` to `d1`/`p1`, distances only went down: a node in `vis`
   * kept its distance and predecessor, and any other node either kept both
   * or got a strictly smaller finite distance with predecessor `u`.
   */
  ghost predicate OnlyLowered(d0: seq<Dist>, p0: seq<int>, d1: seq<Dist>, p1: seq<int>, vis: seq<bool>, u: int)
    requires |p0| == |d0| && |d1| == |d0| && |p1| == |d0| && |vis| == |d0|
  {
    forall w :: 0 <= w < |d0| ==>
      && (vis[w] ==> d1[w] == d0[w] && p1[w] == p0[w])
      && ((d1[w] == d0[w] && p1[w] == p0[w]) || (d1[w].Fin? && Below(d1[w].d, d0[w]) && p1[w] == u))
  }

  /** Giving one unsettled node `v` a smaller distance `x` and predecessor `u` only lowers. */
  lemma LoweredOnce(d0: seq<Dist>, p0: seq<int>, vis: seq<bool>, u: int, v: int, x: int)
    requires |p0| == |d0| && |vis| == |d0| && 0 <= v < |d0|
    requires !vis[v] && Below(x, d0[v])
    ensures OnlyLowered(d0, p0, d0[v := Fin(x)], p0[v := u], vis, u)
  {
  }

  /** Two rounds of lowering with the same settled nodes and source `u` are one round. */
  lemma LoweredTwice(d0: seq<Dist>, p0: seq<int>, d1: seq<Dist>, p1: seq<int>, d2: seq<Dist>, p2: seq<int>,
                     vis: seq<bool>, u: int)
    requires |p0| == |d0| && |d1| == |d0| && |p1| == |d0| && |d2| == |d0| && |p2| == |d0| && |vis| == |d0|
    requires OnlyLowered(d0, p0, d1, p1, vis, u) && OnlyLowered(d1, p1, d2, p2, vis, u)
    ensures OnlyLowered(d0, p0, d2, p2, vis, u)
  {
    forall w | 0 <= w < |d0|
      ensures (vis[w] ==> d2[w] == d0[w] && p2[w] == p0[w])
      ensures (d2[w] == d0[w] && p2[w] == p0[w]) || (d2[w].Fin? && Below(d2[w].d, d0[w]) && p2[w] == u)
    {
      assert (vis[w] ==> d1[w] == d0[w] && p1[w] == p0[w]);
      assert (vis[w] ==> d2[w] == d1[w] && p2[w] == p1[w]);
    }
  }

  /** Lowering that spares the nodes in `vis` spares every node in a smaller set `vis'`. */
  lemma LoweredFewerSettled(d0: seq<Dist>, p0: seq<int>, d1: seq<Dist>, p1: seq<int>, vis: seq<bool>, vis': seq<bool>, u: int)
    requires |p0| == |d0| && |d1| == |d0| && |p1| == |d0| && |vis| == |d0| && |vis'| == |d0|
    requires OnlyLowered(d0, p0, d1, p1, vis, u)
    requires forall w :: 0 <= w < |d0| && vis'[w] ==> vis[w]
    ensures OnlyLowered(d0, p0, d1, p1, vis', u)
  {
    forall w | 0 <= w < |d0|
      ensures (vis'[w] ==> d1[w] == d0[w] && p1[w] == p0[w])
    {
      assert (vis[w] ==> d1[w] == d0[w] && p1[w] == p0[w]);
    }
  }

  /**
   * Relaxes edge `k` of the node `u` just settled: a neighbour that is not
   * settled and is reached more cheaply through `u` gets the new distance,
   * `u` as predecessor and a fresh queue entry.
   */
  method RelaxEdge(graph: Adjacency, start: int, u: int, k: int, dist: array<Dist>, prev: array<int>, visited: array<bool>,
                   q: PQ<int>, ghost unvisited: set<int>, ghost rank: seq<int>, ghost floor: int)
    requires q.Valid()
    requires Inv(graph, start, State(dist[..], prev[..], visited[..], q.Contents(), unvisited, rank, floor, u, k))
    requires u != -1 && k < |graph[u]|
    modifies dist, prev, q
    ensures q.Valid()
    ensures Inv(graph, start, State(dist[..], prev[..], visited[..], q.Contents(), unvisited, rank, floor, u, k + 1))
    ensures forall w :: 0 <= w < dist.Length && w != graph[u][k].dest ==> dist[w] == old(dist[w]) && prev[w] == old(prev[w])
    ensures
      var v, c := graph[u][k].dest, graph[u][k].cost;
      if !visited[v] && old(dist[u]).Fin? && Below(old(dist[u]).d + c, old(dist[v])) then
        dist[v] == Fin(old(dist[u]).d + c) && prev[v] == u && q.Contents() == old(q.Contents()) + multiset{Entry(v, dist[v].d)}
      else
        dist[v] == old(dist[v]) && prev[v] == old(prev[v]) && q.Contents() == old(q.Contents())
    ensures OnlyLowered(old(dist[..]), old(prev[..]), dist[..], prev[..], visited[..], u)
  {
    ghost var st := State(dist[..], prev[..], visited[..], q.Contents(), unvisited, rank, floor, u, k);
    var e := graph[u][k];
    var v := e.dest;
    if !visited[v] && dist[u].Fin? && Below(dist[u].d + e.cost, dist[v]) {
      Relax(graph, start, st);
      dist[v] := Fin(dist[u].d + e.cost);
      prev[v] := u;
      q.Insert(v, dist[v].d);
      assert dist[..] == st.dist[v := Fin(st.dist[u].d + e.cost)];
      assert prev[..] == st.prev[v := u] && visited[..] == st.vis;
      LoweredOnce(st.dist, st.prev, st.vis, u, v, st.dist[u].d + e.cost);
    } else {
      NoRelax(graph, start, st);
    }
  }

  /** Relaxes every edge of the node `u` just settled, in list order, which completes its expansion. */
  method RelaxEdges(graph: Adjacency, start: int, u: int, dist: array<Dist>, prev: array<int>, visited: array<bool>,
                    q: PQ<int>, ghost unvisited: set<int>, ghost rank: seq<int>, ghost floor: int)
    requires q.Valid()
    requires Inv(graph, start, State(dist[..], prev[..], visited[..], q.Contents(), unvisited, rank, floor, u, 0))
    requires u != -1
    modifies dist, prev, q
    ensures q.Valid()
    ensures Inv(graph, start, State(dist[..], prev[..], visited[..], q.Contents(), unvisited, rank, floor, -1, 0))
    ensures OnlyLowered(old(dist[..]), old(prev[..]), dist[..], prev[..], visited[..], u)
  {
    var k := 0;
    while k < |graph[u]|
      invariant q.Valid()
      invariant Inv(graph, start, State(dist[..], prev[..], visited[..], q.Contents(), unvisited, rank, floor, u, k))
      invariant OnlyLowered(old(dist[..]), old(prev[..]), dist[..], prev[..], visited[..], u)
      decreases |graph[u]| - k
    {
      ghost var d1, p1 := dist[..], prev[..];
      RelaxEdge(graph, start, u, k, dist, prev, visited, q, unvisited, rank, floor);
      LoweredTwice(old(dist[..]), old(prev[..]), d1, p1, dist[..], prev[..], visited[..], u);
      k := k + 1;
    }
    Expanded(graph, start, State(dist[..], prev[..], visited[..], q.Contents(), unvisited, rank, floor, u, k));
  }

  /**
   * One round of the main loop: pops the entry of least priority and, unless
   * its node is already settled, settles the node and relaxes its edges.
   * Either a node leaves `unvisited` or the queue shrinks.
   */
  method ProcessNext(graph: Adjacency, start: int, dist: array<Dist>, prev: array<int>, visited: array<bool>,
                     q: PQ<int>, ghost unvisited: set<int>, ghost rank: seq<int>, ghost floor: int)
    returns (ghost unvisited': set<int>, ghost rank': seq<int>, ghost floor': int)
    requires q.Valid() && 0 < |q.heap|
    requires Inv(graph, start, State(dist[..], prev[..], visited[..], q.Contents(), unvisited, rank, floor, -1, 0))
    modifies dist, prev, visited, q
    ensures q.Valid()
    ensures Inv(graph, start, State(dist[..], prev[..], visited[..], q.Contents(), unvisited', rank', floor', -1, 0))
    ensures |unvisited'| < |unvisited| || (unvisited' == unvisited && |q.heap| < old(|q.heap|))
    ensures forall w :: 0 <= w < visited.Length && old(visited[w]) ==> visited[w]
    ensures
      var u := old(q.heap[0]).value;
      0 <= u < visited.Length && visited[u] &&
      (old(visited[u]) ==> dist[..] == old(dist[..]) && prev[..] == old(prev[..]) && visited[..] == old(visited[..])) &&
      (!old(visited[u]) ==> visited[..] == old(visited[..])[u := true])
    ensures OnlyLowered(old(dist[..]), old(prev[..]), dist[..], prev[..], old(visited[..]), old(q.heap[0]).value)
  {
    ghost var st := State(dist[..], prev[..], visited[..], q.Contents(), unvisited, rank, floor, -1, 0);
    ghost var root := q.heap[0];
    assert root in st.queue && EntryInv(graph, st.dist, st.floor, root);
    var u := q.RemoveFirst();
    if visited[u] {
      PopSettled(graph, start, st, root);
      assert dist[..] == st.dist && prev[..] == st.prev && visited[..] == st.vis;
      unvisited', rank', floor' := unvisited, rank, floor;
      return;
    }
    PopUnsettled(graph, start, st, root);
    visited[u] := true;
    unvisited', rank', floor' := unvisited - {u}, rank[u := |graph| - |unvisited|], root.priority;
    assert dist[..] == st.dist && prev[..] == st.prev && visited[..] == st.vis[u := true];
    RelaxEdges(graph, start, u, dist, prev, visited, q, unvisited', rank', floor');
    LoweredFewerSettled(st.dist, st.prev, dist[..], prev[..], st.vis[u := true], st.vis, u);
  }

  /**
   * Computes into `dist` and `prev` the least cost of reaching every node
   * from `start` and the predecessor of each node on such a path.
   */
  method Dijkstra(graph: Adjacency, start: int, dist: array<Dist>, prev: array<int>)
    requires WellFormed(graph)
    requires 0 <= start < |graph|
    requires dist.Length == |graph| && prev.Length == |graph|
    modifies dist, prev
    ensures PathTree(graph, start, dist[..], prev[..])
  {
    var n := |graph|;
    for i := 0 to n
      invariant forall j :: 0 <= j < i ==> dist[j] == Inf && prev[j] == -1
    {
      dist[i] := Inf;
      prev[i] := -1;
    }
    dist[start] := Fin(0);
    var visited := new bool[n];
    ghost var unvisited: set<int> := {};
    for i := 0 to n
      modifies visited
      invariant forall j :: 0 <= j < i ==> !visited[j]
      invariant |unvisited| == i
      invariant forall x :: x in unvisited <==> 0 <= x < i
    {
      visited[i] := false;
      unvisited := unvisited + {i};
    }
    var q := new PQ<int>();
    q.Insert(start, dist[start].d);
    ghost var rank := seq(n, _ => -1);
    ghost var floor := 0;
    InitEstablishes(graph, start, State(dist[..], prev[..], visited[..], q.Contents(), unvisited, rank, floor, -1, 0));

    while !q.IsEmpty()
      invariant q.Valid()
      invariant Inv(graph, start, State(dist[..], prev[..], visited[..], q.Contents(), unvisited, rank, floor, -1, 0))
      decreases |unvisited|, |q.heap|
    {
      unvisited, rank, floor := ProcessNext(graph, start, dist, prev, visited, q, unvisited, rank, floor);
    }
    Finished(graph, start, State(dist[..], prev[..], visited[..], q.Contents(), unvisited, rank, floor, -1, 0));
  }
}
