/**
 * The adjacency structure of an undirected weighted graph: one list of
 * (neighbour, cost) edges per node, the most recently added edge first.
 */
module Graph {

  /** One adjacency entry: the node it leads to and its cost. */
  datatype Edge = Edge(dest: int, cost: int)

  /** One line of the graph description: an undirected edge `src dest cost`. */
  datatype Link = Link(src: int, dest: int, cost: int)

  /** The edges leaving each node, one list per node index. */
  type Adjacency = seq<seq<Edge>>

  /** Every edge leads to a node of the graph. */
  ghost predicate WellFormed(g: Adjacency) {
    forall u, k :: 0 <= u < |g| && 0 <= k < |g[u]| ==> 0 <= g[u][k].dest < |g|
  }

  /** No edge has a negative cost. */
  ghost predicate NonNegative(g: Adjacency) {
    forall u, k :: 0 <= u < |g| && 0 <= k < |g[u]| ==> 0 <= g[u][k].cost
  }

  /** Both ends of every link name nodes among the first n. */
  ghost predicate LinksWithin(n: nat, links: seq<Link>) {
    forall k :: 0 <= k < |links| ==> 0 <= links[k].src < n && 0 <= links[k].dest < n
  }

  /**
   * Pushes `(dest, cost)` onto the front of the edge list of `src`; every
   * other list is left as it was.
   */
  method AddEdge(graph: array<seq<Edge>>, src: int, dest: int, cost: int)
    requires 0 <= src < graph.Length
    modifies graph
    ensures graph[src] == [Edge(dest, cost)] + old(graph[src])
    ensures forall u :: 0 <= u < graph.Length && u != src ==> graph[u] == old(graph[u])
  {
    graph[src] := [Edge(dest, cost)] + graph[src];
  }

  /**
   * The adjacency lists after the links have been added in order, each in
   * both directions: first `(dest, cost)` to `src`, then `(src, cost)` to
   * `dest`.
   */
  ghost function Build(n: nat, links: seq<Link>): (g: Adjacency)
    requires LinksWithin(n, links)
    ensures |g| == n
    decreases |links|
  {
    if |links| == 0 then seq(n, _ => [])
    else
      var g0 := Build(n, links[..|links| - 1]);
      var l := links[|links| - 1];
      var g1 := g0[l.src := [Edge(l.dest, l.cost)] + g0[l.src]];
      g1[l.dest := [Edge(l.src, l.cost)] + g1[l.dest]]
  }

  /**
   * Builds the adjacency lists of an n-node graph from its links, adding
   * each link in both directions.
   */
  method ReadGraph(n: nat, links: seq<Link>) returns (graph: array<seq<Edge>>)
    requires LinksWithin(n, links)
    ensures fresh(graph)
    ensures graph[..] == Build(n, links)
  {
    graph := new seq<Edge>[n];
    for i := 0 to n
      invariant forall u :: 0 <= u < i ==> graph[u] == []
    {
      graph[i] := [];
    }
    assert graph[..] == Build(n, []);
    for i := 0 to |links|
      invariant graph[..] == Build(n, links[..i])
    {
      AddEdge(graph, links[i].src, links[i].dest, links[i].cost);
      AddEdge(graph, links[i].dest, links[i].src, links[i].cost);
      assert links[..i + 1][..i] == links[..i];
    }
    assert links[..|links|] == links;
  }

  /**
   * Every link appears in both directions with its cost: `(dest, cost)` in
   * the list of `src` and `(src, cost)` in the list of `dest`.
   */
  lemma {:induction false} BuildHasLink(n: nat, links: seq<Link>, k: nat)
    requires LinksWithin(n, links)
    requires k < |links|
    ensures Edge(links[k].dest, links[k].cost) in Build(n, links)[links[k].src]
    ensures Edge(links[k].src, links[k].cost) in Build(n, links)[links[k].dest]
    decreases |links|
  {
    var init := links[..|links| - 1];
    if k < |links| - 1 {
      assert init[k] == links[k];
      BuildHasLink(n, init, k);
    }
  }

  /** Conversely, every adjacency entry comes from a link, in one direction or the other. */
  lemma {:induction false} BuildOnlyLinks(n: nat, links: seq<Link>, u: int, e: Edge)
    requires LinksWithin(n, links)
    requires 0 <= u < n
    requires e in Build(n, links)[u]
    ensures exists k ::
              0 <= k < |links| && (links[k] == Link(u, e.dest, e.cost) || links[k] == Link(e.dest, u, e.cost))
    decreases |links|
  {
    var init := links[..|links| - 1];
    var l := links[|links| - 1];
    var k := |links| - 1;
    if links[k] == Link(u, e.dest, e.cost) || links[k] == Link(e.dest, u, e.cost) {
    } else {
      assert e in Build(n, init)[u];
      BuildOnlyLinks(n, init, u, e);
      var j :| 0 <= j < |init| && (init[j] == Link(u, e.dest, e.cost) || init[j] == Link(e.dest, u, e.cost));
      assert links[j] == init[j];
    }
  }

  /** The adjacency lists are symmetric: each entry has its mirror image with the same cost. */
  lemma BuildSymmetric(n: nat, links: seq<Link>, u: int, v: int, cost: int)
    requires LinksWithin(n, links)
    requires 0 <= u < n && 0 <= v < n
    ensures Edge(v, cost) in Build(n, links)[u] <==> Edge(u, cost) in Build(n, links)[v]
  {
    if Edge(v, cost) in Build(n, links)[u] {
      BuildOnlyLinks(n, links, u, Edge(v, cost));
      var k :| 0 <= k < |links| && (links[k] == Link(u, v, cost) || links[k] == Link(v, u, cost));
      BuildHasLink(n, links, k);
    }
    if Edge(u, cost) in Build(n, links)[v] {
      BuildOnlyLinks(n, links, v, Edge(u, cost));
      var k :| 0 <= k < |links| && (links[k] == Link(v, u, cost) || links[k] == Link(u, v, cost));
      BuildHasLink(n, links, k);
    }
  }

  /** Links within range give a well-formed graph. */
  lemma BuildWellFormed(n: nat, links: seq<Link>)
    requires LinksWithin(n, links)
    ensures WellFormed(Build(n, links))
  {
    var g: seq<seq<Edge>> := Build(n, links);
    forall u: int, k: int | 0 <= u < |g| && 0 <= k < |g[u]|
      ensures 0 <= g[u][k].dest < |g|
    {
      BuildOnlyLinks(n, links, u, g[u][k]);
    }
  }

  /** Links with non-negative costs give a graph with non-negative costs. */
  lemma BuildNonNegative(n: nat, links: seq<Link>)
    requires LinksWithin(n, links)
    requires forall k :: 0 <= k < |links| ==> 0 <= links[k].cost
    ensures NonNegative(Build(n, links))
  {
    var g: seq<seq<Edge>> := Build(n, links);
    forall u: int, k: int | 0 <= u < |g| && 0 <= k < |g[u]|
      ensures 0 <= g[u][k].cost
    {
      BuildOnlyLinks(n, links, u, g[u][k]);
    }
  }
}
