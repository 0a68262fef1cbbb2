/** The `to_adj_list` overloads of graph.hpp: adjacency lists from an edge
    list, each edge appearing once (directed) or in both directions, with
    or without a weight carried along. */
module Graph {

  /** Both endpoints of every edge name a vertex. */
  predicate InRange(n: nat, edges: seq<(int, int)>) {
    forall k :: 0 <= k < |edges| ==> 0 <= edges[k].0 < n && 0 <= edges[k].1 < n
  }

  /** The neighbours of `x` seen when the edges are read in order: for each
      edge (u, v), v when x == u, then u when the graph is undirected and
      x == v. */
  function Neighbours(edges: seq<(int, int)>, x: int, directed: bool): seq<int> {
    if |edges| == 0 then []
    else
      var e := edges[|edges| - 1];
      Neighbours(edges[..|edges| - 1], x, directed)
        + (if e.0 == x then [e.1] else [])
        + (if !directed && e.1 == x then [e.0] else [])
  }

  /** to_adj_list(num_verts, edges, directed): one list per vertex, filled
      by one pass over the edges. Undirected is the default. */
  method ToAdjList(numVerts: nat, edges: seq<(int, int)>, directed: bool := false) returns (ret: seq<seq<int>>)
    requires InRange(numVerts, edges)
    ensures |ret| == numVerts
    ensures forall x :: 0 <= x < numVerts ==> ret[x] == Neighbours(edges, x, directed)
  {
    ret := seq(numVerts, _ => []);
    for k := 0 to |edges|
      invariant |ret| == numVerts
      invariant forall x :: 0 <= x < numVerts ==> ret[x] == Neighbours(edges[..k], x, directed)
    {
      var u, v := edges[k].0, edges[k].1;
      assert edges[..k + 1][..k] == edges[..k];
      ret := ret[u := ret[u] + [v]];
      if !directed {
        ret := ret[v := ret[v] + [u]];
      }
    }
    assert edges[..|edges|] == edges;
  }

  /** w is a neighbour of x exactly when an edge leads from x to w, or, in
      an undirected graph, from w to x. */
  lemma {:induction false} NeighbourIff(edges: seq<(int, int)>, x: int, w: int, directed: bool)
    ensures w in Neighbours(edges, x, directed)
        <==> exists k :: 0 <= k < |edges| && (edges[k] == (x, w) || (!directed && edges[k] == (w, x)))
    decreases |edges|
  {
    if |edges| > 0 {
      var init := edges[..|edges| - 1];
      NeighbourIff(init, x, w, directed);
      if w in Neighbours(edges, x, directed) && w !in Neighbours(init, x, directed) {
        var k := |edges| - 1;
        assert edges[k] == (x, w) || (!directed && edges[k] == (w, x));
      }
      if exists k :: 0 <= k < |edges| && (edges[k] == (x, w) || (!directed && edges[k] == (w, x))) {
        var k :| 0 <= k < |edges| && (edges[k] == (x, w) || (!directed && edges[k] == (w, x)));
        if k < |edges| - 1 {
          assert init[k] == edges[k];
        }
      }
    }
  }

  /** The total length of the lists of vertices 0..n-1. */
  function TotalDegree(edges: seq<(int, int)>, n: nat, directed: bool): nat {
    if n == 0 then 0 else TotalDegree(edges, n - 1, directed) + |Neighbours(edges, n - 1, directed)|
  }

  /** One more edge adds its endpoints that are vertices below n. */
  lemma {:induction false} TotalDegreeSnoc(edges: seq<(int, int)>, e: (int, int), n: nat, directed: bool)
    requires e.0 >= 0 && e.1 >= 0
    ensures TotalDegree(edges + [e], n, directed)
         == TotalDegree(edges, n, directed) + (if e.0 < n then 1 else 0) + (if !directed && e.1 < n then 1 else 0)
  {
    if n > 0 {
      TotalDegreeSnoc(edges, e, n - 1, directed);
      assert (edges + [e])[..|edges|] == edges;
    }
  }

  /** The lists hold |E| entries in all when directed and 2|E| otherwise. */
  lemma {:induction false} TotalDegreeEdges(edges: seq<(int, int)>, n: nat, directed: bool)
    requires InRange(n, edges)
    ensures TotalDegree(edges, n, directed) == if directed then |edges| else 2 * |edges|
    decreases |edges|
  {
    if |edges| == 0 {
      TotalDegreeEmpty(n, directed);
    } else {
      var init := edges[..|edges| - 1];
      assert init + [edges[|edges| - 1]] == edges;
      TotalDegreeEdges(init, n, directed);
      TotalDegreeSnoc(init, edges[|edges| - 1], n, directed);
    }
  }

  lemma {:induction false} TotalDegreeEmpty(n: nat, directed: bool)
    ensures TotalDegree([], n, directed) == 0
  {
    if n > 0 {
      TotalDegreeEmpty(n - 1, directed);
    }
  }
  /** Both endpoints of every weighted edge name a vertex. */
  predicate WeightedInRange<W>(n: nat, edges: seq<(int, int, W)>) {
    forall k :: 0 <= k < |edges| ==> 0 <= edges[k].0 < n && 0 <= edges[k].1 < n
  }

  /** The (neighbour, weight) entries of `x`, in the order the weighted
      pass appends them. */
  function WeightedNeighbours<W>(edges: seq<(int, int, W)>, x: int, directed: bool): seq<(int, W)> {
    if |edges| == 0 then []
    else
      var e := edges[|edges| - 1];
      WeightedNeighbours(edges[..|edges| - 1], x, directed)
        + (if e.0 == x then [(e.1, e.2)] else [])
        + (if !directed && e.1 == x then [(e.0, e.2)] else [])
  }

  /** The edges with their weights dropped. */
  function Unweighted<W>(edges: seq<(int, int, W)>): (r: seq<(int, int)>)
    ensures |r| == |edges| && forall k :: 0 <= k < |edges| ==> r[k] == (edges[k].0, edges[k].1)
  {
    seq(|edges|, k requires 0 <= k < |edges| => (edges[k].0, edges[k].1))
  }

  /** The vertices of a list of (neighbour, weight) entries. */
  function Targets<W>(entries: seq<(int, W)>): (r: seq<int>)
    ensures |r| == |entries| && forall k :: 0 <= k < |entries| ==> r[k] == entries[k].0
  {
    seq(|entries|, k requires 0 <= k < |entries| => entries[k].0)
  }

  /** to_adj_list(num_verts, edges, directed) over (u, v, w) edges: one list
      of (neighbour, weight) entries per vertex, filled by one pass. */
  method ToAdjListWeighted<W>(numVerts: nat, edges: seq<(int, int, W)>, directed: bool := false)
    returns (ret: seq<seq<(int, W)>>)
    requires WeightedInRange(numVerts, edges)
    ensures |ret| == numVerts
    ensures forall x :: 0 <= x < numVerts ==> ret[x] == WeightedNeighbours(edges, x, directed)
  {
    ret := seq(numVerts, _ => []);
    for k := 0 to |edges|
      invariant |ret| == numVerts
      invariant forall x :: 0 <= x < numVerts ==> ret[x] == WeightedNeighbours(edges[..k], x, directed)
    {
      var u, v, w := edges[k].0, edges[k].1, edges[k].2;
      assert edges[..k + 1][..k] == edges[..k];
      ret := ret[u := ret[u] + [(v, w)]];
      if !directed {
        ret := ret[v := ret[v] + [(u, w)]];
      }
    }
    assert edges[..|edges|] == edges;
  }

  /** Dropping the weights from the weighted lists gives the unweighted
      lists of the same edges. */
  lemma {:induction false} WeightedTargets<W>(edges: seq<(int, int, W)>, x: int, directed: bool)
    ensures Targets(WeightedNeighbours(edges, x, directed)) == Neighbours(Unweighted(edges), x, directed)
    decreases |edges|
  {
    if |edges| > 0 {
      var init := edges[..|edges| - 1];
      WeightedTargets(init, x, directed);
      assert Unweighted(edges)[..|edges| - 1] == Unweighted(init);
    }
  }
}
