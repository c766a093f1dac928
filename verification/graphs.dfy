/**
 * The directed, weighted graph held by the engine as a map of maps:
 * `g[a]` is the adjacency map of node `a`, and `g[a][b]` the weight of the
 * edge from `a` to `b`. Weights are natural numbers.
 */
module Graphs {
  import opened Wrappers

  type Node = string
  type Graph = map<Node, map<Node, nat>>

  /** The error conditions of the engine. */
  datatype Error =
    | NodeNotFound       // a queried node is not a key of the graph
    | NodeUnreachable    // no directed path leads from the start to the node
    | NodeNotFinalized   // a route is asked for a node without a settled label

  /** There is a directed edge from `u` to `v`. */
  predicate IsEdge(g: Graph, u: Node, v: Node) {
    u in g && v in g[u]
  }

  /**
   * The weight of the edge from `origin` to `destination`. A missing
   * destination yields `None`; a missing origin is an error, because the
   * outer lookup already yields nothing to index into.
   */
  function Distance(g: Graph, origin: Node, destination: Node): (r: Result<Option<nat>, Error>)
    ensures r.Failure? <==> origin !in g
    ensures r.Failure? ==> r.error == NodeNotFound
    ensures r.Success? ==> (r.value.Some? <==> IsEdge(g, origin, destination))
    ensures r.Success? && r.value.Some? ==> g[origin][destination] == r.value.value
  {
    if origin !in g then Failure(NodeNotFound)
    else if destination in g[origin] then Success(Some(g[origin][destination]))
    else Success(None)
  }

  /** A non-empty sequence of nodes in which every consecutive pair is an edge. */
  predicate IsPath(g: Graph, p: seq<Node>) {
    |p| >= 1 && forall i :: 1 <= i < |p| ==> IsEdge(g, p[i - 1], p[i])
  }

  /** A path from `a` to `b`. */
  predicate IsPathFromTo(g: Graph, p: seq<Node>, a: Node, b: Node) {
    IsPath(g, p) && p[0] == a && p[|p| - 1] == b
  }

  /** The sum of the edge weights along a path. */
  function PathWeight(g: Graph, p: seq<Node>): nat
    requires IsPath(g, p)
    decreases |p|
  {
    if |p| == 1 then 0
    else
      DropLast(g, p);
      PathWeight(g, p[..|p| - 1]) + g[p[|p| - 2]][p[|p| - 1]]
  }

  /** Removing the last node of a path leaves a path, joined to it by an edge. */
  lemma DropLast(g: Graph, p: seq<Node>)
    requires IsPath(g, p) && |p| >= 2
    ensures IsPath(g, p[..|p| - 1])
    ensures IsEdge(g, p[|p| - 2], p[|p| - 1])
  {
    var q := p[..|p| - 1];
    forall i | 1 <= i < |q| ensures IsEdge(g, q[i - 1], q[i]) {
      assert IsEdge(g, p[i - 1], p[i]);
    }
  }

  /** Some directed path leads from `a` to `b`. */
  ghost predicate Reachable(g: Graph, a: Node, b: Node) {
    exists p :: IsPathFromTo(g, p, a, b)
  }

  /** No path from `a` to `v` weighs less than `d`. */
  ghost predicate Optimal(g: Graph, a: Node, v: Node, d: nat) {
    forall p :: IsPathFromTo(g, p, a, v) ==> d <= PathWeight(g, p)
  }

  /** `d` is the least weight of a path from `a` to `b`. */
  ghost predicate ShortestDistance(g: Graph, a: Node, b: Node, d: nat) {
    && (exists p :: IsPathFromTo(g, p, a, b) && PathWeight(g, p) == d)
    && Optimal(g, a, b, d)
  }

  /** A single edge is a path whose weight is what `Distance` reports. */
  lemma EdgeIsPath(g: Graph, u: Node, v: Node)
    requires IsEdge(g, u, v)
    ensures IsPathFromTo(g, [u, v], u, v)
    ensures Distance(g, u, v) == Success(Some(PathWeight(g, [u, v])))
  {
    assert [u, v][..1] == [u];
  }

  /** Extending a path by one edge adds that edge's weight. */
  lemma ExtendPath(g: Graph, p: seq<Node>, x: Node)
    requires IsPath(g, p) && IsEdge(g, p[|p| - 1], x)
    ensures IsPath(g, p + [x])
    ensures PathWeight(g, p + [x]) == PathWeight(g, p) + g[p[|p| - 1]][x]
  {
    assert (p + [x])[..|p|] == p;
  }

  /** Every prefix of a path is a path that weighs no more than the whole. */
  lemma {:induction false} PrefixPath(g: Graph, p: seq<Node>, k: nat)
    requires IsPath(g, p) && 1 <= k <= |p|
    ensures IsPath(g, p[..k])
    ensures PathWeight(g, p[..k]) <= PathWeight(g, p)
    decreases |p| - k
  {
    if k == |p| {
      assert p[..k] == p;
    } else {
      var q := p[..|p| - 1];
      DropLast(g, p);
      PrefixPath(g, q, k);
      assert q[..k] == p[..k];
    }
  }

  /** The shortest distance between two nodes is unique. */
  lemma ShortestDistanceUnique(g: Graph, a: Node, b: Node, d1: nat, d2: nat)
    requires ShortestDistance(g, a, b, d1) && ShortestDistance(g, a, b, d2)
    ensures d1 == d2
  {
  }

  /**
   * A potential that never drops by more than an edge's weight along that
   * edge bounds the weight of every path from below.
   */
  ghost predicate Feasible(g: Graph, pot: map<Node, nat>) {
    forall u, v :: IsEdge(g, u, v) ==> u in pot && v in pot && pot[v] <= pot[u] + g[u][v]
  }

  lemma {:induction false} PotentialBound(g: Graph, pot: map<Node, nat>, p: seq<Node>)
    requires Feasible(g, pot) && IsPath(g, p) && p[0] in pot
    ensures p[|p| - 1] in pot
    ensures pot[p[|p| - 1]] <= pot[p[0]] + PathWeight(g, p)
    decreases |p|
  {
    if |p| > 1 {
      var q := p[..|p| - 1];
      PrefixPath(g, p, |p| - 1);
      PotentialBound(g, pot, q);
      assert IsEdge(g, p[|p| - 2], p[|p| - 1]);
    }
  }

  /**
   * When a path from a zero-potential node is exactly as heavy as the
   * potential of its end, so is the path without its last edge, and that
   * last edge is tight.
   */
  lemma TightPrefix(g: Graph, pot: map<Node, nat>, p: seq<Node>)
    requires Feasible(g, pot) && IsPath(g, p) && |p| >= 2
    requires p[0] in pot && pot[p[0]] == 0
    requires p[|p| - 1] in pot && PathWeight(g, p) == pot[p[|p| - 1]]
    ensures IsPath(g, p[..|p| - 1])
    ensures IsEdge(g, p[|p| - 2], p[|p| - 1]) && p[|p| - 2] in pot
    ensures PathWeight(g, p[..|p| - 1]) == pot[p[|p| - 2]]
    ensures pot[p[|p| - 2]] + g[p[|p| - 2]][p[|p| - 1]] == pot[p[|p| - 1]]
  {
    var q := p[..|p| - 1];
    PrefixPath(g, p, |p| - 1);
    PotentialBound(g, pot, q);
    assert IsEdge(g, p[|p| - 2], p[|p| - 1]);
  }
}
