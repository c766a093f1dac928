/**
 * The five-node graph the engine is built with, and the query its driver
 * issues: the shortest path from "a" to "c".
 */
module Sample {
  import opened Wrappers
  import opened Graphs
  import opened Labels
  import opened Route
  import opened Dijkstra

  function SampleGraph(): Graph {
    map[
      "a" := map["b" := 4, "d" := 1],
      "b" := map["a" := 3, "c" := 2],
      "c" := map["b" := 4, "e" := 5],
      "d" := map["a" := 1, "e" := 1],
      "e" := map["c" := 3, "d" := 1]
    ]
  }

  /** The shortest distances from "a", used as a potential. */
  function SamplePotential(): map<Node, nat> {
    map["a" := 0, "b" := 4, "c" := 5, "d" := 1, "e" := 2]
  }

  /** The incoming edges of each node of the sample graph. */
  lemma SampleEdgesInto(u: Node, v: Node)
    requires IsEdge(SampleGraph(), u, v)
    ensures v == "a" ==> u == "b" || u == "d"
    ensures v == "c" ==> u == "b" || u == "e"
    ensures v == "d" ==> u == "a" || u == "e"
    ensures v == "e" ==> u == "c" || u == "d"
    ensures u in SamplePotential() && v in SamplePotential()
  {
  }

  lemma SampleFeasible()
    ensures Feasible(SampleGraph(), SamplePotential())
  {
    forall u, v | IsEdge(SampleGraph(), u, v)
      ensures u in SamplePotential() && v in SamplePotential()
      ensures SamplePotential()[v] <= SamplePotential()[u] + SampleGraph()[u][v]
    {
      SampleEdgesInto(u, v);
    }
  }

  /** No path from "a" to "c" weighs less than 5. */
  lemma SampleLowerBound(p: seq<Node>)
    requires IsPathFromTo(SampleGraph(), p, "a", "c")
    ensures 5 <= PathWeight(SampleGraph(), p)
  {
    SampleFeasible();
    PotentialBound(SampleGraph(), SamplePotential(), p);
  }

  /** Strips the last, tight edge of a path from "a" as heavy as the potential of its end. */
  lemma PeelTight(p: seq<Node>, v: Node) returns (q: seq<Node>, u: Node)
    requires IsPathFromTo(SampleGraph(), p, "a", v) && v != "a"
    requires v in SamplePotential() && PathWeight(SampleGraph(), p) == SamplePotential()[v]
    ensures p == q + [v] && IsPathFromTo(SampleGraph(), q, "a", u) && IsEdge(SampleGraph(), u, v)
    ensures u in SamplePotential() && PathWeight(SampleGraph(), q) == SamplePotential()[u]
    ensures SamplePotential()[u] + SampleGraph()[u][v] == SamplePotential()[v]
  {
    SampleFeasible();
    TightPrefix(SampleGraph(), SamplePotential(), p);
    q := p[..|p| - 1];
    u := p[|p| - 2];
    assert p == q + [v];
  }

  /** The only path from "a" to "c" of weight 5 is a, d, e, c. */
  lemma SampleShortestRouteUnique(p: seq<Node>)
    requires IsPathFromTo(SampleGraph(), p, "a", "c") && PathWeight(SampleGraph(), p) == 5
    ensures p == ["a", "d", "e", "c"]
  {
    var pe, e := PeelTight(p, "c");
    SampleEdgesInto(e, "c");
    assert e == "e";
    var pd, d := PeelTight(pe, "e");
    SampleEdgesInto(d, "e");
    assert d == "d";
    var pa, a := PeelTight(pd, "d");
    SampleEdgesInto(a, "d");
    assert a == "a";
    if |pa| > 1 {
      var pb, b := PeelTight(pa, "a");
      SampleEdgesInto(b, "a");
      assert false;
    }
    assert pa == ["a"];
  }

  /** The route a, d, e, c is a path of weight 5. */
  lemma SampleBestRoute()
    ensures IsPathFromTo(SampleGraph(), ["a", "d", "e", "c"], "a", "c")
    ensures PathWeight(SampleGraph(), ["a", "d", "e", "c"]) == 5
  {
    var g := SampleGraph();
    ExtendPath(g, ["a"], "d");
    assert ["a"] + ["d"] == ["a", "d"];
    ExtendPath(g, ["a", "d"], "e");
    assert ["a", "d"] + ["e"] == ["a", "d", "e"];
    ExtendPath(g, ["a", "d", "e"], "c");
    assert ["a", "d", "e"] + ["c"] == ["a", "d", "e", "c"];
  }

  /** Edges are directed: an edge one way says nothing about the other. */
  lemma EdgesAreDirected()
    ensures Distance(SampleGraph(), "a", "b") == Success(Some(4))
    ensures Distance(SampleGraph(), "b", "a") == Success(Some(3))
    ensures Distance(SampleGraph(), "a", "c") == Success(None)
    ensures Distance(SampleGraph(), "f", "a") == Failure(NodeNotFound)
    ensures Distance(map["x" := map["y" := 1], "y" := map[]], "x", "y") == Success(Some(1))
    ensures Distance(map["x" := map["y" := 1], "y" := map[]], "y", "x") == Success(None)
  {
  }

  /**
   * The driver's two calls against the operation as written: the distance
   * printed is the start's own 0, and the route lookup for "c" fails because
   * only "a" has been settled.
   */
  lemma SampleDriverAsWritten()
    ensures Skeleton(SampleGraph(), "a", "c").0 == Success(0)
    ensures OutputRoute(Skeleton(SampleGraph(), "a", "c").1.visited, "c") == Failure(NodeNotFinalized)
  {
  }

  /** The completed engine on the driver's query: from "a" to "c" the distance is 5, by way of d and e. */
  method SampleQuery() returns (d: Result<nat, Error>, route: Result<seq<Node>, Error>)
    ensures d == Success(5)
    ensures route == Success(["a", "d", "e", "c"])
  {
    var g := SampleGraph();
    var s;
    d, s := ShortestPath(g, "a", "c");
    SampleBestRoute();
    assert Reachable(g, "a", "c");
    assert "a" in g && "c" in g;
    var p :| IsPathFromTo(g, p, "a", "c") && PathWeight(g, p) == d.value;
    SampleLowerBound(p);
    route := OutputRoute(s.visited, "c");
    assert RouteValid(g, "a", s.visited, "c");
    SampleShortestRouteUnique(route.value);
  }
}
