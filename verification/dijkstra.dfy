/**
 * The selection and relaxation loop that the engine leaves as a placeholder,
 * written as Dijkstra's algorithm: repeatedly settle the frontier node with
 * the smallest tentative distance after relaxing its out-edges into the
 * frontier, until the finish is settled or nothing reachable is left.
 */
module Dijkstra {
  import opened Wrappers
  import opened Graphs
  import opened Labels
  import opened Route

  /**
   * Relaxes the out-edges of `u` into the frontier: a neighbour whose label
   * would shrink by going through `u` is relabelled with that distance and
   * `u` as its predecessor.
   */
  function Relax(g: Graph, unvisited: map<Node, Journey>, u: Node): (r: map<Node, Journey>)
    requires u in unvisited
    ensures r.Keys == unvisited.Keys
    ensures r[u] == unvisited[u]
    ensures forall x :: x in r ==> LessEq(r[x].distance, unvisited[x].distance)
    ensures forall x :: x in r && IsEdge(g, u, x) ==> LessEq(r[x].distance, Add(unvisited[u].distance, g[u][x]))
    ensures forall x :: x in r ==>
      r[x] == unvisited[x] ||
      (&& IsEdge(g, u, x) && unvisited[u].distance.Fin?
       && Less(Add(unvisited[u].distance, g[u][x]), unvisited[x].distance)
       && r[x] == Journey(Add(unvisited[u].distance, g[u][x]), Some(u)))
  {
    var du := unvisited[u].distance;
    map x | x in unvisited ::
      if IsEdge(g, u, x) && Less(Add(du, g[u][x]), unvisited[x].distance)
      then Journey(Add(du, g[u][x]), Some(u))
      else unvisited[x]
  }

  /** One round of the loop: relax the out-edges of `u`, then settle `u`. */
  function Step(g: Graph, s: State, u: Node): (r: State)
    requires u in s.unvisited
    ensures r.unvisited.Keys == s.unvisited.Keys - {u}
    ensures r.visited.Keys == s.visited.Keys + {u}
    ensures r.visited[u] == s.unvisited[u]
    ensures forall v :: v in s.visited && v != u ==> r.visited[v] == s.visited[v]
    ensures forall x :: x in r.unvisited ==> LessEq(r.unvisited[x].distance, s.unvisited[x].distance)
  {
    Finalise(State(Relax(g, s.unvisited, u), s.visited), u)
  }

  /** Picks a frontier node whose tentative distance is least. */
  method SelectMin(unvisited: map<Node, Journey>) returns (u: Node)
    requires unvisited != map[]
    ensures u in unvisited
    ensures forall x :: x in unvisited ==> LessEq(unvisited[u].distance, unvisited[x].distance)
  {
    var rest := unvisited.Keys;
    u :| u in rest;
    rest := rest - {u};
    while rest != {}
      invariant rest <= unvisited.Keys
      invariant u in unvisited
      invariant forall x :: x in unvisited && x !in rest ==> LessEq(unvisited[u].distance, unvisited[x].distance)
      decreases rest
    {
      var x :| x in rest;
      if Less(unvisited[x].distance, unvisited[u].distance) {
        u := x;
      }
      rest := rest - {x};
    }
  }

  // ---------------------------------------------------------------------
  // The loop invariant
  // ---------------------------------------------------------------------

  /** The two maps split the keys of the graph between them. */
  ghost predicate Partition(g: Graph, s: State) {
    && s.unvisited.Keys !! s.visited.Keys
    && s.unvisited.Keys + s.visited.Keys == g.Keys
  }

  /**
   * A label for `x` is justified by the settled map: either it has no
   * predecessor and is unreached (or is the start at distance 0), or its
   * predecessor is settled, joined to `x` by an edge, and the distance is
   * the predecessor's plus that edge's weight.
   */
  ghost predicate Justified(g: Graph, start: Node, visited: map<Node, Journey>, x: Node, j: Journey) {
    match j.previous
    case None => j.distance == Infinity || (x == start && j.distance == Fin(0))
    case Some(p) =>
      && p in visited && IsEdge(g, p, x)
      && visited[p].distance.Fin?
      && j.distance == Add(visited[p].distance, g[p][x])
  }

  /** Every settled label is justified by the settled map. */
  ghost predicate SettledLinked(g: Graph, start: Node, visited: map<Node, Journey>) {
    forall x :: x in visited ==> Justified(g, start, visited, x, visited[x])
  }

  /** Every label, settled or not, is justified by the settled map. */
  ghost predicate Linked(g: Graph, start: Node, s: State) {
    && SettledLinked(g, start, s.visited)
    && (forall x :: x in s.unvisited ==> Justified(g, start, s.visited, x, s.unvisited[x]))
  }

  /** Every settled distance is finite and no path to that node is lighter. */
  ghost predicate Settled(g: Graph, start: Node, visited: map<Node, Journey>) {
    forall v :: v in visited ==> visited[v].distance.Fin? && Optimal(g, start, v, visited[v].distance.n)
  }

  /** Every edge out of a settled node into the frontier has been relaxed. */
  ghost predicate Relaxed(g: Graph, s: State) {
    forall v, x :: v in s.visited && x in s.unvisited && IsEdge(g, v, x) ==>
      LessEq(s.unvisited[x].distance, Add(s.visited[v].distance, g[v][x]))
  }

  /** No settled distance exceeds a frontier distance. */
  ghost predicate Ordered(s: State) {
    forall v, x :: v in s.visited && x in s.unvisited ==>
      LessEq(s.visited[v].distance, s.unvisited[x].distance)
  }

  /** The start keeps its label 0 until it is the first node settled. */
  ghost predicate StartFirst(g: Graph, start: Node, s: State) {
    && start in g
    && (start in s.unvisited ==> s.unvisited[start] == Origin)
    && (s.visited != map[] ==> start in s.visited)
  }

  ghost predicate Inv(g: Graph, start: Node, s: State) {
    && Partition(g, s)
    && StartFirst(g, start, s)
    && Linked(g, start, s)
    && Settled(g, start, s.visited)
    && Relaxed(g, s)
    && Ordered(s)
  }

  /**
   * Every settled node was settled after its predecessor: `rank` numbers
   * the settled nodes in the order they were settled, all below `count`.
   */
  ghost predicate Ranked(visited: map<Node, Journey>, rank: map<Node, nat>, count: nat) {
    && rank.Keys == visited.Keys
    && (forall v :: v in rank ==> rank[v] < count)
    && (forall v :: v in visited && visited[v].previous.Some? ==>
          visited[v].previous.value in rank && rank[visited[v].previous.value] < rank[v])
  }

  /** The frontier holds nothing any path from the start has reached. */
  ghost predicate Exhausted(unvisited: map<Node, Journey>) {
    forall x :: x in unvisited ==> unvisited[x].distance == Infinity
  }

  /** The route to a settled node is a path from the start as heavy as its label. */
  ghost predicate RouteValid(g: Graph, start: Node, visited: map<Node, Journey>, x: Node) {
    var r := OutputRoute(visited, x);
    && x in visited
    && r.Success?
    && IsPathFromTo(g, r.value, start, x)
    && visited[x].distance == Fin(PathWeight(g, r.value))
  }

  // ---------------------------------------------------------------------
  // Proofs about the invariant
  // ---------------------------------------------------------------------

  /** The initial state satisfies the invariant. */
  lemma InitInv(g: Graph, start: Node)
    requires start in g
    ensures Inv(g, start, Init(g, start).0)
  {
  }

  /**
   * A path that starts inside a set of nodes and ends outside it has an
   * edge leaving the set.
   */
  lemma {:induction false} Crossing(p: seq<Node>, inside: set<Node>) returns (i: nat)
    requires |p| >= 1 && p[0] in inside && p[|p| - 1] !in inside
    ensures 1 <= i < |p| && p[i - 1] in inside && p[i] !in inside
    decreases |p|
  {
    if p[|p| - 2] in inside {
      i := |p| - 1;
    } else {
      i := Crossing(p[..|p| - 1], inside);
    }
  }

  /**
   * Every path from the start to a frontier node leaves the settled set
   * along a relaxed edge into some frontier node `b`; the path weighs at
   * least the label of `b`.
   */
  lemma LeavesSettled(g: Graph, start: Node, s: State, p: seq<Node>, y: Node) returns (b: Node)
    requires Inv(g, start, s) && start in s.visited
    requires y in s.unvisited && IsPathFromTo(g, p, start, y)
    ensures b in p && b in s.unvisited
    ensures LessEq(s.unvisited[b].distance, Fin(PathWeight(g, p)))
  {
    var i := Crossing(p, s.visited.Keys);
    var a := p[i - 1];
    b := p[i];
    assert IsEdge(g, a, b);
    if i < |p| - 1 {
      assert IsEdge(g, p[i], p[i + 1]);
    }
    assert b in s.unvisited;
    PrefixPath(g, p, i);
    PrefixPath(g, p, i + 1);
    var q := p[..i];
    assert IsPathFromTo(g, q, start, a);
    ExtendPath(g, q, b);
    assert q + [b] == p[..i + 1];
  }

  /** A least frontier label with a finite distance is optimal. */
  lemma MinIsOptimal(g: Graph, start: Node, s: State, u: Node)
    requires Inv(g, start, s)
    requires u in s.unvisited && s.unvisited[u].distance.Fin?
    requires forall x :: x in s.unvisited ==> LessEq(s.unvisited[u].distance, s.unvisited[x].distance)
    ensures Optimal(g, start, u, s.unvisited[u].distance.n)
  {
    if s.visited == map[] {
      assert Justified(g, start, s.visited, u, s.unvisited[u]);
      assert u == start && s.unvisited[u].distance == Fin(0);
    } else {
      forall p | IsPathFromTo(g, p, start, u)
        ensures s.unvisited[u].distance.n <= PathWeight(g, p)
      {
        var b := LeavesSettled(g, start, s, p, u);
      }
    }
  }

  /** The facts every part of the preservation proof starts from. */
  ghost predicate StepReady(g: Graph, start: Node, s: State, u: Node) {
    && Inv(g, start, s)
    && u in s.unvisited && s.unvisited[u].distance.Fin?
    && (forall x :: x in s.unvisited ==> LessEq(s.unvisited[u].distance, s.unvisited[x].distance))
  }

  /** After a round the keys stay split between the two maps and the start is settled first. */
  lemma StepPartitionStart(g: Graph, start: Node, s: State, u: Node)
    requires StepReady(g, start, s, u)
    ensures Partition(g, Step(g, s, u)) && StartFirst(g, start, Step(g, s, u))
  {
  }

  /** After a round every label is still justified by the settled map. */
  lemma StepLinked(g: Graph, start: Node, s: State, u: Node)
    requires StepReady(g, start, s, u)
    ensures Linked(g, start, Step(g, s, u))
  {
  }

  /** After a round every settled distance, including the new one, is optimal. */
  lemma StepSettled(g: Graph, start: Node, s: State, u: Node)
    requires StepReady(g, start, s, u)
    ensures Settled(g, start, Step(g, s, u).visited)
  {
    MinIsOptimal(g, start, s, u);
  }

  /** After a round every edge from a settled node into the frontier is relaxed. */
  lemma StepRelaxed(g: Graph, start: Node, s: State, u: Node)
    requires StepReady(g, start, s, u)
    ensures Relaxed(g, Step(g, s, u))
  {
  }

  /** After a round no settled distance exceeds a frontier distance. */
  lemma StepOrdered(g: Graph, start: Node, s: State, u: Node)
    requires StepReady(g, start, s, u)
    ensures Ordered(Step(g, s, u))
  {
  }

  /** The node settled in a round is ranked after its predecessor. */
  lemma StepRanked(g: Graph, start: Node, s: State, u: Node, rank: map<Node, nat>, count: nat)
    requires Linked(g, start, s) && u in s.unvisited && u !in s.visited
    requires Ranked(s.visited, rank, count)
    ensures Ranked(Step(g, s, u).visited, rank[u := count], count + 1)
  {
  }

  /** One round of the loop preserves the invariant and the settling order. */
  lemma StepInv(g: Graph, start: Node, s: State, u: Node, rank: map<Node, nat>, count: nat)
    requires Inv(g, start, s) && Ranked(s.visited, rank, count)
    requires u in s.unvisited && s.unvisited[u].distance.Fin?
    requires forall x :: x in s.unvisited ==> LessEq(s.unvisited[u].distance, s.unvisited[x].distance)
    ensures Inv(g, start, Step(g, s, u))
    ensures Ranked(Step(g, s, u).visited, rank[u := count], count + 1)
  {
    StepPartitionStart(g, start, s, u);
    StepLinked(g, start, s, u);
    StepSettled(g, start, s, u);
    StepRelaxed(g, start, s, u);
    StepOrdered(g, start, s, u);
    StepRanked(g, start, s, u, rank, count);
  }

  /**
   * Following the predecessors of a settled node, inside any part of the
   * settled map that keeps every node settled no later than it, yields a
   * path from the start as heavy as the node's label.
   */
  lemma {:induction false} RouteFromRank(
    g: Graph, start: Node, visited: map<Node, Journey>, rank: map<Node, nat>, count: nat,
    part: map<Node, Journey>, x: Node)
    requires SettledLinked(g, start, visited) && Settled(g, start, visited)
    requires Ranked(visited, rank, count)
    requires forall y :: y in part ==> y in visited && part[y] == visited[y]
    requires x in part
    requires forall y :: y in visited && rank[y] <= rank[x] ==> y in part
    ensures OutputRoute(part, x).Success?
    ensures IsPathFromTo(g, OutputRoute(part, x).value, start, x)
    ensures visited[x].distance == Fin(PathWeight(g, OutputRoute(part, x).value))
    decreases rank[x]
  {
    assert Justified(g, start, visited, x, visited[x]);
    match part[x].previous
    case None =>
      assert OutputRoute(part, x).value == [x];
    case Some(p) =>
      var rest := part - {x};
      RouteFromRank(g, start, visited, rank, count, rest, p);
      var route := OutputRoute(rest, p).value;
      assert OutputRoute(part, x).value == route + [x];
      ExtendPath(g, route, x);
  }

  /** Every settled node has a valid route. */
  lemma AllRoutesValid(g: Graph, start: Node, s: State, rank: map<Node, nat>, count: nat)
    requires Inv(g, start, s) && Ranked(s.visited, rank, count)
    ensures forall x :: x in s.visited ==> RouteValid(g, start, s.visited, x)
  {
    forall x | x in s.visited ensures RouteValid(g, start, s.visited, x) {
      RouteFromRank(g, start, s.visited, rank, count, s.visited, x);
    }
  }

  /** When the frontier is exhausted, no frontier node is reachable. */
  lemma ExhaustedUnreachable(g: Graph, start: Node, s: State, y: Node)
    requires Inv(g, start, s) && Exhausted(s.unvisited) && y in s.unvisited
    ensures !Reachable(g, start, y)
  {
    assert start !in s.unvisited;
    forall p | IsPathFromTo(g, p, start, y) ensures false {
      var b := LeavesSettled(g, start, s, p, y);
    }
  }

  // ---------------------------------------------------------------------
  // The operation
  // ---------------------------------------------------------------------

  /**
   * The length of a shortest path from `start` to `finish`, with the final
   * state, from which routes are read. A start or finish that is not a key
   * of the graph is `NodeNotFound`; a finish no path reaches is
   * `NodeUnreachable`.
   */
  method ShortestPath(g: Graph, start: Node, finish: Node) returns (r: Result<nat, Error>, s: State)
    ensures r == Failure(NodeNotFound) <==> start !in g || finish !in g
    ensures r == Failure(NodeUnreachable) <==> start in g && finish in g && !Reachable(g, start, finish)
    ensures start in g && finish in g && Reachable(g, start, finish) <==> r.Success?
    ensures r.Success? ==> ShortestDistance(g, start, finish, r.value)
    ensures r.Success? ==> finish in s.visited && s.visited[finish].distance == Fin(r.value)
    ensures start in g && finish == start ==> r == Success(0)
    ensures start in g ==> forall x :: x in s.visited ==> RouteValid(g, start, s.visited, x)
    ensures start in g ==> Settled(g, start, s.visited)
  {
    var setup := Init(g, start);
    var current := setup.1;
    s := setup.0;
    if current.None? {
      r := Failure(NodeNotFound);
      return;
    }
    InitInv(g, start);
    ghost var rank: map<Node, nat> := map[];
    ghost var count: nat := 0;
    var stop := false;
    while !stop
      invariant Inv(g, start, s) && Ranked(s.visited, rank, count)
      invariant stop ==> finish in s.visited || Exhausted(s.unvisited)
      decreases |s.unvisited| + (if stop then 0 else 1)
    {
      if s.unvisited == map[] {
        stop := true;
      } else {
        var u := SelectMin(s.unvisited);
        if s.unvisited[u].distance == Infinity {
          stop := true;
        } else {
          StepInv(g, start, s, u, rank, count);
          s := Step(g, s, u);
          rank := rank[u := count];
          count := count + 1;
          stop := u == finish;
        }
      }
    }
    AllRoutesValid(g, start, s, rank, count);
    if finish in s.visited {
      r := Success(s.visited[finish].distance.n);
      assert RouteValid(g, start, s.visited, finish);
    } else if finish !in g {
      r := Failure(NodeNotFound);
    } else {
      r := Failure(NodeUnreachable);
      ExhaustedUnreachable(g, start, s, finish);
    }
    if finish == start {
      assert IsPathFromTo(g, [start], start, start);
    }
  }
}
