/**
 * The per-node progress record of the algorithm and the two maps that hold
 * it: a `Journey` pairs the best distance found so far with the node the
 * best path came from; `unvisited` holds the frontier, `visited` the nodes
 * whose distance is settled.
 */
module Labels {
  import opened Wrappers
  import opened Graphs

  /**
   * A tentative distance. `Infinity` stands for the sentinel 1000000 that
   * marks a node no path has reached yet.
   */
  datatype Dist = Fin(n: nat) | Infinity

  predicate LessEq(a: Dist, b: Dist) {
    match (a, b)
    case (_, Infinity) => true
    case (Infinity, Fin(_)) => false
    case (Fin(x), Fin(y)) => x <= y
  }

  predicate Less(a: Dist, b: Dist) {
    !LessEq(b, a)
  }

  /** A distance extended by one edge of weight `w`. */
  function Add(d: Dist, w: nat): Dist {
    match d
    case Fin(x) => Fin(x + w)
    case Infinity => Infinity
  }

  datatype Journey = Journey(distance: Dist, previous: Option<Node>)

  datatype State = State(unvisited: map<Node, Journey>, visited: map<Node, Journey>)

  /** The label every node but the start begins with. */
  const Unreached := Journey(Infinity, None)

  /** The label the start begins with. */
  const Origin := Journey(Fin(0), None)

  /**
   * The state before the first selection: one frontier entry per key of the
   * graph, nothing settled, and `current` naming the start exactly when the
   * start is a key.
   */
  function Init(g: Graph, start: Node): (r: (State, Option<Node>))
    ensures r.0.unvisited.Keys == g.Keys && r.0.visited == map[]
    ensures start in g ==> r.0.unvisited[start] == Origin
    ensures forall n :: n in g && n != start ==> r.0.unvisited[n] == Unreached
    ensures r.1.Some? <==> start in g
    ensures r.1.Some? ==> r.1.value == start
  {
    var unvisited := map n | n in g :: if n == start then Origin else Unreached;
    (State(unvisited, map[]), if start in g then Some(start) else None)
  }

  /**
   * Moves a frontier node into the settled map with its label unchanged;
   * every other entry of either map stays as it was.
   */
  function Finalise(s: State, n: Node): (r: State)
    requires n in s.unvisited
    ensures r.unvisited.Keys == s.unvisited.Keys - {n}
    ensures r.visited.Keys == s.visited.Keys + {n}
    ensures r.visited[n] == s.unvisited[n]
    ensures forall x :: x in r.unvisited ==> r.unvisited[x] == s.unvisited[x]
    ensures forall x :: x in s.visited && x != n ==> r.visited[x] == s.visited[x]
    ensures s.unvisited.Keys !! s.visited.Keys ==> r.unvisited.Keys !! r.visited.Keys
    ensures r.unvisited.Keys + r.visited.Keys == s.unvisited.Keys + s.visited.Keys
  {
    State(s.unvisited - {n}, s.visited[n := s.unvisited[n]])
  }

  /**
   * The operation exactly as the source has it, with its selection loop
   * still empty: initialise, settle `current` (the start), and return its
   * distance, together with the state left behind for route lookups.
   * Without a start key `current` stays absent and the final lookup fails.
   * `finish` is not consulted.
   */
  function Skeleton(g: Graph, start: Node, finish: Node): (r: (Result<nat, Error>, State))
    ensures r.0 == if start in g then Success(0) else Failure(NodeNotFound)
    ensures start in g ==> r.1.visited == map[start := Origin]
    ensures start in g ==> r.1.unvisited.Keys == g.Keys - {start}
    ensures start !in g ==> r.1.visited == map[] && r.1.unvisited.Keys == g.Keys
  {
    var (s, current) := Init(g, start);
    match current
    case None => (Failure(NodeNotFound), s)
    case Some(c) =>
      var s' := Finalise(s, c);
      (Success(s'.visited[c].distance.n), s')
  }
}
