/**
 * Reconstruction of a route from the settled labels by following the
 * `previous` links back to a node that has none.
 */
module Route {
  import opened Wrappers
  import opened Graphs
  import opened Labels

  /**
   * The route ending at `node`: just `node` when it has no predecessor,
   * otherwise the route to its predecessor followed by `node`. Each step
   * looks the next node up among the entries not walked yet, so a chain
   * that returns to a walked node, or leaves the settled map, is reported
   * as `NodeNotFinalized`.
   */
  function OutputRoute(visited: map<Node, Journey>, node: Node): (r: Result<seq<Node>, Error>)
    decreases |visited|
    ensures r.Failure? ==> r.error == NodeNotFinalized
    ensures node !in visited ==> r.Failure?
    ensures node in visited && visited[node].previous.None? ==> r == Success([node])
    ensures r.Success? ==> |r.value| >= 1 && r.value[|r.value| - 1] == node
    ensures r.Success? ==> forall i :: 0 <= i < |r.value| ==> r.value[i] in visited
    ensures r.Success? ==> visited[r.value[0]].previous.None?
    ensures r.Success? ==> forall i :: 1 <= i < |r.value| ==> visited[r.value[i]].previous == Some(r.value[i - 1])
  {
    if node !in visited then Failure(NodeNotFinalized)
    else
      match visited[node].previous
      case None => Success([node])
      case Some(p) =>
        var rest := visited - {node};
        assert |rest| < |visited| by {
          assert rest.Keys == visited.Keys - {node};
        }
        match OutputRoute(rest, p)
        case Failure(e) => Failure(e)
        case Success(route) => Success(route + [node])
  }

  /** In a successful route no node occurs twice. */
  lemma {:induction false} RouteIsSimple(visited: map<Node, Journey>, node: Node)
    requires OutputRoute(visited, node).Success?
    ensures var route := OutputRoute(visited, node).value;
      forall i, j :: 0 <= i < j < |route| ==> route[i] != route[j]
    decreases |visited|
  {
    match visited[node].previous
    case None =>
    case Some(p) =>
      var rest := visited - {node};
      assert rest.Keys == visited.Keys - {node};
      RouteIsSimple(rest, p);
  }
}
