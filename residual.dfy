/** The residual network that is rebuilt from the capacity and flow maps
    before every search: which keys it has, what they hold, and the adjacency
    lists derived from it. */
module Residual {
  import opened FlowTypes

  /** No capacity edge has its reverse as a capacity edge too (a self-loop
      counts as its own reverse). */
  ghost predicate NoAntiParallel(capacity: map<Edge, int>)
  {
    forall u, v :: (u, v) in capacity ==> (v, u) !in capacity
  }

  /** `e` is a capacity edge with room left for more flow. */
  ghost predicate HasRoom(capacity: map<Edge, int>, flow: map<Edge, int>, e: Edge)
  {
    e in capacity && capacity[e] - FlowAt(flow, e) > 0
  }

  /** `e` reverses a capacity edge whose flow entry is positive, so that flow
      can be cancelled along `e`. */
  ghost predicate Cancellable(capacity: map<Edge, int>, flow: map<Edge, int>, e: Edge)
  {
    Rev(e) in capacity && Rev(e) in flow && flow[Rev(e)] > 0
  }

  /** `rc` is the residual capacity map of `capacity` and `flow`: a forward
      key for every capacity edge with room, holding the room left; a reverse
      key for every capacity edge with positive flow, holding that flow; and
      nothing else. */
  ghost predicate IsResidualOf(rc: map<Edge, int>, capacity: map<Edge, int>, flow: map<Edge, int>)
  {
    && (forall e :: e in rc <==> HasRoom(capacity, flow, e) || Cancellable(capacity, flow, e))
    && (forall e :: e in rc && e in capacity ==> rc[e] == capacity[e] - FlowAt(flow, e))
    && (forall e :: e in rc && e !in capacity ==> rc[e] == flow[Rev(e)])
  }

  /** `rg` lists, for every tail of a residual key, the heads of its residual
      keys, each once; no other node has a list. */
  ghost predicate IsAdjacencyOf(rg: map<Node, seq<Node>>, rc: map<Edge, int>)
  {
    && (forall e :: e in rc ==> e.0 in rg && e.1 in rg[e.0])
    && (forall u, v :: u in rg && v in rg[u] ==> (u, v) in rc)
    && (forall u :: u in rg ==> |rg[u]| > 0 && Distinct(rg[u]))
  }

  /** Every residual entry is a positive amount, when no pair of capacity
      edges is anti-parallel. */
  lemma ResidualPositive(rc: map<Edge, int>, capacity: map<Edge, int>, flow: map<Edge, int>, e: Edge)
    requires IsResidualOf(rc, capacity, flow) && NoAntiParallel(capacity)
    requires e in rc
    ensures rc[e] > 0
  {
    if e in capacity {
      assert !Cancellable(capacity, flow, e);
    }
  }

  /** The residual map is determined by capacity and flow: rebuilding without
      changing the flow gives the same map. */
  lemma ResidualUnique(rc1: map<Edge, int>, rc2: map<Edge, int>, capacity: map<Edge, int>, flow: map<Edge, int>)
    requires IsResidualOf(rc1, capacity, flow) && IsResidualOf(rc2, capacity, flow)
    ensures rc1 == rc2
  {
    assert rc1.Keys == rc2.Keys;
  }

  /** The residual map is empty exactly when the flow is zero everywhere and
      no capacity is positive, for a feasible flow. */
  lemma {:induction false} EmptyResidual(rc: map<Edge, int>, capacity: map<Edge, int>, flow: map<Edge, int>)
    requires IsResidualOf(rc, capacity, flow) && Feasible(capacity, flow)
    ensures |rc| == 0 <==> forall e :: e in capacity ==> capacity[e] <= 0
  {
    if |rc| == 0 {
      forall e | e in capacity
        ensures capacity[e] <= 0
      {
        assert Rev(Rev(e)) == e;
        assert e !in rc && Rev(e) !in rc;
      }
    }
    if forall e :: e in capacity ==> capacity[e] <= 0 {
      forall e
        ensures e !in rc
      {
        assert !HasRoom(capacity, flow, e) && !Cancellable(capacity, flow, e);
      }
      assert rc == map[];
    }
  }
}
