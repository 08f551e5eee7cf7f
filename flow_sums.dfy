/** Net flow at a node, summed over a list of edges that names every
    capacity edge once, and the capacity leaving a node. */
module FlowSums {
  import opened FlowTypes

  /** What edge `e` adds to the net flow out of `n`: its flow if it leaves
      `n`, minus its flow if it enters `n`. */
  function Contribution(flow: map<Edge, int>, e: Edge, n: Node): int
  {
    (if e.0 == n then FlowAt(flow, e) else 0) - (if e.1 == n then FlowAt(flow, e) else 0)
  }

  /** Flow leaving `n` minus flow entering `n`, over the edges of `es`. */
  function NetOut(flow: map<Edge, int>, es: seq<Edge>, n: Node): int
  {
    if es == [] then 0 else Contribution(flow, es[0], n) + NetOut(flow, es[1..], n)
  }

  /** The positive capacities of the edges of `es` that leave `n`. */
  function CapacityOut(capacity: map<Edge, int>, es: seq<Edge>, n: Node): int
  {
    if es == [] then 0
    else
      (if es[0].0 == n && es[0] in capacity && capacity[es[0]] > 0 then capacity[es[0]] else 0)
      + CapacityOut(capacity, es[1..], n)
  }

  /** Inflow equals outflow at every node other than the source and the sink. */
  ghost predicate Conserved(flow: map<Edge, int>, es: seq<Edge>)
  {
    forall n :: n != Source && n != Sink ==> NetOut(flow, es, n) == 0
  }

  /** Flows that agree on the listed edges have the same net flow. */
  lemma {:induction false} NetOutAgree(f: map<Edge, int>, g: map<Edge, int>, es: seq<Edge>, n: Node)
    requires forall e :: e in es ==> FlowAt(f, e) == FlowAt(g, e)
    ensures NetOut(f, es, n) == NetOut(g, es, n)
  {
    if es != [] {
      NetOutAgree(f, g, es[1..], n);
    }
  }

  /** Changing the flow on one listed edge changes the net flow by exactly
      that edge's change of contribution. */
  lemma {:induction false} NetOutUpdate(f: map<Edge, int>, g: map<Edge, int>, es: seq<Edge>, e0: Edge, n: Node)
    requires Distinct(es) && e0 in es
    requires forall e :: e in es && e != e0 ==> FlowAt(f, e) == FlowAt(g, e)
    ensures NetOut(g, es, n) == NetOut(f, es, n) + Contribution(g, e0, n) - Contribution(f, e0, n)
  {
    if es[0] == e0 {
      assert e0 !in es[1..];
      NetOutAgree(f, g, es[1..], n);
    } else {
      NetOutUpdate(f, g, es[1..], e0, n);
    }
  }

  /** The net flow out of a node never exceeds the capacity leaving it. */
  lemma {:induction false} NetOutBounded(capacity: map<Edge, int>, flow: map<Edge, int>, es: seq<Edge>, n: Node)
    requires Feasible(capacity, flow)
    ensures NetOut(flow, es, n) <= CapacityOut(capacity, es, n)
  {
    if es != [] {
      NetOutBounded(capacity, flow, es[1..], n);
    }
  }

  /** The all-zero flow has net flow zero everywhere. */
  lemma {:induction false} ZeroFlowNetOut(flow: map<Edge, int>, es: seq<Edge>, n: Node)
    requires forall e :: e in flow ==> flow[e] == 0
    ensures NetOut(flow, es, n) == 0
  {
    if es != [] {
      ZeroFlowNetOut(flow, es[1..], n);
    }
  }
}
