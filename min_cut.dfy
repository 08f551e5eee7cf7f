/** Why the engine stops where it does: once the residual adjacency lists
    hold no path from the source to the sink, the nodes reachable from the
    source form a cut whose every leaving edge is full and whose every
    entering edge is empty, so no feasible, conserved flow sends more out of
    the source. */
module MinCut {
  import opened FlowTypes
  import opened Residual
  import opened FlowSums
  import opened PathSearch

  /** Net flow out of the node set `cut`, over the edges of `es`: an edge
      counts positively when its tail is inside and negatively when its head
      is inside, so an edge with both ends inside cancels out. */
  function CutFlow(flow: map<Edge, int>, es: seq<Edge>, cut: set<Node>): int
  {
    if es == [] then 0
    else
      (if es[0].0 in cut then FlowAt(flow, es[0]) else 0)
      - (if es[0].1 in cut then FlowAt(flow, es[0]) else 0)
      + CutFlow(flow, es[1..], cut)
  }

  /** The positive capacities of the edges of `es` that leave `cut`. */
  function CutCapacity(capacity: map<Edge, int>, es: seq<Edge>, cut: set<Node>): int
  {
    if es == [] then 0
    else
      (if es[0].0 in cut && es[0].1 !in cut && es[0] in capacity && capacity[es[0]] > 0
       then capacity[es[0]] else 0)
      + CutCapacity(capacity, es[1..], cut)
  }

  /** Adding a node to the set adds that node's net outflow. */
  lemma {:induction false} CutFlowAdd(flow: map<Edge, int>, es: seq<Edge>, cut: set<Node>, n: Node)
    requires n !in cut
    ensures CutFlow(flow, es, cut + {n}) == CutFlow(flow, es, cut) + NetOut(flow, es, n)
  {
    if es != [] {
      CutFlowAdd(flow, es[1..], cut, n);
    }
  }

  /** When every node of the set but the source conserves flow, the net flow
      out of the set is the net flow out of the source (zero if the source is
      outside). */
  lemma {:induction false} CutFlowIsSourceNetOut(flow: map<Edge, int>, es: seq<Edge>, cut: set<Node>)
    requires forall n :: n in cut && n != Source ==> NetOut(flow, es, n) == 0
    ensures CutFlow(flow, es, cut) == if Source in cut then NetOut(flow, es, Source) else 0
    decreases cut
  {
    if cut == {} {
      CutFlowEmpty(flow, es);
    } else {
      var n :| n in cut;
      CutFlowIsSourceNetOut(flow, es, cut - {n});
      CutFlowAdd(flow, es, cut - {n}, n);
      assert cut - {n} + {n} == cut;
    }
  }

  /** No edge crosses out of the empty set. */
  lemma {:induction false} CutFlowEmpty(flow: map<Edge, int>, es: seq<Edge>)
    ensures CutFlow(flow, es, {}) == 0
  {
    if es != [] {
      CutFlowEmpty(flow, es[1..]);
    }
  }

  /** A feasible flow sends no more out of a set than the capacity leaving
      it. */
  lemma {:induction false} CutFlowBounded(capacity: map<Edge, int>, flow: map<Edge, int>, es: seq<Edge>,
                                          cut: set<Node>)
    requires Feasible(capacity, flow)
    ensures CutFlow(flow, es, cut) <= CutCapacity(capacity, es, cut)
  {
    if es != [] {
      CutFlowBounded(capacity, flow, es[1..], cut);
    }
  }

  /** Weak duality: no feasible flow that is conserved sends more out of the
      source than the capacity leaving any set that holds the source and not
      the sink. */
  lemma FlowBelowCut(capacity: map<Edge, int>, flow: map<Edge, int>, es: seq<Edge>, cut: set<Node>)
    requires Feasible(capacity, flow) && Conserved(flow, es)
    requires Source in cut && Sink !in cut
    ensures NetOut(flow, es, Source) <= CutCapacity(capacity, es, cut)
  {
    CutFlowIsSourceNetOut(flow, es, cut);
    CutFlowBounded(capacity, flow, es, cut);
  }

  /** A feasible flow that fills every capacity edge leaving the set and
      leaves every capacity edge entering it empty sends exactly the
      capacity leaving the set. */
  lemma {:induction false} SaturatedCut(capacity: map<Edge, int>, flow: map<Edge, int>, es: seq<Edge>,
                                        cut: set<Node>)
    requires Feasible(capacity, flow) && forall e :: e in es ==> e in capacity
    requires forall e :: e in es && e.0 in cut && e.1 !in cut ==> !HasRoom(capacity, flow, e)
    requires forall e :: e in es && e.0 !in cut && e.1 in cut ==> !Cancellable(capacity, flow, Rev(e))
    ensures CutFlow(flow, es, cut) == CutCapacity(capacity, es, cut)
  {
    if es != [] {
      var e := es[0];
      assert Rev(Rev(e)) == e;
      SaturatedCut(capacity, flow, es[1..], cut);
    }
  }

  /** `n` is the end of a simple residual path from the source. */
  ghost predicate Reachable(rg: map<Node, seq<Node>>, n: Node)
  {
    exists q :: SimplePath(rg, q, Source, n)
  }

  /** The source and every node on some adjacency list. */
  ghost function Listed(rg: map<Node, seq<Node>>): set<Node>
  {
    {Source} + set u, v | u in rg && v in rg[u] :: v
  }

  /** The nodes reachable from the source in the residual adjacency lists. */
  ghost function ReachableSet(rg: map<Node, seq<Node>>): (cut: set<Node>)
    ensures forall n :: n in cut <==> Reachable(rg, n)
  {
    ReachableListed(rg);
    set n | n in Listed(rg) && Reachable(rg, n)
  }

  lemma ReachableListed(rg: map<Node, seq<Node>>)
    ensures forall n :: Reachable(rg, n) ==> n in Listed(rg)
  {
    forall n | Reachable(rg, n)
      ensures n in Listed(rg)
    {
      var q :| SimplePath(rg, q, Source, n);
      if |q| > 1 {
        assert Adjacent(rg, q[|q| - 2], q[|q| - 1]);
      }
    }
  }

  /** Reachability follows residual adjacencies. */
  lemma ReachableStep(rg: map<Node, seq<Node>>, u: Node, v: Node)
    requires Reachable(rg, u) && Adjacent(rg, u, v)
    ensures Reachable(rg, v)
  {
    var q :| SimplePath(rg, q, Source, u);
    if v in q {
      var i :| 0 <= i < |q| && q[i] == v;
      var r := q[..i + 1];
      assert SimplePath(rg, r, Source, v);
    } else {
      var r := q + [v];
      assert r[|q| - 1] == u && r[|q|] == v;
      assert SimplePath(rg, r, Source, v);
    }
  }

  /** The reachable set is closed under residual keys: a residual key never
      leaves it. */
  lemma ReachableClosed(rc: map<Edge, int>, rg: map<Node, seq<Node>>, e: Edge)
    requires IsAdjacencyOf(rg, rc) && e in rc && e.0 in ReachableSet(rg)
    ensures e.1 in ReachableSet(rg)
  {
    ReachableStep(rg, e.0, e.1);
  }

  /** `flow` sends as much out of the source as any feasible, conserved flow
      over the edges `es`. */
  ghost predicate IsMaximum(capacity: map<Edge, int>, flow: map<Edge, int>, es: seq<Edge>)
  {
    forall other :: Feasible(capacity, other) && Conserved(other, es) ==>
      NetOut(other, es, Source) <= NetOut(flow, es, Source)
  }

  /** Ford and Fulkerson's stopping rule: a feasible, conserved flow whose
      residual adjacency lists hold no simple path from the source to the
      sink sends exactly the capacity leaving the reachable set, and is
      therefore a maximum flow. */
  lemma NoAugmentingPathMeansMaximum(rc: map<Edge, int>, rg: map<Node, seq<Node>>,
                                     capacity: map<Edge, int>, flow: map<Edge, int>, es: seq<Edge>)
    requires IsResidualOf(rc, capacity, flow) && IsAdjacencyOf(rg, rc)
    requires Feasible(capacity, flow) && Conserved(flow, es)
    requires forall e :: e in es ==> e in capacity
    requires forall q :: !SimplePath(rg, q, Source, Sink)
    ensures Source in ReachableSet(rg) && Sink !in ReachableSet(rg)
    ensures NetOut(flow, es, Source) == CutCapacity(capacity, es, ReachableSet(rg))
    ensures IsMaximum(capacity, flow, es)
  {
    var cut := ReachableSet(rg);
    assert SimplePath(rg, [Source], Source, Source);
    assert Source[0] != Sink[0];
    forall e | e in es && e.0 in cut && e.1 !in cut
      ensures !HasRoom(capacity, flow, e)
    {
      if e in rc {
        ReachableClosed(rc, rg, e);
      }
    }
    forall e | e in es && e.0 !in cut && e.1 in cut
      ensures !Cancellable(capacity, flow, Rev(e))
    {
      if Rev(e) in rc {
        ReachableClosed(rc, rg, Rev(e));
      }
    }
    SaturatedCut(capacity, flow, es, cut);
    CutFlowIsSourceNetOut(flow, es, cut);
    forall other | Feasible(capacity, other) && Conserved(other, es)
      ensures NetOut(other, es, Source) <= NetOut(flow, es, Source)
    {
      FlowBelowCut(capacity, other, es, cut);
    }
  }
}
