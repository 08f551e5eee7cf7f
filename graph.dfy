/** The graph object of the engine and the Ford-Fulkerson driver: the edge
    list is loaded into capacity and children maps with a zero flow, and the
    driver rebuilds the residual network, enumerates augmenting paths and
    augments along one of them until none is left. */
module MaxFlow {
  import opened FlowTypes
  import opened EdgeOrder
  import opened EdgeList
  import opened Residual
  import opened FlowSums
  import opened PathSearch
  import opened Augmentation
  import opened MinCut

  class Graph {
    var children: map<Node, seq<Node>>
    var capacity: map<Edge, int>
    var flow: map<Edge, int>
    var residualCapacity: map<Edge, int>
    var residualGraph: map<Node, seq<Node>>
    /** The capacity keys, each once, in the order their first line was read;
        net flows are summed over this list. */
    ghost var edges: seq<Edge>

    ghost predicate Valid()
      reads this
    {
      Distinct(edges) && forall e :: e in capacity <==> e in edges
    }

    /** Reads the edge list line by line, then gives every capacity edge a
        zero flow. The residual maps start empty. */
    constructor (triples: seq<Triple>)
      ensures Valid()
      ensures capacity == CapacityOf(triples) && children == ChildrenOf(triples)
      ensures flow.Keys == capacity.Keys && forall e :: e in flow ==> flow[e] == 0
      ensures residualCapacity == map[] && residualGraph == map[]
    {
      var ch: map<Node, seq<Node>> := map[];
      var cap: map<Edge, int> := map[];
      ghost var es: seq<Edge> := [];
      for i := 0 to |triples|
        invariant cap == CapacityOf(triples[..i]) && ch == ChildrenOf(triples[..i])
        invariant Distinct(es) && forall e :: e in cap <==> e in es
      {
        var (left, right, weight) := triples[i];
        assert triples[..i + 1][..i] == triples[..i];
        if left in ch {
          ch := ch[left := ch[left] + [right]];
        } else {
          ch := ch[left := [right]];
        }
        if (left, right) !in cap {
          es := es + [(left, right)];
        }
        cap := cap[(left, right) := weight];
      }
      assert triples[..|triples|] == triples;
      var fl: map<Edge, int> := map[];
      var keys := cap.Keys;
      while keys != {}
        invariant keys <= cap.Keys
        invariant fl.Keys == cap.Keys - keys && forall e :: e in fl ==> fl[e] == 0
        decreases keys
      {
        var edge :| edge in keys;
        fl := fl[edge := 0];
        keys := keys - {edge};
      }
      children, capacity, flow := ch, cap, fl;
      edges := es;
      residualCapacity, residualGraph := map[], map[];
    }

    /** `get_residual_graph`: checks that the flow map is no larger than the
        capacity map, then builds the residual map and its adjacency lists. */
    method RebuildResidual() returns (r: Outcome)
      modifies this`residualCapacity, this`residualGraph
      ensures r == Fail(FlowOutgrowsCapacity) <==> |flow| > |capacity|
      ensures r.Pass? <==> |flow| <= |capacity| && NoAntiParallel(capacity)
      ensures r.Fail? ==> (r.error == FlowOutgrowsCapacity
        || (r.error.AntiParallel? && r.error.edge in capacity && Rev(r.error.edge) in capacity))
      ensures r.Pass? ==> IsResidualOf(residualCapacity, capacity, flow)
      ensures r.Pass? ==> IsAdjacencyOf(residualGraph, residualCapacity)
    {
      if |flow| > |capacity| {
        return Fail(FlowOutgrowsCapacity);
      }
      r := BuildResidualCapacity();
      if r.Pass? {
        BuildResidualGraph();
      }
    }

    /** The first loop of `get_residual_graph`: for each capacity edge, a
        forward key holding the room left when there is some, a check that
        the reverse edge carries no capacity, and a reverse key holding the
        flow when it is positive. */
    method BuildResidualCapacity() returns (r: Outcome)
      modifies this`residualCapacity
      ensures r.Pass? <==> NoAntiParallel(capacity)
      ensures r.Fail? ==> r.error.AntiParallel? && r.error.edge in capacity && Rev(r.error.edge) in capacity
      ensures r.Pass? ==> IsResidualOf(residualCapacity, capacity, flow)
    {
      residualCapacity := map[];
      var keys := capacity.Keys;
      while keys != {}
        invariant keys <= capacity.Keys
        invariant forall u, v :: (u, v) in capacity && (u, v) !in keys ==> (v, u) !in capacity
        invariant forall e :: e in residualCapacity <==>
          (e !in keys && HasRoom(capacity, flow, e)) || (Rev(e) !in keys && Cancellable(capacity, flow, e))
        invariant forall e :: e in residualCapacity && e in capacity ==>
          residualCapacity[e] == capacity[e] - FlowAt(flow, e)
        invariant forall e :: e in residualCapacity && e !in capacity ==> residualCapacity[e] == flow[Rev(e)]
        decreases keys
      {
        var edge :| edge in keys;
        var (u, v) := edge;
        var room := capacity[edge] - if edge in flow then flow[edge] else 0;
        if room > 0 {
          residualCapacity := residualCapacity[edge := room];
        }
        if (v, u) in capacity {
          return Fail(AntiParallel(edge));
        }
        if edge in flow && flow[edge] > 0 {
          residualCapacity := residualCapacity[(v, u) := flow[(u, v)]];
        }
        keys := keys - {edge};
      }
      r := Pass;
    }

    /** The second loop of `get_residual_graph`: each residual key appends
        its head to the list of its tail, opening the list on first use. */
    method BuildResidualGraph()
      modifies this`residualGraph
      ensures IsAdjacencyOf(residualGraph, residualCapacity)
    {
      residualGraph := map[];
      var residualKeys := residualCapacity.Keys;
      while residualKeys != {}
        invariant residualKeys <= residualCapacity.Keys
        invariant forall e :: e in residualCapacity && e !in residualKeys ==>
          e.0 in residualGraph && e.1 in residualGraph[e.0]
        invariant forall u, v :: u in residualGraph && v in residualGraph[u] ==>
          (u, v) in residualCapacity && (u, v) !in residualKeys
        invariant forall u :: u in residualGraph ==> |residualGraph[u]| > 0 && Distinct(residualGraph[u])
        decreases residualKeys
      {
        var key :| key in residualKeys;
        var (left, right) := key;
        if left in residualGraph {
          assert right !in residualGraph[left];
          residualGraph := residualGraph[left := residualGraph[left] + [right]];
        } else {
          residualGraph := residualGraph[left := [right]];
        }
        residualKeys := residualKeys - {key};
      }
    }

    /** `get_augmenting_paths`: every simple path from the source to the sink
        in the residual adjacency lists; an empty residual map ends in a call
        to a method the class does not define. */
    method AugmentingPaths() returns (r: Result<seq<seq<Node>>>)
      ensures r.Err? <==> |residualCapacity| == 0
      ensures r.Err? ==> r.error == UndefinedGetResidual
      ensures r.Ok? ==> forall q :: q in r.value <==> SimplePath(residualGraph, q, Source, Sink)
    {
      if |residualCapacity| == 0 {
        return Err(UndefinedGetResidual);
      }
      assert Reverse([Source] + []) == [Source];
      var visited, paths, found := CollectPaths(residualGraph, Source, Sink, [], {}, []);
      ExtendsStart(residualGraph, Source, Sink);
      assert paths[0..] == paths;
      r := Ok(paths);
    }

    /** `get_path_residual_capacity`: the smallest residual capacity along
        the path, a step that is not a residual key being a failure. The
        first step replaces the infinite starting value. */
    method PathResidualCapacity(path: seq<Node>) returns (r: Result<int>)
      requires |path| >= 2
      ensures r == Bottleneck(residualCapacity, path)
    {
      var result := 0;
      for i := 0 to |path| - 1
        invariant forall j :: 0 <= j < i ==>
          StepEdge(path, j) in residualCapacity && result <= residualCapacity[StepEdge(path, j)]
        invariant i > 0 ==> exists j :: 0 <= j < i && result == residualCapacity[StepEdge(path, j)]
      {
        var key := (path[i], path[i + 1]);
        assert key == StepEdge(path, i);
        if key !in residualCapacity {
          ghost var b := Bottleneck(residualCapacity, path);
          ghost var k :| 0 <= k < |path| - 1 && b.error == MissingResidual(StepEdge(path, k))
            && StepEdge(path, k) !in residualCapacity
            && forall j :: 0 <= j < k ==> StepEdge(path, j) in residualCapacity;
          assert k == i;
          return Err(MissingResidual(key));
        }
        if i == 0 || residualCapacity[key] < result {
          result := residualCapacity[key];
        }
      }
      ghost var b := Bottleneck(residualCapacity, path);
      ghost var j :| 0 <= j < |path| - 1 && b.value == residualCapacity[StepEdge(path, j)];
      ghost var j' :| 0 <= j' < |path| - 1 && result == residualCapacity[StepEdge(path, j')];
      assert b.value <= result && result <= b.value;
      r := Ok(result);
    }

    /** `augment_with_path`: moves the path's bottleneck along every step of
        the path, in order; a step that is a flow key is increased, any other
        step decreases the flow key of its reverse, which is dropped at zero,
        and fails when there is no such key. */
    method Augment(path: seq<Node>) returns (r: Outcome)
      requires |path| >= 2
      modifies this`flow
      ensures Bottleneck(residualCapacity, path).Err? ==>
        r == Fail(Bottleneck(residualCapacity, path).error) && flow == old(flow)
      ensures Bottleneck(residualCapacity, path).Ok? ==>
        (r, flow) == Run(old(flow), path, |path| - 1, Bottleneck(residualCapacity, path).value)
    {
      var bottleneck := PathResidualCapacity(path);
      if bottleneck.Err? {
        return Fail(bottleneck.error);
      }
      var d := bottleneck.value;
      for i := 0 to |path| - 1
        invariant Run(old(flow), path, i, d) == (Pass, flow)
      {
        var edge := (path[i], path[i + 1]);
        assert edge == StepEdge(path, i);
        ghost var current := flow;
        if edge in flow {
          flow := flow[edge := flow[edge] + d];
        } else {
          var reversedEdge := (edge.1, edge.0);
          if reversedEdge !in flow {
            RunStaysFailed(old(flow), path, i + 1, |path| - 1, d);
            return Fail(NothingToCancel(edge));
          }
          flow := flow[reversedEdge := flow[reversedEdge] - d];
          if flow[reversedEdge] == 0 {
            flow := flow - {reversedEdge};
            assert flow == current - {reversedEdge};
          }
        }
        assert Step(current, edge, d) == Ok(flow);
      }
      r := Pass;
    }
  }

  /** A simple path from the source to the sink in adjacency lists built from
      a residual map has at least one step, and every step is a residual key. */
  lemma PathsAreResidual(rg: map<Node, seq<Node>>, rc: map<Edge, int>, q: seq<Node>)
    requires IsAdjacencyOf(rg, rc) && SimplePath(rg, q, Source, Sink)
    ensures |q| >= 2 && OnResidual(rc, q)
    ensures Distinct(q) && q[0] == Source && q[|q| - 1] == Sink
  {
    assert Source[0] != Sink[0];
    forall i | 0 <= i < |q| - 1
      ensures StepEdge(q, i) in rc
    {
      assert Adjacent(rg, q[i], q[i + 1]);
    }
  }

  /** One round of the driver: augmenting a feasible, conserved flow by the
      bottleneck of a simple path from the source to the sink keeps it
      feasible and conserved and raises the net flow out of the source by at
      least one, up to the capacity leaving the source. */
  lemma AugmentationProgress(rc: map<Edge, int>, capacity: map<Edge, int>, flow: map<Edge, int>,
                             es: seq<Edge>, p: seq<Node>, d: int)
    requires IsResidualOf(rc, capacity, flow) && NoAntiParallel(capacity)
    requires Feasible(capacity, flow) && Conserved(flow, es)
    requires Distinct(es) && forall e :: e in capacity <==> e in es
    requires |p| >= 2 && Distinct(p) && p[0] == Source && p[|p| - 1] == Sink
    requires Bottleneck(rc, p) == Ok(d) && Run(flow, p, |p| - 1, d).0.Pass?
    ensures Feasible(capacity, Run(flow, p, |p| - 1, d).1) && Conserved(Run(flow, p, |p| - 1, d).1, es)
    ensures NetOut(flow, es, Source) < NetOut(Run(flow, p, |p| - 1, d).1, es, Source)
    ensures NetOut(Run(flow, p, |p| - 1, d).1, es, Source) <= CapacityOut(capacity, es, Source)
  {
    AugmentKeepsFeasible(rc, capacity, flow, p, d);
    StepsAreBounded(rc, capacity, flow, p, d);
    SourceToSinkNetOut(flow, es, p, d);
    NetOutBounded(capacity, Run(flow, p, |p| - 1, d).1, es, Source);
  }

  /** Every flow key of a feasible flow is a capacity key, so the flow map is
      never larger than the capacity map. */
  lemma FeasibleFlowFits(capacity: map<Edge, int>, flow: map<Edge, int>)
    requires Feasible(capacity, flow)
    ensures |flow| <= |capacity|
  {
    assert flow.Keys <= capacity.Keys;
    SubsetCardinality(flow.Keys, capacity.Keys);
  }

  lemma {:induction false} SubsetCardinality(a: set<Edge>, b: set<Edge>)
    requires a <= b
    ensures |a| <= |b|
  {
    if a != {} {
      var x :| x in a;
      SubsetCardinality(a - {x}, b - {x});
    }
  }

  /** The first two calls of each round of the driver: rebuilding the
      residual network and enumerating its augmenting paths, with the ways
      they can fail on a feasible flow. */
  method RebuildAndSearch(g: Graph) returns (r: Result<seq<seq<Node>>>)
    requires Feasible(g.capacity, g.flow)
    modifies g`residualCapacity, g`residualGraph
    ensures r.Err? ==> ((r.error.AntiParallel? && !NoAntiParallel(g.capacity))
      || (r.error == UndefinedGetResidual && NoAntiParallel(g.capacity)
          && forall e :: e in g.capacity ==> g.capacity[e] <= 0))
    ensures r.Ok? ==> NoAntiParallel(g.capacity) && exists e :: e in g.capacity && g.capacity[e] > 0
    ensures r.Ok? ==> (IsResidualOf(g.residualCapacity, g.capacity, g.flow)
      && IsAdjacencyOf(g.residualGraph, g.residualCapacity)
      && forall q :: q in r.value <==> SimplePath(g.residualGraph, q, Source, Sink))
  {
    FeasibleFlowFits(g.capacity, g.flow);
    var rebuilt := g.RebuildResidual();
    if rebuilt.Fail? {
      assert (rebuilt.error.edge.0, rebuilt.error.edge.1) in g.capacity;
      return Err(rebuilt.error);
    }
    EmptyResidual(g.residualCapacity, g.capacity, g.flow);
    r := g.AugmentingPaths();
  }

  /** The augmentation step of the driver along one enumerated path, with
      what it achieves: a feasible, conserved flow stays so and its net flow
      out of the source grows, or the step fails on a dropped capacity edge. */
  method AugmentRound(g: Graph, path: seq<Node>) returns (outcome: Outcome)
    requires g.Valid() && Feasible(g.capacity, g.flow) && Conserved(g.flow, g.edges)
    requires IsResidualOf(g.residualCapacity, g.capacity, g.flow) && NoAntiParallel(g.capacity)
    requires |path| >= 2 && Distinct(path) && path[0] == Source && path[|path| - 1] == Sink
    requires OnResidual(g.residualCapacity, path)
    modifies g`flow
    ensures outcome.Pass? ==> Feasible(g.capacity, g.flow) && Conserved(g.flow, g.edges)
    ensures outcome.Pass? ==> old(NetOut(g.flow, g.edges, Source)) < NetOut(g.flow, g.edges, Source)
    ensures NetOut(g.flow, g.edges, Source) <= CapacityOut(g.capacity, g.edges, Source) || outcome.Fail?
    ensures outcome.Fail? ==> outcome.error.NothingToCancel? && outcome.error.edge in g.capacity
  {
    var d := Bottleneck(g.residualCapacity, path).value;
    ghost var before := g.flow;
    outcome := g.Augment(path);
    assert outcome == Run(before, path, |path| - 1, d).0 && g.flow == Run(before, path, |path| - 1, d).1;
    if outcome.Fail? {
      AugmentFailureNamesDroppedEdge(g.residualCapacity, g.capacity, before, path, d);
    } else {
      AugmentationProgress(g.residualCapacity, g.capacity, before, g.edges, path, d);
    }
  }

  /** `find_max_flow`: rebuild the residual network, enumerate the augmenting
      paths, stop with the positive flow entries in sorted edge order when
      there are none, and otherwise augment along any one of them. */
  method FindMaxFlow(g: Graph) returns (r: Result<seq<(Edge, int)>>, updates: nat)
    requires g.Valid() && Feasible(g.capacity, g.flow) && Conserved(g.flow, g.edges)
    modifies g`flow, g`residualCapacity, g`residualGraph
    ensures g.capacity == old(g.capacity) && g.children == old(g.children) && g.edges == old(g.edges)
    ensures updates <= CapacityOut(g.capacity, g.edges, Source) - old(NetOut(g.flow, g.edges, Source))
    ensures r.Ok? ==> Feasible(g.capacity, g.flow) && Conserved(g.flow, g.edges)
    ensures r.Ok? ==> IsMaximum(g.capacity, g.flow, g.edges)
    ensures r.Ok? ==> (IsResidualOf(g.residualCapacity, g.capacity, g.flow)
      && IsAdjacencyOf(g.residualGraph, g.residualCapacity)
      && forall q :: !SimplePath(g.residualGraph, q, Source, Sink))
    ensures r.Ok? ==> forall i, j :: 0 <= i < j < |r.value| ==> EdgeLess(r.value[i].0, r.value[j].0)
    ensures r.Ok? ==> forall e, x :: (e, x) in r.value <==> e in g.flow && g.flow[e] == x && x > 0
    ensures (r.Err? && r.error.AntiParallel?) <==> !NoAntiParallel(g.capacity)
    ensures r == Err(UndefinedGetResidual) <==>
      NoAntiParallel(g.capacity) && forall e :: e in g.capacity ==> g.capacity[e] <= 0
    ensures r.Err? ==> (r.error.AntiParallel? || r.error == UndefinedGetResidual
      || (r.error.NothingToCancel? && r.error.edge in g.capacity))
  {
    updates := 0;
    ghost var start := NetOut(g.flow, g.edges, Source);
    ghost var bound := CapacityOut(g.capacity, g.edges, Source);
    NetOutBounded(g.capacity, g.flow, g.edges, Source);
    while true
      invariant g.Valid() && Feasible(g.capacity, g.flow) && Conserved(g.flow, g.edges)
      invariant start + updates <= NetOut(g.flow, g.edges, Source) <= bound
      decreases bound - NetOut(g.flow, g.edges, Source)
    {
      var found := RebuildAndSearch(g);
      if found.Err? {
        return Err(found.error), updates;
      }
      var paths := found.value;
      if |paths| == 0 {
        NoAugmentingPathMeansMaximum(g.residualCapacity, g.residualGraph, g.capacity, g.flow, g.edges);
        var report := PositiveFlowReport(g.flow);
        return Ok(report), updates;
      }
      var i :| 0 <= i < |paths|;
      PathsAreResidual(g.residualGraph, g.residualCapacity, paths[i]);
      var outcome := AugmentRound(g, paths[i]);
      if outcome.Fail? {
        return Err(outcome.error), updates;
      }
      updates := updates + 1;
    }
  }
}
