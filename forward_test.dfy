/** The forward-or-reverse test of `augment_with_path` asks whether a step is
    a flow key. A capacity edge whose flow entry was dropped at zero is then
    taken for a reverse step, and the augmentation fails although the path is
    a genuine augmenting path. This module exhibits such a run on a five-edge
    network, and proves that testing membership in the capacity map instead
    never fails along an augmenting path and keeps the flow feasible. */
module ForwardTest {
  import opened FlowTypes
  import opened EdgeList
  import opened Residual
  import opened FlowSums
  import opened PathSearch
  import opened Augmentation

  /** s->a 2, a->b 1, b->t 2, s->b 1, a->t 1: the maximum flow is 3. */
  const ExampleLines: seq<Triple> :=
    [("s", "a", 2), ("a", "b", 1), ("b", "t", 2), ("s", "b", 1), ("a", "t", 1)]

  /** The path through the middle edge, and the one that cancels it. */
  const Upper: seq<Node> := ["s", "a", "b", "t"]
  const Lower: seq<Node> := ["s", "b", "a", "t"]

  function ExampleCapacity(): map<Edge, int>
  {
    map[("s", "a") := 2, ("a", "b") := 1, ("b", "t") := 2, ("s", "b") := 1, ("a", "t") := 1]
  }

  /** The capacity map is what the loader reads from the five lines. */
  lemma ExampleLinesRead()
    ensures CapacityOf(ExampleLines) == ExampleCapacity()
  {
    var ts := ExampleLines;
    assert ts[..1][..0] == [];
    assert CapacityOf(ts[..1]) == map[("s", "a") := 2];
    assert ts[..2][..1] == ts[..1];
    assert CapacityOf(ts[..2]) == map[("s", "a") := 2, ("a", "b") := 1];
    assert ts[..3][..2] == ts[..2];
    assert CapacityOf(ts[..3]) == map[("s", "a") := 2, ("a", "b") := 1, ("b", "t") := 2];
    assert ts[..4][..3] == ts[..3];
    assert CapacityOf(ts[..4]) == map[("s", "a") := 2, ("a", "b") := 1, ("b", "t") := 2, ("s", "b") := 1];
    assert ts[..5][..4] == ts[..4] && ts[..5] == ts;
  }

  /** The flow the loader starts from. */
  function ZeroFlow(): map<Edge, int>
  {
    map[("s", "a") := 0, ("a", "b") := 0, ("b", "t") := 0, ("s", "b") := 0, ("a", "t") := 0]
  }

  /** After augmenting by one along `Upper`. */
  function FirstFlow(): map<Edge, int>
  {
    map[("s", "a") := 1, ("a", "b") := 1, ("b", "t") := 1, ("s", "b") := 0, ("a", "t") := 0]
  }

  /** After augmenting by one along `Lower`: the entry of a->b is gone. */
  function SecondFlow(): map<Edge, int>
  {
    map[("s", "a") := 1, ("b", "t") := 1, ("s", "b") := 1, ("a", "t") := 1]
  }

  lemma ExampleHasNoAntiParallel()
    ensures NoAntiParallel(ExampleCapacity())
  {
    Labels();
  }

  /** The first round: from the zero flow, `Upper` is a simple residual path
      with bottleneck 1, and augmenting along it succeeds. */
  lemma FirstRound(rc: map<Edge, int>, rg: map<Node, seq<Node>>)
    requires IsResidualOf(rc, ExampleCapacity(), ZeroFlow()) && IsAdjacencyOf(rg, rc)
    ensures SimplePath(rg, Upper, Source, Sink) && Bottleneck(rc, Upper) == Ok(1)
    ensures Run(ZeroFlow(), Upper, 3, 1) == (Pass, FirstFlow())
  {
    Labels();
    ExamplePathsDistinct();
    var c := ExampleCapacity();
    assert HasRoom(c, ZeroFlow(), StepEdge(Upper, 0));
    assert HasRoom(c, ZeroFlow(), StepEdge(Upper, 1));
    assert HasRoom(c, ZeroFlow(), StepEdge(Upper, 2));
    RoundFacts(rc, rg, Upper);
    UpperFromZero();
  }

  lemma UpperFromZero()
    ensures Run(ZeroFlow(), Upper, 3, 1) == (Pass, FirstFlow())
  {
    Labels();
    var f0 := ZeroFlow();
    var f1 := f0[("s", "a") := 1];
    var f2 := f1[("a", "b") := 1];
    var f3 := f2[("b", "t") := 1];
    assert Step(f0, StepEdge(Upper, 0), 1) == Ok(f1);
    assert Run(f0, Upper, 1, 1) == (Pass, f1);
    assert Step(f1, StepEdge(Upper, 1), 1) == Ok(f2);
    assert Run(f0, Upper, 2, 1) == (Pass, f2);
    assert Step(f2, StepEdge(Upper, 2), 1) == Ok(f3);
    assert f3 == FirstFlow();
  }

  /** The second round: `Lower` runs against a->b, a simple residual path
      with bottleneck 1; augmenting along it cancels the unit on a->b and
      drops that entry. */
  lemma SecondRound(rc: map<Edge, int>, rg: map<Node, seq<Node>>)
    requires IsResidualOf(rc, ExampleCapacity(), FirstFlow()) && IsAdjacencyOf(rg, rc)
    ensures SimplePath(rg, Lower, Source, Sink) && Bottleneck(rc, Lower) == Ok(1)
    ensures Run(FirstFlow(), Lower, 3, 1) == (Pass, SecondFlow())
    ensures ("a", "b") in ExampleCapacity() && ("a", "b") !in SecondFlow()
  {
    Labels();
    ExamplePathsDistinct();
    var c := ExampleCapacity();
    assert HasRoom(c, FirstFlow(), StepEdge(Lower, 0));
    assert Rev(StepEdge(Lower, 1)) == ("a", "b");
    assert Cancellable(c, FirstFlow(), StepEdge(Lower, 1));
    assert HasRoom(c, FirstFlow(), StepEdge(Lower, 2));
    RoundFacts(rc, rg, Lower);
    LowerFromFirst();
  }

  lemma LowerFromFirst()
    ensures Run(FirstFlow(), Lower, 3, 1) == (Pass, SecondFlow())
  {
    Labels();
    var f0 := FirstFlow();
    var f1 := f0[("s", "b") := 1];
    var f2 := f1 - {("a", "b")};
    var f3 := f2[("a", "t") := 1];
    assert Step(f0, StepEdge(Lower, 0), 1) == Ok(f1);
    assert Run(f0, Lower, 1, 1) == (Pass, f1);
    assert Step(f1, StepEdge(Lower, 1), 1) == Ok(f2);
    assert Run(f0, Lower, 2, 1) == (Pass, f2);
    assert Step(f2, StepEdge(Lower, 2), 1) == Ok(f3);
    assert f3 == SecondFlow();
  }

  /** The third round: `Upper` is again a simple residual path with
      bottleneck 1, yet augmenting along it fails on a->b, whose flow entry
      was dropped. */
  lemma ThirdRound(rc: map<Edge, int>, rg: map<Node, seq<Node>>)
    requires IsResidualOf(rc, ExampleCapacity(), SecondFlow()) && IsAdjacencyOf(rg, rc)
    ensures SimplePath(rg, Upper, Source, Sink) && Bottleneck(rc, Upper) == Ok(1)
    ensures Run(SecondFlow(), Upper, 3, 1).0 == Fail(NothingToCancel(("a", "b")))
  {
    Labels();
    ExamplePathsDistinct();
    var c := ExampleCapacity();
    assert HasRoom(c, SecondFlow(), StepEdge(Upper, 0));
    assert HasRoom(c, SecondFlow(), StepEdge(Upper, 1));
    assert HasRoom(c, SecondFlow(), StepEdge(Upper, 2));
    RoundFacts(rc, rg, Upper);
    UpperFromSecond();
  }

  lemma UpperFromSecond()
    ensures Run(SecondFlow(), Upper, 3, 1).0 == Fail(NothingToCancel(("a", "b")))
  {
    Labels();
    var f0 := SecondFlow();
    var f1 := f0[("s", "a") := 2];
    assert Step(f0, StepEdge(Upper, 0), 1) == Ok(f1);
    assert Run(f0, Upper, 1, 1) == (Pass, f1);
    assert Step(f1, StepEdge(Upper, 1), 1) == Err(NothingToCancel(("a", "b")));
    assert Run(f0, Upper, 2, 1).0 == Fail(NothingToCancel(("a", "b")));
  }

  /** The four labels of the example are distinct. */
  lemma Labels()
    ensures "s" != "a" && "s" != "b" && "s" != "t" && "a" != "b" && "a" != "t" && "b" != "t"
  {
    assert "s"[0] != "a"[0] && "s"[0] != "b"[0] && "s"[0] != "t"[0];
    assert "a"[0] != "b"[0] && "a"[0] != "t"[0] && "b"[0] != "t"[0];
  }

  /** A four-node path from the source to the sink with no repeated node,
      whose three steps are residual keys holding at least one unit and
      exactly one on the middle step, is a simple residual path with
      bottleneck 1. */
  lemma RoundFacts(rc: map<Edge, int>, rg: map<Node, seq<Node>>, p: seq<Node>)
    requires IsAdjacencyOf(rg, rc)
    requires |p| == 4 && Distinct(p) && p[0] == Source && p[3] == Sink
    requires forall i :: 0 <= i < 3 ==> StepEdge(p, i) in rc && rc[StepEdge(p, i)] >= 1
    requires rc[StepEdge(p, 1)] == 1
    ensures SimplePath(rg, p, Source, Sink) && Bottleneck(rc, p) == Ok(1)
  {
    forall i | 0 <= i < 3
      ensures Adjacent(rg, p[i], p[i + 1])
    {
      assert StepEdge(p, i) in rc;
    }
    assert OnResidual(rc, p);
  }

  /** Neither example path repeats a node. */
  lemma ExamplePathsDistinct()
    ensures Distinct(Upper) && Distinct(Lower)
  {
    Labels();
  }

  /** The step the forward test evidently intends: a capacity edge gains `d`,
      its entry reopened at zero if it was dropped; any other step cancels
      `d` units on its reverse, dropping that entry at zero. */
  function CapacityStep(capacity: map<Edge, int>, flow: map<Edge, int>, e: Edge, d: int): Result<map<Edge, int>>
  {
    if e in capacity then Ok(flow[e := FlowAt(flow, e) + d])
    else if Rev(e) !in flow then Err(NothingToCancel(e))
    else
      var left := flow[Rev(e)] - d;
      Ok(if left == 0 then flow - {Rev(e)} else flow[Rev(e) := left])
  }

  /** The first `k` steps of the path with `CapacityStep`, stopping at the
      first failure as `Run` does. */
  function CapacityRun(capacity: map<Edge, int>, flow: map<Edge, int>, p: seq<Node>, k: nat, d: int)
    : (Outcome, map<Edge, int>)
    requires k < |p|
  {
    if k == 0 then (Pass, flow)
    else
      var prev := CapacityRun(capacity, flow, p, k - 1, d);
      if prev.0.Fail? then prev
      else match CapacityStep(capacity, prev.1, StepEdge(p, k - 1), d)
        case Ok(f) => (Pass, f)
        case Err(x) => (Fail(x), prev.1)
  }

  /** Wherever the code's run succeeds, the corrected run does the same: the
      two tests differ only on a capacity edge without a flow entry. */
  lemma {:induction false} CapacityRunAgrees(capacity: map<Edge, int>, flow: map<Edge, int>, p: seq<Node>,
                                             k: nat, d: int)
    requires NoAntiParallel(capacity) && (forall x :: x in flow ==> x in capacity)
    requires k < |p| && Run(flow, p, k, d).0.Pass?
    ensures CapacityRun(capacity, flow, p, k, d) == Run(flow, p, k, d)
    ensures forall x :: x in Run(flow, p, k, d).1 ==> x in capacity
  {
    if k > 0 {
      CapacityRunAgrees(capacity, flow, p, k - 1, d);
      var g := Run(flow, p, k - 1, d).1;
      var e := StepEdge(p, k - 1);
      if e !in g {
        assert Rev(e) in g;
        assert e !in capacity;
      }
      assert CapacityStep(capacity, g, e, d) == Step(g, e, d);
    }
  }

  /** `g` is `flow` with `d` more units on every capacity edge in `es` and
      `d` fewer on every capacity edge whose reverse is in `es`, and has no
      key outside the capacity map. */
  ghost predicate Shifted(capacity: map<Edge, int>, flow: map<Edge, int>, g: map<Edge, int>, es: set<Edge>, d: int)
  {
    && (forall e :: e in g ==> e in capacity)
    && (forall e :: e in capacity ==>
          FlowAt(g, e) == FlowAt(flow, e) + (if e in es then d else 0) - (if Rev(e) in es then d else 0))
  }

  /** One corrected step along a capacity edge, or along the reverse of one
      with flow on it, neither it nor its reverse taken before, succeeds and
      shifts the flow by `d`. */
  lemma CapacityStepShifted(capacity: map<Edge, int>, flow: map<Edge, int>,
                            g: map<Edge, int>, es: set<Edge>, e: Edge, d: int)
    requires NoAntiParallel(capacity) && Shifted(capacity, flow, g, es, d)
    requires e in capacity || Cancellable(capacity, flow, e)
    requires e !in es && Rev(e) !in es
    ensures CapacityStep(capacity, g, e, d).Ok?
    ensures Shifted(capacity, flow, CapacityStep(capacity, g, e, d).value, es + {e}, d)
  {
    assert Rev(Rev(e)) == e;
    if e in capacity {
      assert Rev(e) !in capacity;
    } else {
      var c := Rev(e);
      assert FlowAt(g, c) == flow[c] > 0;
      var h := CapacityStep(capacity, g, e, d).value;
      forall x | x in capacity
        ensures FlowAt(h, x) == FlowAt(flow, x) + (if x in es + {e} then d else 0)
          - (if Rev(x) in es + {e} then d else 0)
      {
        assert Rev(x) == e <==> x == c;
      }
    }
  }

  /** The first `k` corrected steps along a simple path, each a capacity
      edge or the reverse of one with flow on it, all succeed and shift the
      flow by `d` along those steps. */
  lemma {:induction false} CapacityRunShifted(capacity: map<Edge, int>, flow: map<Edge, int>,
                                              p: seq<Node>, k: nat, d: int)
    requires NoAntiParallel(capacity) && forall x :: x in flow ==> x in capacity
    requires k < |p| && Distinct(p)
    requires forall i :: 0 <= i < k ==> StepEdge(p, i) in capacity || Cancellable(capacity, flow, StepEdge(p, i))
    ensures CapacityRun(capacity, flow, p, k, d).0.Pass?
    ensures Shifted(capacity, flow, CapacityRun(capacity, flow, p, k, d).1, StepsUpTo(p, k), d)
  {
    if k == 0 {
      assert StepsUpTo(p, 0) == {};
    } else {
      CapacityRunShifted(capacity, flow, p, k - 1, d);
      CapacityRunNext(capacity, flow, p, k - 1, d);
    }
  }

  /** One more corrected step keeps the run shifted along its steps. */
  lemma CapacityRunNext(capacity: map<Edge, int>, flow: map<Edge, int>, p: seq<Node>, k: nat, d: int)
    requires NoAntiParallel(capacity) && k + 1 < |p| && Distinct(p)
    requires CapacityRun(capacity, flow, p, k, d).0.Pass?
    requires Shifted(capacity, flow, CapacityRun(capacity, flow, p, k, d).1, StepsUpTo(p, k), d)
    requires StepEdge(p, k) in capacity || Cancellable(capacity, flow, StepEdge(p, k))
    ensures CapacityRun(capacity, flow, p, k + 1, d).0.Pass?
    ensures Shifted(capacity, flow, CapacityRun(capacity, flow, p, k + 1, d).1, StepsUpTo(p, k + 1), d)
  {
    StepsUpToNext(p, k);
    var g := CapacityRun(capacity, flow, p, k, d).1;
    CapacityStepShifted(capacity, flow, g, StepsUpTo(p, k), StepEdge(p, k), d);
  }

  /** A simple path never takes an edge and its reverse. */
  lemma NoStepBothWays(p: seq<Node>, e: Edge)
    requires |p| >= 2 && Distinct(p)
    ensures !(e in StepsUpTo(p, |p| - 1) && Rev(e) in StepsUpTo(p, |p| - 1))
  {
  }

  /** The corrected augmentation by the bottleneck of a simple path of
      residual keys never fails, and keeps the flow feasible. */
  lemma CapacityAugmentFeasible(rc: map<Edge, int>, capacity: map<Edge, int>, flow: map<Edge, int>,
                                p: seq<Node>, d: int)
    requires IsResidualOf(rc, capacity, flow) && NoAntiParallel(capacity) && Feasible(capacity, flow)
    requires |p| >= 2 && Distinct(p) && Bottleneck(rc, p) == Ok(d)
    ensures CapacityRun(capacity, flow, p, |p| - 1, d).0 == Pass
    ensures Feasible(capacity, CapacityRun(capacity, flow, p, |p| - 1, d).1)
  {
    StepsAreBounded(rc, capacity, flow, p, d);
    ResidualRunShifted(rc, capacity, flow, p, d);
    ShiftedFeasible(rc, capacity, flow, CapacityRun(capacity, flow, p, |p| - 1, d).1, p, d);
  }

  /** The corrected run along a simple path of residual keys succeeds and
      shifts the flow along the path's steps. */
  lemma ResidualRunShifted(rc: map<Edge, int>, capacity: map<Edge, int>, flow: map<Edge, int>,
                           p: seq<Node>, d: int)
    requires IsResidualOf(rc, capacity, flow) && NoAntiParallel(capacity)
    requires forall x :: x in flow ==> x in capacity
    requires |p| >= 2 && Distinct(p) && OnResidual(rc, p)
    ensures CapacityRun(capacity, flow, p, |p| - 1, d).0 == Pass
    ensures Shifted(capacity, flow, CapacityRun(capacity, flow, p, |p| - 1, d).1, StepsUpTo(p, |p| - 1), d)
  {
    ResidualStepsUsable(rc, capacity, flow, p);
    CapacityRunShifted(capacity, flow, p, |p| - 1, d);
  }

  /** Every step of a path of residual keys is a capacity edge or the
      reverse of one with flow on it. */
  lemma ResidualStepsUsable(rc: map<Edge, int>, capacity: map<Edge, int>, flow: map<Edge, int>, p: seq<Node>)
    requires IsResidualOf(rc, capacity, flow) && |p| >= 2 && OnResidual(rc, p)
    ensures forall i :: 0 <= i < |p| - 1 ==> StepEdge(p, i) in capacity || Cancellable(capacity, flow, StepEdge(p, i))
  {
    forall i | 0 <= i < |p| - 1
      ensures StepEdge(p, i) in capacity || Cancellable(capacity, flow, StepEdge(p, i))
    {
      assert StepEdge(p, i) in rc;
    }
  }

  /** A flow shifted by `d > 0` along the steps of a simple path, each a
      residual key holding at least `d`, is feasible. */
  lemma ShiftedFeasible(rc: map<Edge, int>, capacity: map<Edge, int>, flow: map<Edge, int>,
                        g: map<Edge, int>, p: seq<Node>, d: int)
    requires IsResidualOf(rc, capacity, flow) && NoAntiParallel(capacity) && Feasible(capacity, flow)
    requires |p| >= 2 && Distinct(p)
    requires d > 0 && forall x :: x in StepsUpTo(p, |p| - 1) ==> x in rc && d <= rc[x]
    requires Shifted(capacity, flow, g, StepsUpTo(p, |p| - 1), d)
    ensures Feasible(capacity, g)
  {
    forall e | e in g
      ensures e in capacity && 0 <= g[e] && (g[e] <= capacity[e] || g[e] == 0)
    {
      NoStepBothWays(p, e);
      ShiftedKeyFeasible(rc, capacity, flow, g, StepsUpTo(p, |p| - 1), d, e);
    }
  }

  /** One key of a shifted flow is feasible, when the steps are residual
      keys holding at least `d > 0` and none is taken both ways. */
  lemma ShiftedKeyFeasible(rc: map<Edge, int>, capacity: map<Edge, int>, flow: map<Edge, int>,
                           g: map<Edge, int>, steps: set<Edge>, d: int, e: Edge)
    requires IsResidualOf(rc, capacity, flow) && NoAntiParallel(capacity) && Feasible(capacity, flow)
    requires Shifted(capacity, flow, g, steps, d)
    requires d > 0 && forall x :: x in steps ==> x in rc && d <= rc[x]
    requires e in g && !(e in steps && Rev(e) in steps)
    ensures e in capacity && 0 <= g[e] && (g[e] <= capacity[e] || g[e] == 0)
  {
    assert Rev(Rev(e)) == e;
    assert g[e] == FlowAt(g, e);
    if e in steps {
      assert !Cancellable(capacity, flow, e);
    } else if Rev(e) in steps {
      assert Rev(e) !in capacity && Cancellable(capacity, flow, Rev(e));
    }
  }

  /** One successful corrected step moves `d` units of net flow out of the
      step's tail and into its head, and adds no key outside the capacity
      map. */
  lemma CapacityStepNetOut(capacity: map<Edge, int>, f: map<Edge, int>, e: Edge, d: int, es: seq<Edge>, n: Node)
    requires CapacityStep(capacity, f, e, d).Ok? && Distinct(es)
    requires forall x :: x in capacity ==> x in es
    requires forall x :: x in f ==> x in capacity
    ensures forall x :: x in CapacityStep(capacity, f, e, d).value ==> x in capacity
    ensures NetOut(CapacityStep(capacity, f, e, d).value, es, n)
      == NetOut(f, es, n) + (if e.0 == n then d else 0) - (if e.1 == n then d else 0)
  {
    var g := CapacityStep(capacity, f, e, d).value;
    if e in capacity {
      NetOutUpdate(f, g, es, e, n);
    } else {
      NetOutUpdate(f, g, es, Rev(e), n);
    }
  }

  /** After `k` successful corrected steps, net flow has moved by `d` from
      the path's first node to its k-th. */
  lemma {:induction false} CapacityRunNetOut(capacity: map<Edge, int>, flow: map<Edge, int>, p: seq<Node>,
                                             k: nat, d: int, es: seq<Edge>, n: Node)
    requires k < |p| && Distinct(es)
    requires (forall x :: x in capacity ==> x in es) && (forall x :: x in flow ==> x in capacity)
    requires CapacityRun(capacity, flow, p, k, d).0.Pass?
    ensures forall x :: x in CapacityRun(capacity, flow, p, k, d).1 ==> x in capacity
    ensures NetOut(CapacityRun(capacity, flow, p, k, d).1, es, n)
      == NetOut(flow, es, n) + (if p[0] == n then d else 0) - (if p[k] == n then d else 0)
  {
    if k > 0 {
      CapacityRunNetOut(capacity, flow, p, k - 1, d, es, n);
      CapacityStepNetOut(capacity, CapacityRun(capacity, flow, p, k - 1, d).1, StepEdge(p, k - 1), d, es, n);
    }
  }

  /** What augmenting with the corrected test achieves along every
      augmenting path the search reports: it succeeds, the flow stays
      feasible and conserved, and the net flow out of the source grows by
      the bottleneck. */
  lemma CapacityAugmentIntended(rc: map<Edge, int>, capacity: map<Edge, int>, flow: map<Edge, int>,
                                es: seq<Edge>, p: seq<Node>, d: int)
    requires IsResidualOf(rc, capacity, flow) && NoAntiParallel(capacity) && Feasible(capacity, flow)
    requires Distinct(es) && forall x :: x in capacity ==> x in es
    requires |p| >= 2 && Distinct(p) && p[0] == Source && p[|p| - 1] == Sink
    requires Bottleneck(rc, p) == Ok(d)
    ensures CapacityRun(capacity, flow, p, |p| - 1, d).0 == Pass
    ensures Feasible(capacity, CapacityRun(capacity, flow, p, |p| - 1, d).1)
    ensures NetOut(CapacityRun(capacity, flow, p, |p| - 1, d).1, es, Source) == NetOut(flow, es, Source) + d
    ensures Conserved(flow, es) ==> Conserved(CapacityRun(capacity, flow, p, |p| - 1, d).1, es)
  {
    CapacityAugmentFeasible(rc, capacity, flow, p, d);
    CapacitySourceToSink(capacity, flow, es, p, d);
  }

  /** A successful corrected run from the source to the sink raises the net
      flow out of the source by `d` and keeps every other node but the sink
      as it was. */
  lemma CapacitySourceToSink(capacity: map<Edge, int>, flow: map<Edge, int>, es: seq<Edge>, p: seq<Node>, d: int)
    requires Distinct(es) && (forall x :: x in capacity ==> x in es) && (forall x :: x in flow ==> x in capacity)
    requires |p| >= 2 && p[0] == Source && p[|p| - 1] == Sink
    requires CapacityRun(capacity, flow, p, |p| - 1, d).0.Pass?
    ensures NetOut(CapacityRun(capacity, flow, p, |p| - 1, d).1, es, Source) == NetOut(flow, es, Source) + d
    ensures forall n :: n != Source && n != Sink ==>
      NetOut(CapacityRun(capacity, flow, p, |p| - 1, d).1, es, n) == NetOut(flow, es, n)
    ensures Conserved(flow, es) ==> Conserved(CapacityRun(capacity, flow, p, |p| - 1, d).1, es)
  {
    assert Source[0] != Sink[0];
    var g := CapacityRun(capacity, flow, p, |p| - 1, d).1;
    forall n
      ensures NetOut(g, es, n) == NetOut(flow, es, n) + (if Source == n then d else 0) - (if Sink == n then d else 0)
    {
      CapacityRunNetOut(capacity, flow, p, |p| - 1, d, es, n);
    }
  }
}
