/** Augmenting the flow along a path: the bottleneck of the path, the
    edge-by-edge update as the code performs it, and what that update does to
    the flow as a whole. */
module Augmentation {
  import opened FlowTypes
  import opened Residual
  import opened FlowSums

  /** The path's i-th step. */
  function StepEdge(p: seq<Node>, i: nat): Edge
    requires i + 1 < |p|
  {
    (p[i], p[i + 1])
  }

  /** Every step of the path is a residual key. */
  ghost predicate OnResidual(rc: map<Edge, int>, p: seq<Node>)
  {
    forall i :: 0 <= i < |p| - 1 ==> StepEdge(p, i) in rc
  }

  /** The smallest residual capacity along the path; the first step that is
      not a residual key is a failure (a KeyError in the code). */
  function Bottleneck(rc: map<Edge, int>, p: seq<Node>): (r: Result<int>)
    requires |p| >= 2
    ensures r.Ok? <==> OnResidual(rc, p)
    ensures r.Ok? ==> forall i :: 0 <= i < |p| - 1 ==> r.value <= rc[StepEdge(p, i)]
    ensures r.Ok? ==> exists i :: 0 <= i < |p| - 1 && r.value == rc[StepEdge(p, i)]
    ensures r.Err? ==> exists k :: (0 <= k < |p| - 1 && r.error == MissingResidual(StepEdge(p, k))
      && StepEdge(p, k) !in rc && forall j :: 0 <= j < k ==> StepEdge(p, j) in rc)
    decreases |p|
  {
    var e := (p[0], p[1]);
    assert StepEdge(p, 0) == e;
    if e !in rc then Err(MissingResidual(e))
    else if |p| == 2 then Ok(rc[e])
    else
      var rest := Bottleneck(rc, p[1..]);
      assert forall i :: 0 <= i < |p| - 2 ==> StepEdge(p[1..], i) == StepEdge(p, i + 1);
      if rest.Err? then
        ghost var k :| 0 <= k < |p| - 2 && rest.error == MissingResidual(StepEdge(p[1..], k))
          && StepEdge(p[1..], k) !in rc && forall j :: 0 <= j < k ==> StepEdge(p[1..], j) in rc;
        assert forall j :: 0 <= j < k + 1 ==> StepEdge(p, j) in rc by {
          forall j | 0 < j < k + 1 ensures StepEdge(p, j) in rc {
            assert StepEdge(p, j) == StepEdge(p[1..], j - 1);
          }
        }
        Err(rest.error)
      else
        ghost var i :| 0 <= i < |p| - 2 && rest.value == rc[StepEdge(p[1..], i)];
        assert rest.value == rc[StepEdge(p, i + 1)];
        assert forall j :: 0 < j < |p| - 1 ==> StepEdge(p, j) in rc && rest.value <= rc[StepEdge(p, j)] by {
          forall j | 0 < j < |p| - 1 ensures StepEdge(p, j) in rc && rest.value <= rc[StepEdge(p, j)] {
            assert StepEdge(p, j) == StepEdge(p[1..], j - 1);
          }
        }
        Ok(if rc[e] < rest.value then rc[e] else rest.value)
  }

  /** One step of `augment_with_path` on edge `e` by amount `d`: a flow key is
      increased; otherwise the reverse must be a flow key, which is decreased
      and dropped when it reaches zero. */
  function Step(flow: map<Edge, int>, e: Edge, d: int): Result<map<Edge, int>>
  {
    if e in flow then Ok(flow[e := flow[e] + d])
    else if Rev(e) !in flow then Err(NothingToCancel(e))
    else
      var left := flow[Rev(e)] - d;
      Ok(if left == 0 then flow - {Rev(e)} else flow[Rev(e) := left])
  }

  /** The outcome and the flow after the first `k` steps of the path; after
      a failing step, the flow as that step found it. */
  function Run(flow: map<Edge, int>, p: seq<Node>, k: nat, d: int): (Outcome, map<Edge, int>)
    requires k < |p|
  {
    if k == 0 then (Pass, flow)
    else
      var prev := Run(flow, p, k - 1, d);
      if prev.0.Fail? then prev
      else match Step(prev.1, StepEdge(p, k - 1), d)
        case Ok(f) => (Pass, f)
        case Err(x) => (Fail(x), prev.1)
  }

  /** The steps among the first `k` of the path. */
  ghost function StepsUpTo(p: seq<Node>, k: nat): set<Edge>
    requires k < |p|
  {
    set i | 0 <= i < k :: StepEdge(p, i)
  }

  /** The flow that augmenting by `d` along the steps `es` produces, key by
      key: a step that is a flow key gains `d`; a flow key whose reverse is a
      step that is not itself a flow key loses `d`, and goes away at zero;
      every other key is kept. */
  ghost function Augmented(flow: map<Edge, int>, es: set<Edge>, d: int): map<Edge, int>
  {
    map e | e in flow && !(Rev(e) in es && Rev(e) !in flow && flow[e] == d) ::
      if e in es then flow[e] + d
      else if Rev(e) in es && Rev(e) !in flow then flow[e] - d
      else flow[e]
  }

  lemma StepsUpToNext(p: seq<Node>, k: nat)
    requires k + 1 < |p| && Distinct(p)
    ensures StepsUpTo(p, k + 1) == StepsUpTo(p, k) + {StepEdge(p, k)}
    ensures StepEdge(p, k) !in StepsUpTo(p, k) && Rev(StepEdge(p, k)) !in StepsUpTo(p, k)
    ensures StepEdge(p, k) != Rev(StepEdge(p, k))
  {
    forall i | 0 <= i < k
      ensures StepEdge(p, i) != StepEdge(p, k) && StepEdge(p, i) != Rev(StepEdge(p, k))
    {
      assert p[i] != p[k] && p[i] != p[k + 1];
    }
  }

  /** Augmenting along one more step, when neither that step nor its reverse
      was among the earlier ones. */
  lemma AugmentedNext(flow: map<Edge, int>, es: set<Edge>, e: Edge, d: int)
    requires e !in es && Rev(e) !in es && e != Rev(e)
    requires e in flow || Rev(e) in flow
    ensures Step(Augmented(flow, es, d), e, d) == Ok(Augmented(flow, es + {e}, d))
  {
    var f := Augmented(flow, es, d);
    var g := Augmented(flow, es + {e}, d);
    assert Rev(Rev(e)) == e;
    assert e in f <==> e in flow;
    assert Rev(e) in f <==> Rev(e) in flow;
    if e in flow {
      assert f[e] == flow[e];
      var h := f[e := flow[e] + d];
      assert h.Keys == g.Keys;
      assert forall x :: x in h ==> h[x] == g[x];
      assert h == g;
    } else {
      assert f[Rev(e)] == flow[Rev(e)];
      var left := flow[Rev(e)] - d;
      var h := if left == 0 then f - {Rev(e)} else f[Rev(e) := left];
      assert h.Keys == g.Keys;
      assert forall x :: x in h ==> h[x] == g[x];
      assert h == g;
    }
  }

  /** The step-by-step run along a simple path agrees with the key-by-key
      description: it succeeds exactly when every step or its reverse is a
      flow key, and then produces `Augmented`; a failure names a step such
      that neither it nor its reverse is a flow key. */
  lemma {:induction false} RunIsAugmented(flow: map<Edge, int>, p: seq<Node>, k: nat, d: int)
    requires k < |p| && Distinct(p)
    ensures Run(flow, p, k, d).0.Pass? <==>
      forall e :: e in StepsUpTo(p, k) ==> e in flow || Rev(e) in flow
    ensures Run(flow, p, k, d).0.Pass? ==> Run(flow, p, k, d).1 == Augmented(flow, StepsUpTo(p, k), d)
    ensures Run(flow, p, k, d).0.Fail? ==> exists e :: (e in StepsUpTo(p, k) && e !in flow && Rev(e) !in flow
      && Run(flow, p, k, d).0.error == NothingToCancel(e))
  {
    if k == 0 {
      assert Augmented(flow, {}, d) == flow;
    } else {
      RunIsAugmented(flow, p, k - 1, d);
      StepsUpToNext(p, k - 1);
      var e := StepEdge(p, k - 1);
      var prev := Run(flow, p, k - 1, d);
      if prev.0.Pass? {
        if e in flow || Rev(e) in flow {
          AugmentedNext(flow, StepsUpTo(p, k - 1), e, d);
        } else {
          var f := Augmented(flow, StepsUpTo(p, k - 1), d);
          assert e !in f && Rev(e) !in f;
        }
      }
    }
  }

  /** Once a step has failed, the later steps are not taken: the outcome and
      the flow stay as the failing step left them. */
  lemma {:induction false} RunStaysFailed(flow: map<Edge, int>, p: seq<Node>, k: nat, m: nat, d: int)
    requires k <= m < |p| && Run(flow, p, k, d).0.Fail?
    ensures Run(flow, p, m, d) == Run(flow, p, k, d)
  {
    if m > k {
      RunStaysFailed(flow, p, k, m - 1, d);
    }
  }

  /** Along a simple path whose steps are residual keys, augmenting by the
      bottleneck fails exactly when some step is a capacity edge that is
      missing from the flow map (an entry dropped at zero earlier). */
  lemma AugmentFailsOnDroppedEdge(rc: map<Edge, int>, capacity: map<Edge, int>, flow: map<Edge, int>,
                                  p: seq<Node>, d: int)
    requires IsResidualOf(rc, capacity, flow) && NoAntiParallel(capacity) && Feasible(capacity, flow)
    requires |p| >= 2 && Distinct(p) && OnResidual(rc, p)
    ensures Run(flow, p, |p| - 1, d).0.Pass? <==>
      forall i :: 0 <= i < |p| - 1 && StepEdge(p, i) in capacity ==> StepEdge(p, i) in flow
  {
    RunPassCondition(flow, p, d);
    StepsCoveredWhenKept(rc, capacity, flow, p);
  }

  /** A full run succeeds exactly when every step or its reverse is a flow key. */
  lemma RunPassCondition(flow: map<Edge, int>, p: seq<Node>, d: int)
    requires |p| >= 2 && Distinct(p)
    ensures Run(flow, p, |p| - 1, d).0.Pass? <==>
      forall e :: e in StepsUpTo(p, |p| - 1) ==> e in flow || Rev(e) in flow
  {
    RunIsAugmented(flow, p, |p| - 1, d);
  }

  /** For steps that are residual keys, "the step or its reverse is a flow
      key" means "the step is a flow key whenever it is a capacity edge". */
  lemma StepsCoveredWhenKept(rc: map<Edge, int>, capacity: map<Edge, int>, flow: map<Edge, int>, p: seq<Node>)
    requires IsResidualOf(rc, capacity, flow) && NoAntiParallel(capacity) && Feasible(capacity, flow)
    requires |p| >= 2 && OnResidual(rc, p)
    ensures (forall e :: e in StepsUpTo(p, |p| - 1) ==> e in flow || Rev(e) in flow) <==>
      forall i :: 0 <= i < |p| - 1 && StepEdge(p, i) in capacity ==> StepEdge(p, i) in flow
  {
    var steps := StepsUpTo(p, |p| - 1);
    forall e | e in steps
      ensures (e in flow || Rev(e) in flow) <==> (e in capacity ==> e in flow)
    {
      var i :| 0 <= i < |p| - 1 && StepEdge(p, i) == e;
      assert e in rc;
      if e !in capacity {
        assert Cancellable(capacity, flow, e);
      }
    }
    if forall i :: 0 <= i < |p| - 1 && StepEdge(p, i) in capacity ==> StepEdge(p, i) in flow {
      forall e | e in steps
        ensures e in capacity ==> e in flow
      {
        var i :| 0 <= i < |p| - 1 && StepEdge(p, i) == e;
      }
    }
  }

  /** A failed augmentation along residual keys always names a capacity edge
      that has no flow key: an entry dropped at zero by an earlier
      augmentation, which the forward test takes for a reverse step. */
  lemma AugmentFailureNamesDroppedEdge(rc: map<Edge, int>, capacity: map<Edge, int>, flow: map<Edge, int>,
                                       p: seq<Node>, d: int)
    requires IsResidualOf(rc, capacity, flow)
    requires |p| >= 2 && Distinct(p) && OnResidual(rc, p)
    requires Run(flow, p, |p| - 1, d).0.Fail?
    ensures Run(flow, p, |p| - 1, d).0.error.NothingToCancel?
    ensures Run(flow, p, |p| - 1, d).0.error.edge in capacity
    ensures Run(flow, p, |p| - 1, d).0.error.edge !in flow
  {
    RunIsAugmented(flow, p, |p| - 1, d);
    var e :| e in StepsUpTo(p, |p| - 1) && e !in flow && Rev(e) !in flow
      && Run(flow, p, |p| - 1, d).0.error == NothingToCancel(e);
    var i :| 0 <= i < |p| - 1 && StepEdge(p, i) == e;
    assert e in rc && !Cancellable(capacity, flow, e);
  }

  /** One key of `Augmented` stays feasible when every step is a residual
      key holding at least `d > 0`. */
  lemma AugmentedKeyFeasible(rc: map<Edge, int>, capacity: map<Edge, int>, flow: map<Edge, int>,
                             steps: set<Edge>, d: int, e: Edge)
    requires IsResidualOf(rc, capacity, flow) && NoAntiParallel(capacity) && Feasible(capacity, flow)
    requires d > 0 && forall x :: x in steps ==> x in rc && d <= rc[x]
    requires e in Augmented(flow, steps, d)
    ensures e in capacity && 0 <= Augmented(flow, steps, d)[e]
    ensures Augmented(flow, steps, d)[e] <= capacity[e] || Augmented(flow, steps, d)[e] == 0
  {
    assert Rev(Rev(e)) == e;
    if e in steps {
      assert !Cancellable(capacity, flow, e);
    } else if Rev(e) in steps && Rev(e) !in flow {
      assert Rev(e) !in capacity;
    }
  }

  /** A full run along a simple path that succeeds produces `Augmented`. */
  lemma RunAlongPath(flow: map<Edge, int>, p: seq<Node>, d: int)
    requires |p| >= 2 && Distinct(p) && Run(flow, p, |p| - 1, d).0.Pass?
    ensures Run(flow, p, |p| - 1, d).1 == Augmented(flow, StepsUpTo(p, |p| - 1), d)
  {
    RunIsAugmented(flow, p, |p| - 1, d);
  }

  /** Augmenting a feasible flow by `d > 0` along residual keys that each
      hold at least `d` keeps it feasible. */
  lemma AugmentedFeasible(rc: map<Edge, int>, capacity: map<Edge, int>, flow: map<Edge, int>,
                          steps: set<Edge>, d: int)
    requires IsResidualOf(rc, capacity, flow) && NoAntiParallel(capacity) && Feasible(capacity, flow)
    requires d > 0 && forall x :: x in steps ==> x in rc && d <= rc[x]
    ensures Feasible(capacity, Augmented(flow, steps, d))
  {
    var f := Augmented(flow, steps, d);
    forall e | e in f
      ensures e in capacity && 0 <= f[e] && (f[e] <= capacity[e] || f[e] == 0)
    {
      AugmentedKeyFeasible(rc, capacity, flow, steps, d, e);
    }
  }

  /** Augmenting a feasible flow by the bottleneck of a simple path of
      residual keys keeps it feasible: every flow key stays between zero and
      its edge's capacity. */
  lemma AugmentKeepsFeasible(rc: map<Edge, int>, capacity: map<Edge, int>, flow: map<Edge, int>,
                             p: seq<Node>, d: int)
    requires IsResidualOf(rc, capacity, flow) && NoAntiParallel(capacity) && Feasible(capacity, flow)
    requires |p| >= 2 && Distinct(p) && Bottleneck(rc, p) == Ok(d)
    requires Run(flow, p, |p| - 1, d).0.Pass?
    ensures Feasible(capacity, Run(flow, p, |p| - 1, d).1)
  {
    StepsAreBounded(rc, capacity, flow, p, d);
    AugmentedFeasible(rc, capacity, flow, StepsUpTo(p, |p| - 1), d);
    RunAlongPath(flow, p, d);
  }

  /** The bottleneck is positive and at most the residual of every step. */
  lemma StepsAreBounded(rc: map<Edge, int>, capacity: map<Edge, int>, flow: map<Edge, int>, p: seq<Node>, d: int)
    requires IsResidualOf(rc, capacity, flow) && NoAntiParallel(capacity)
    requires |p| >= 2 && Bottleneck(rc, p) == Ok(d)
    ensures d > 0 && forall x :: x in StepsUpTo(p, |p| - 1) ==> x in rc && d <= rc[x]
  {
    var i0 :| 0 <= i0 < |p| - 1 && d == rc[StepEdge(p, i0)];
    ResidualPositive(rc, capacity, flow, StepEdge(p, i0));
    forall x | x in StepsUpTo(p, |p| - 1)
      ensures x in rc && d <= rc[x]
    {
      var i :| 0 <= i < |p| - 1 && StepEdge(p, i) == x;
    }
  }

  /** Augmenting leaves every edge alone that is neither a step of the path
      nor the reverse of one. */
  lemma AugmentLeavesOtherEdges(flow: map<Edge, int>, p: seq<Node>, d: int, e: Edge)
    requires |p| >= 2 && Distinct(p) && Run(flow, p, |p| - 1, d).0.Pass?
    requires forall i :: 0 <= i < |p| - 1 ==> StepEdge(p, i) != e && StepEdge(p, i) != Rev(e)
    ensures e in Run(flow, p, |p| - 1, d).1 <==> e in flow
    ensures FlowAt(Run(flow, p, |p| - 1, d).1, e) == FlowAt(flow, e)
  {
    RunIsAugmented(flow, p, |p| - 1, d);
    assert e !in StepsUpTo(p, |p| - 1) && Rev(e) !in StepsUpTo(p, |p| - 1);
  }

  /** One step moves `d` units of net flow from the step's head to its tail
      (from the point of view of net outflow), and adds no flow key. */
  lemma StepNetOut(f: map<Edge, int>, e: Edge, d: int, es: seq<Edge>, n: Node)
    requires Step(f, e, d).Ok? && Distinct(es) && forall x :: x in f ==> x in es
    ensures forall x :: x in Step(f, e, d).value ==> x in f
    ensures NetOut(Step(f, e, d).value, es, n)
      == NetOut(f, es, n) + (if e.0 == n then d else 0) - (if e.1 == n then d else 0)
  {
    var g := Step(f, e, d).value;
    if e in f {
      NetOutUpdate(f, g, es, e, n);
    } else {
      NetOutUpdate(f, g, es, Rev(e), n);
    }
  }

  /** After the first `k` steps, the net outflow of every node has changed by
      `d` at the path's first node and by `-d` at the k-th node; in between,
      what a node gains as a head it gives back as a tail. */
  lemma {:induction false} RunNetOut(flow: map<Edge, int>, p: seq<Node>, k: nat, d: int, es: seq<Edge>, n: Node)
    requires k < |p| && Distinct(es) && forall x :: x in flow ==> x in es
    requires Run(flow, p, k, d).0.Pass?
    ensures forall x :: x in Run(flow, p, k, d).1 ==> x in flow
    ensures NetOut(Run(flow, p, k, d).1, es, n)
      == NetOut(flow, es, n) + (if p[0] == n then d else 0) - (if p[k] == n then d else 0)
  {
    if k > 0 {
      RunNetOut(flow, p, k - 1, d, es, n);
      StepNetOut(Run(flow, p, k - 1, d).1, StepEdge(p, k - 1), d, es, n);
    }
  }

  /** A successful augmentation along a path from the source to the sink
      raises the net flow out of the source by `d`, lowers that of the sink
      by `d`, and leaves every other node's net flow as it was. */
  lemma SourceToSinkNetOut(flow: map<Edge, int>, es: seq<Edge>, p: seq<Node>, d: int)
    requires Distinct(es) && forall x :: x in flow ==> x in es
    requires |p| >= 2 && p[0] == Source && p[|p| - 1] == Sink
    requires Run(flow, p, |p| - 1, d).0.Pass?
    ensures NetOut(Run(flow, p, |p| - 1, d).1, es, Source) == NetOut(flow, es, Source) + d
    ensures NetOut(Run(flow, p, |p| - 1, d).1, es, Sink) == NetOut(flow, es, Sink) - d
    ensures forall n :: n != Source && n != Sink ==>
      NetOut(Run(flow, p, |p| - 1, d).1, es, n) == NetOut(flow, es, n)
    ensures Conserved(flow, es) ==> Conserved(Run(flow, p, |p| - 1, d).1, es)
  {
    assert Source[0] != Sink[0];
    var f := Run(flow, p, |p| - 1, d).1;
    forall n
      ensures NetOut(f, es, n) == NetOut(flow, es, n) + (if Source == n then d else 0) - (if Sink == n then d else 0)
    {
      RunNetOut(flow, p, |p| - 1, d, es, n);
    }
  }
}
