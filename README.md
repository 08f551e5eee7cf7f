# Ford-Fulkerson max-flow engine, modelled in Dafny

This project models `maxflow.py`, a small maximum-flow engine. A `Graph`
object loads an edge list of `(tail, head, weight)` lines into a `capacity`
map, a `children` map and an all-zero `flow` map. The driver
`find_max_flow` then repeats one round until no round is possible:

- rebuild the residual network (`get_residual_graph`);
- enumerate every simple source-to-sink path in it by depth-first search
  (`get_augmenting_paths`);
- stop when there is none, reporting the edges with positive flow in
  sorted order;
- otherwise pick one path at random and augment the flow along it by the
  path's bottleneck (`get_path_residual_capacity`, `augment_with_path`).

The model keeps the program's imperative shape. `MaxFlow.Graph` is a class
with the fields `children`, `capacity`, `flow`, `residualCapacity` and
`residualGraph`. Its methods update those fields with loops, as the Python
methods do. The depth-first search `get_paths` is a recursive method,
`PathSearch.CollectPaths`. It threads the search's shared `visited` set and
`paths` list in and out, since the Python closure mutates them. Each method
is proved against a specification function or predicate:

| code | specification |
|---|---|
| constructor | `EdgeList.CapacityOf`, `EdgeList.ChildrenOf` |
| residual rebuild | `Residual.IsResidualOf`, `Residual.IsAdjacencyOf` |
| path search | `PathSearch.SimplePath`, `PathSearch.Extends` |
| bottleneck | `Augmentation.Bottleneck` |
| augmentation | `Augmentation.Run`, built from `Augmentation.Step` |
| report | `EdgeOrder.PositiveEntries` |

Lemmas then prove what the program promises about those functions:

- feasibility is kept;
- flow is conserved;
- net flow out of the source grows;
- the number of augmentations is bounded;
- on a normal stop, the flow is maximum (module `MinCut`).

Failures of the code become values of `FlowTypes.Failure`:

| failure | code |
|---|---|
| `FlowOutgrowsCapacity` | the assert at maxflow.py:45 |
| `AntiParallel` | the assert at maxflow.py:53 |
| `UndefinedGetResidual` | the call to the undefined `get_residual` at maxflow.py:77 |
| `MissingResidual` | the `KeyError` at maxflow.py:106 |
| `NothingToCancel` | the assert at maxflow.py:118 |

Where the engine's design description and its code disagree, the model
follows the code:

- **Duplicate lines.** The design says they are rejected. The code keeps
  the last weight (`EdgeList.CapacityKeepsLastWeight`) and lists the head
  twice among the children (`EdgeList.ChildrenAreHeads`).
- **Negative weights.** The design says they are rejected. The code accepts
  any integer, so `FlowTypes.Feasible` also admits a zero flow on an edge
  whose weight is negative.
- **Anti-parallel check.** The design says only edges with positive
  capacity are checked. The code fails on any capacity edge whose reverse
  is also a capacity edge, whatever the weights and flows.
- **Empty residual map.** The design says the search then returns no
  paths. The code calls a method that does not exist, so the model fails
  with `UndefinedGetResidual`.
- **Forward test in augmentation.** The design says a step that is a
  capacity edge is increased. The code increases a step that is a flow key
  (maxflow.py:114). The consequence is under "Findings".

## Model

| member | source | states |
|---|---|---|
| MaxFlow.Graph.constructor | maxflow.py:15-27 | Builds the capacity map and children map from the lines in order. Gives every capacity key, and nothing else, a zero flow. Records the capacity keys once each as `edges`. |
| EdgeList.CapacityKeys | maxflow.py:22 | A pair is a capacity key exactly when some line names it. |
| EdgeList.CapacityKeepsLastWeight | maxflow.py:22 | The weight stored for a pair is the weight on the last line naming it. |
| EdgeList.ChildrenAreHeads | maxflow.py:18-21 | A node has a children list exactly when it is the tail of some line. The list holds the heads of those lines in input order, duplicates included. |
| FlowSums.ZeroFlowNetOut | maxflow.py:25-27 | The all-zero starting flow has net outflow zero at every node, so it is conserved. |
| MaxFlow.Graph.RebuildResidual | maxflow.py:44-64 | Fails with `FlowOutgrowsCapacity` exactly when the flow map has more keys than the capacity map. Otherwise it fails with `AntiParallel` exactly when some capacity edge's reverse is a capacity edge, naming such an edge. Otherwise it succeeds with a residual map satisfying `IsResidualOf` and adjacency lists satisfying `IsAdjacencyOf`. |
| MaxFlow.Graph.BuildResidualCapacity | maxflow.py:46-55 | Succeeds exactly when no capacity edge has its reverse as a capacity edge. On success the residual map holds a forward key with the room left for every capacity edge with room, a reverse key with the flow for every capacity edge with positive flow, and nothing else. |
| MaxFlow.Graph.BuildResidualGraph | maxflow.py:57-64 | `v` is on the list of `u` exactly when `(u, v)` is a residual key. Each list is non-empty and repeats no node. |
| Residual.ResidualPositive | maxflow.py:50-55 | Every residual value is strictly positive once the anti-parallel check has passed. |
| Residual.ResidualUnique | maxflow.py:46-55 | The residual map is determined by the capacity and flow maps. |
| Residual.EmptyResidual | maxflow.py:46-55 | For a feasible flow, the residual map is empty exactly when no capacity is positive. |
| MaxFlow.FeasibleFlowFits | maxflow.py:45 | A feasible flow map is never larger than the capacity map, so the size check passes. |
| MaxFlow.Graph.AugmentingPaths | maxflow.py:75-101 | Fails with `UndefinedGetResidual` exactly when the residual map is empty. Otherwise it returns a list whose members are exactly the simple paths from `s` to `t` in the residual adjacency lists. |
| PathSearch.CollectPaths | maxflow.py:81-94 | Answers true exactly when `start` is the target. The marked set is always the nodes of the current branch and never holds the target; the call hands it back as it found it, plus `start` when the answer is false. The call only appends to the path list, and what it appends is exactly the simple walks to the target that begin with the branch. |
| PathSearch.ExtendsStart | maxflow.py:96 | The walks that begin with the one-node branch `[s]` are exactly the simple paths from `s`. |
| MaxFlow.PathsAreResidual | maxflow.py:80-96 | A path the search returns has at least two nodes, starts at `s`, ends at `t`, repeats no node, and every step is a residual key. |
| Augmentation.Bottleneck | maxflow.py:103-108 | Succeeds exactly when every step is a residual key. The result is at most every step's residual and equal to one of them. On failure it names the first step that is not a key. |
| MaxFlow.Graph.PathResidualCapacity | maxflow.py:103-108 | The min-accumulator loop returns `Bottleneck` of the path. |
| Augmentation.StepsAreBounded | maxflow.py:104-107 | Over a rebuilt residual map, the bottleneck is positive and at most every step's residual. |
| MaxFlow.Graph.Augment | maxflow.py:110-121 | A bottleneck failure leaves the flow untouched. Otherwise the outcome and the new flow are `Run` of the old flow over every step. |
| Augmentation.RunIsAugmented | maxflow.py:112-121 | A run along a simple path succeeds exactly when every step or its reverse is a flow key. Its result is then the closed form `Augmented`: a step that is a flow key gains the bottleneck; the flow key of a reversed step loses it and disappears at zero. On failure it names a step with neither key. |
| Augmentation.RunStaysFailed | maxflow.py:118 | After a failed step, further steps change nothing. |
| Augmentation.AugmentFailsOnDroppedEdge | maxflow.py:114-121 | Along a simple path of residual keys, augmenting fails exactly when some step is a capacity edge without a flow key. |
| Augmentation.AugmentFailureNamesDroppedEdge | maxflow.py:114-118 | A failed augmentation along residual keys names a capacity edge that is not a flow key. |
| Augmentation.AugmentKeepsFeasible | maxflow.py:110-121 | A successful augmentation by the bottleneck keeps every flow key a capacity edge, with flow between zero and its capacity. |
| Augmentation.AugmentLeavesOtherEdges | maxflow.py:112-121 | An edge that is neither a step nor the reverse of one keeps its flow and its presence in the map. |
| Augmentation.StepNetOut | maxflow.py:114-121 | One step moves the bottleneck of net outflow from the step's head to its tail and adds no key. |
| Augmentation.RunNetOut | maxflow.py:112-121 | After `k` steps, net outflow has risen by the bottleneck at the first node and fallen by it at the `k`-th. |
| Augmentation.SourceToSinkNetOut | maxflow.py:110-121 | A successful augmentation from `s` to `t` raises net outflow at `s` by the bottleneck, lowers it at `t` by the same, leaves every other node unchanged, and so keeps the flow conserved. |
| FlowSums.NetOutBounded | maxflow.py:129-157 | A feasible flow's net outflow at a node never exceeds the positive capacity leaving it. This bounds the driver's loop. |
| MaxFlow.AugmentationProgress | maxflow.py:154-157 | One successful round keeps the flow feasible and conserved, raises the net outflow at `s` by at least one, and stays within the capacity leaving `s`. |
| MaxFlow.RebuildAndSearch | maxflow.py:131-133 | A round's rebuild and search on a feasible flow either fail with `AntiParallel`, when there are anti-parallel edges, or with `UndefinedGetResidual`, when no capacity is positive; otherwise they return exactly the simple `s`-`t` paths of a correct residual network. |
| MaxFlow.AugmentRound | maxflow.py:154-157 | Augmenting along a returned path either keeps the flow feasible and conserved with a larger net outflow at `s`, or fails with `NothingToCancel` on a capacity edge. |
| MaxFlow.FindMaxFlow | maxflow.py:128-159 | Capacity, children and edge list are unchanged. The number of augmentations is at most the capacity leaving `s` minus the starting net outflow. A normal stop leaves a feasible, conserved, maximum flow with no augmenting path left, and reports exactly the positive flow entries in strictly increasing edge order. Fails with `AntiParallel` exactly when there are anti-parallel edges, and with `UndefinedGetResidual` exactly when there are none and no capacity is positive. The only other failure is `NothingToCancel` on a capacity edge. |
| EdgeOrder.EdgeLessIrreflexive | maxflow.py:136 | No edge precedes itself in the order of `sorted` on pairs of strings. |
| EdgeOrder.EdgeLessTransitive | maxflow.py:136 | The edge order is transitive. |
| EdgeOrder.EdgeLessTotal | maxflow.py:136 | Any two distinct edges are ordered. |
| EdgeOrder.MinEdge | maxflow.py:136 | Returns a member of the set that precedes every other member. |
| EdgeOrder.SortEdges | maxflow.py:136 | Returns exactly the keys, in strictly increasing order. |
| EdgeOrder.PositiveEntriesMembers | maxflow.py:137-139 | An edge and an amount are reported exactly when the edge is listed and carries that amount, which is positive. |
| EdgeOrder.PositiveEntriesSorted | maxflow.py:137-139 | Filtering a strictly increasing edge list keeps the order. |
| EdgeOrder.PositiveFlowReport | maxflow.py:136-139 | The report holds exactly the flow entries with positive value, in strictly increasing edge order. |
| MinCut.CutFlowAdd | maxflow.py:134-140 | Adding a node to a node set adds that node's net outflow to the set's net outflow. |
| MinCut.CutFlowIsSourceNetOut | maxflow.py:134-140 | For a conserved flow, the net outflow of a set holding `s` and not `t` is the net outflow at `s`. |
| MinCut.CutFlowBounded | maxflow.py:134-140 | A feasible flow sends no more out of a node set than the positive capacity leaving it. |
| MinCut.FlowBelowCut | maxflow.py:134-140 | No feasible, conserved flow sends more out of `s` than the capacity leaving any set that holds `s` and not `t`. |
| MinCut.SaturatedCut | maxflow.py:134-140 | When every capacity edge leaving the set has no room and no capacity edge entering it carries flow, the set's net outflow equals the capacity leaving it. |
| MinCut.ReachableStep | maxflow.py:81-94 | A node adjacent to a node reachable by a simple residual path from `s` is itself reachable. |
| MinCut.ReachableSet | maxflow.py:81-94 | The finite set of nodes reachable by a simple residual path from `s`. |
| MinCut.NoAugmentingPathMeansMaximum | maxflow.py:134-140 | When the search finds no path, the reachable set holds `s` and not `t`. The flow's net outflow at `s` equals the capacity leaving that set, and no feasible, conserved flow sends more. |
| ForwardTest.ExampleLinesRead | maxflow.py:15-22 | The five example lines load as the example capacity map. |
| ForwardTest.ExampleHasNoAntiParallel | maxflow.py:53 | The example passes the anti-parallel check. |
| ForwardTest.FirstRound | maxflow.py:110-121 | From the zero flow, `s a b t` is a simple residual path with bottleneck 1, and augmenting along it succeeds. |
| ForwardTest.SecondRound | maxflow.py:110-121 | Next, `s b a t` is a simple residual path with bottleneck 1. Augmenting along it cancels the unit on `a->b` and drops that flow entry. |
| ForwardTest.ThirdRound | maxflow.py:114-118 | Next, `s a b t` is again a simple residual path with bottleneck 1, yet augmenting along it fails with `NothingToCancel` on `a->b`. |
| ForwardTest.CapacityRunAgrees | maxflow.py:114-121 | Wherever the code's run succeeds, the run with the capacity test gives the same outcome and flow. |
| ForwardTest.CapacityRunShifted | maxflow.py:112-121 | With the capacity test, every step along a simple path succeeds when each step is a capacity edge or the reverse of one with flow. The flow then moves by the bottleneck along the steps. |
| ForwardTest.CapacityAugmentFeasible | maxflow.py:110-121 | With the capacity test, augmenting by the bottleneck along a simple path of residual keys never fails and keeps the flow feasible. |
| ForwardTest.CapacitySourceToSink | maxflow.py:110-121 | With the capacity test, a successful `s`-`t` augmentation raises net outflow at `s` by the bottleneck and keeps every node other than `s` and `t` conserved. |
| ForwardTest.CapacityAugmentIntended | maxflow.py:110-121 | With the capacity test, augmenting along any path the search returns succeeds. The flow stays feasible and conserved, and its net outflow at `s` grows by the bottleneck. |

## Left out

- File reading (maxflow.py:6, 14-23): the constructor takes the parsed lines as a sequence of triples. Splitting on `;` and `int()` parsing are not modelled.
- `read_flow_from_file` (maxflow.py:29-42) is not modelled. `FindMaxFlow` requires a feasible, conserved starting flow, which the constructor provides.
- All printing (maxflow.py:66-73, 98-99, 135-139, 142, 155, 158-159), `main` (maxflow.py:161-170) and the dead blocks (maxflow.py:39-42, 123-126, 143-153). The final report is returned as a sorted sequence instead of printed.
- The bottleneck printing at maxflow.py:98-99 calls `get_path_residual_capacity` on every returned path. It cannot fail there, because every step of a returned path is a residual key (`MaxFlow.PathsAreResidual`), so it is not modelled.
- `random.randint` (maxflow.py:154): the driver picks any index of the path list by `:|`, so every proof holds for every choice.
- Dict iteration order: loops over dict keys pick the next key by `:|`. The contracts state set-level facts, and the order of the returned paths is not promised.
- `self.nodes`, `self.source` and `self.sink` (maxflow.py:7-10) are constants `Source` and `Sink`; the unused node list is not modelled.
- MaxFlow.Graph.PathResidualCapacity: the infinite starting value (maxflow.py:104) is not modelled. The method requires a path of at least two nodes, which every source-to-sink path has.
- MaxFlow.Graph.Augment: requires a path of at least two nodes, for the same reason.
- MaxFlow.Graph.RebuildResidual: after a failed check the partially built residual fields are left unspecified.
- MaxFlow.FindMaxFlow: after a failure the flow map is left unspecified.
- Integers are unbounded, as Python's are.

## Findings

| source | as written | input that shows it | evidently intended | confidence | as-written member | corrected member |
|---|---|---|---|---|---|---|
| maxflow.py:114 | A step counts as forward when it is a flow key. A capacity edge whose flow entry was dropped at zero (maxflow.py:120-121) is then taken for a reverse step, and the assert at maxflow.py:118 fails. | Lines `s;a;2`, `a;b;1`, `b;t;2`, `s;b;1`, `a;t;1`. Augment along `s a b t`, then `s b a t` (one of the three paths the search then returns), then `s a b t`, the only path left. The third augmentation fails although the maximum flow is 3 and only 2 has been sent. | A step counts as forward when it is a capacity edge, as the design description of the augmentation states. Augmenting along every returned path then succeeds, keeps the flow feasible and conserved, and raises the net outflow at `s` by the bottleneck. | not executed | ForwardTest.ThirdRound | ForwardTest.CapacityAugmentIntended |

The driver `MaxFlow.FindMaxFlow` keeps the test as written, so
`NothingToCancel` stays among its failures. The corrected step is
`ForwardTest.CapacityStep` and its run is `ForwardTest.CapacityRun`.
`ForwardTest.CapacityRunAgrees` shows that the corrected run matches the
code's run wherever the code's run succeeds, so every successful round of
the driver is also a round of the corrected engine.
`ForwardTest.CapacityAugmentIntended` shows that the corrected augmentation
succeeds along every path the search returns.
