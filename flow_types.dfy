/** Basic vocabulary of the flow network: nodes, edges, the failures the
    engine can raise, and the feasibility invariant of a flow map. */
module FlowTypes {

  /** A node is an opaque label; the input format writes it as a string. */
  type Node = string

  /** An ordered pair (tail, head). */
  type Edge = (Node, Node)

  /** One line of the edge list: tail, head and the parsed weight. */
  type Triple = (Node, Node, int)

  /** The graph's fixed source and sink labels. */
  const Source: Node := "s"
  const Sink: Node := "t"

  /** The edge pointing the other way. */
  function Rev(e: Edge): Edge
  {
    (e.1, e.0)
  }

  /** The flow on an edge, an absent key meaning zero (a `dict.get` with default 0). */
  function FlowAt(flow: map<Edge, int>, e: Edge): int
  {
    if e in flow then flow[e] else 0
  }

  /** The ways a run of the engine can stop without a result. */
  datatype Failure =
    | FlowOutgrowsCapacity       // the flow map has more keys than the capacity map
    | AntiParallel(edge: Edge)   // both `edge` and its reverse carry a capacity
    | UndefinedGetResidual       // the residual map is empty and an undefined method is called
    | MissingResidual(edge: Edge) // a path step that is not a residual key (KeyError)
    | NothingToCancel(edge: Edge) // neither the step nor its reverse is a flow key

  datatype Result<T> = Ok(value: T) | Err(error: Failure)

  datatype Outcome = Pass | Fail(error: Failure)

  /** No element occurs twice. */
  ghost predicate Distinct<T>(s: seq<T>)
  {
    forall i, j :: 0 <= i < j < |s| ==> s[i] != s[j]
  }

  /** Every flow key is a capacity edge and carries a non-negative amount that
      does not exceed the edge's capacity. A zero entry is also admitted on an
      edge whose weight was read as negative, since the loader does not reject
      negative weights and starts every edge at zero. */
  ghost predicate Feasible(capacity: map<Edge, int>, flow: map<Edge, int>)
  {
    forall e :: e in flow ==>
      e in capacity && 0 <= flow[e] && (flow[e] <= capacity[e] || flow[e] == 0)
  }
}
