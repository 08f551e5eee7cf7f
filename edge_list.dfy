/** What the constructor builds from the edge list: the capacity map and the
    children lists, described line by line as the loader reads them. */
module EdgeList {
  import opened FlowTypes

  /** The edge a line of the edge list names. */
  function Pair(t: Triple): Edge
  {
    (t.0, t.1)
  }

  /** The capacity map after reading `ts` in order: each line stores its
      weight under its pair, replacing what an earlier line stored there. */
  function CapacityOf(ts: seq<Triple>): map<Edge, int>
  {
    if ts == [] then map[]
    else CapacityOf(ts[..|ts| - 1])[Pair(ts[|ts| - 1]) := ts[|ts| - 1].2]
  }

  /** The children lists after reading `ts` in order: each line appends its
      head to the list of its tail, opening the list on first use. */
  function ChildrenOf(ts: seq<Triple>): map<Node, seq<Node>>
  {
    if ts == [] then map[]
    else
      var m := ChildrenOf(ts[..|ts| - 1]);
      var t := ts[|ts| - 1];
      m[t.0 := if t.0 in m then m[t.0] + [t.1] else [t.1]]
  }

  /** The heads of the lines whose tail is `l`, in input order. */
  function HeadsOf(ts: seq<Triple>, l: Node): seq<Node>
  {
    if ts == [] then []
    else (if ts[0].0 == l then [ts[0].1] else []) + HeadsOf(ts[1..], l)
  }

  /** A pair is a capacity key exactly when some line names it. */
  lemma {:induction false} CapacityKeys(ts: seq<Triple>, e: Edge)
    ensures e in CapacityOf(ts) <==> exists i :: 0 <= i < |ts| && Pair(ts[i]) == e
  {
    if ts != [] {
      var init := ts[..|ts| - 1];
      CapacityKeys(init, e);
      if e in CapacityOf(init) {
        var i :| 0 <= i < |init| && Pair(init[i]) == e;
        assert Pair(ts[i]) == e;
      }
      if exists i :: 0 <= i < |ts| && Pair(ts[i]) == e {
        var i :| 0 <= i < |ts| && Pair(ts[i]) == e;
        if i < |init| {
          assert Pair(init[i]) == e;
        }
      }
    }
  }

  /** The weight stored under a pair is the weight on the last line naming it:
      duplicate lines are not rejected, the later one wins. */
  lemma {:induction false} CapacityKeepsLastWeight(ts: seq<Triple>, i: nat)
    requires i < |ts|
    requires forall j :: i < j < |ts| ==> Pair(ts[j]) != Pair(ts[i])
    ensures Pair(ts[i]) in CapacityOf(ts)
    ensures CapacityOf(ts)[Pair(ts[i])] == ts[i].2
  {
    var init := ts[..|ts| - 1];
    if i < |ts| - 1 {
      CapacityKeepsLastWeight(init, i);
    }
  }

  lemma {:induction false} HeadsOfSnoc(ts: seq<Triple>, t: Triple, l: Node)
    ensures HeadsOf(ts + [t], l) == HeadsOf(ts, l) + (if t.0 == l then [t.1] else [])
  {
    if ts != [] {
      assert (ts + [t])[1..] == ts[1..] + [t];
      HeadsOfSnoc(ts[1..], t, l);
    }
  }

  /** A node has a children list exactly when it is the tail of some line,
      and its list holds the heads of those lines in input order, duplicates
      included. */
  lemma {:induction false} ChildrenAreHeads(ts: seq<Triple>, l: Node)
    ensures l in ChildrenOf(ts) <==> exists i :: 0 <= i < |ts| && ts[i].0 == l
    ensures l in ChildrenOf(ts) ==> ChildrenOf(ts)[l] == HeadsOf(ts, l)
    ensures l !in ChildrenOf(ts) ==> HeadsOf(ts, l) == []
  {
    if ts != [] {
      var init := ts[..|ts| - 1];
      var t := ts[|ts| - 1];
      assert ts == init + [t];
      ChildrenAreHeads(init, l);
      HeadsOfSnoc(init, t, l);
      if exists i :: 0 <= i < |init| && init[i].0 == l {
        var i :| 0 <= i < |init| && init[i].0 == l;
        assert ts[i].0 == l;
      }
      if exists i :: 0 <= i < |ts| && ts[i].0 == l {
        var i :| 0 <= i < |ts| && ts[i].0 == l;
        if i < |init| {
          assert init[i].0 == l;
        }
      }
    }
  }
}
