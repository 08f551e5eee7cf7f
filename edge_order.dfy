/** The order in which the final report lists edges: pairs of strings compared
    lexicographically, each string compared character by character with a
    proper prefix first, as tuples of strings compare. */
module EdgeOrder {
  import opened FlowTypes

  predicate StrLess(a: string, b: string)
  {
    if |a| == 0 then |b| > 0
    else if |b| == 0 then false
    else a[0] < b[0] || (a[0] == b[0] && StrLess(a[1..], b[1..]))
  }

  predicate EdgeLess(x: Edge, y: Edge)
  {
    StrLess(x.0, y.0) || (x.0 == y.0 && StrLess(x.1, y.1))
  }

  lemma {:induction false} StrLessIrreflexive(a: string)
    ensures !StrLess(a, a)
  {
    if |a| > 0 {
      StrLessIrreflexive(a[1..]);
    }
  }

  lemma {:induction false} StrLessTransitive(a: string, b: string, c: string)
    requires StrLess(a, b) && StrLess(b, c)
    ensures StrLess(a, c)
  {
    if |a| > 0 && a[0] == b[0] && b[0] == c[0] {
      StrLessTransitive(a[1..], b[1..], c[1..]);
    }
  }

  lemma {:induction false} StrLessTotal(a: string, b: string)
    ensures a == b || StrLess(a, b) || StrLess(b, a)
  {
    if |a| > 0 && |b| > 0 && a[0] == b[0] {
      StrLessTotal(a[1..], b[1..]);
      if a[1..] == b[1..] {
        assert a == [a[0]] + a[1..] && b == [b[0]] + b[1..];
      }
    }
  }

  lemma EdgeLessIrreflexive(x: Edge)
    ensures !EdgeLess(x, x)
  {
    StrLessIrreflexive(x.0);
    StrLessIrreflexive(x.1);
  }

  lemma EdgeLessTransitive(x: Edge, y: Edge, z: Edge)
    requires EdgeLess(x, y) && EdgeLess(y, z)
    ensures EdgeLess(x, z)
  {
    if StrLess(x.0, y.0) && StrLess(y.0, z.0) {
      StrLessTransitive(x.0, y.0, z.0);
    } else if x.0 == y.0 && y.0 == z.0 {
      StrLessTransitive(x.1, y.1, z.1);
    }
  }

  lemma EdgeLessTotal(x: Edge, y: Edge)
    ensures x == y || EdgeLess(x, y) || EdgeLess(y, x)
  {
    StrLessTotal(x.0, y.0);
    StrLessTotal(x.1, y.1);
  }

  /** The least edge of a non-empty set, found by scanning it in any order. */
  method MinEdge(s: set<Edge>) returns (m: Edge)
    requires s != {}
    ensures m in s
    ensures forall e :: e in s && e != m ==> EdgeLess(m, e)
  {
    m :| m in s;
    var todo := s - {m};
    while todo != {}
      invariant todo <= s && m in s && m !in todo
      invariant forall e :: e in s - todo && e != m ==> EdgeLess(m, e)
      decreases todo
    {
      var x :| x in todo;
      EdgeLessTotal(x, m);
      if EdgeLess(x, m) {
        forall e | e in s - todo && e != x
          ensures EdgeLess(x, e)
        {
          if e != m {
            EdgeLessTransitive(x, m, e);
          }
        }
        m := x;
      }
      todo := todo - {x};
    }
  }

  /** The edges of a set in increasing order (the built-in `sorted` on a list
      of keys). */
  method SortEdges(keys: set<Edge>) returns (sorted: seq<Edge>)
    ensures forall i, j :: 0 <= i < j < |sorted| ==> EdgeLess(sorted[i], sorted[j])
    ensures forall e :: e in sorted <==> e in keys
  {
    sorted := [];
    var rest := keys;
    while rest != {}
      invariant rest <= keys
      invariant forall e :: e in sorted <==> e in keys - rest
      invariant forall i, j :: 0 <= i < j < |sorted| ==> EdgeLess(sorted[i], sorted[j])
      invariant forall i, e :: 0 <= i < |sorted| && e in rest ==> EdgeLess(sorted[i], e)
      decreases rest
    {
      var m := MinEdge(rest);
      sorted := sorted + [m];
      rest := rest - {m};
    }
  }

  /** The entries of `es` with positive flow, in the order of `es`. */
  function PositiveEntries(flow: map<Edge, int>, es: seq<Edge>): seq<(Edge, int)>
    requires forall e :: e in es ==> e in flow
  {
    if es == [] then []
    else
      var rest := PositiveEntries(flow, es[..|es| - 1]);
      var e := es[|es| - 1];
      if flow[e] > 0 then rest + [(e, flow[e])] else rest
  }

  /** An edge and an amount form an entry exactly when the edge is listed and
      carries that amount, which is positive. */
  lemma {:induction false} PositiveEntriesMembers(flow: map<Edge, int>, es: seq<Edge>)
    requires forall e :: e in es ==> e in flow
    ensures forall e, x :: (e, x) in PositiveEntries(flow, es) <==> e in es && flow[e] == x && x > 0
  {
    if es != [] {
      var init := es[..|es| - 1];
      PositiveEntriesMembers(flow, init);
      assert es == init + [es[|es| - 1]];
    }
  }

  /** Filtering keeps the order of a strictly increasing edge list. */
  lemma {:induction false} PositiveEntriesSorted(flow: map<Edge, int>, es: seq<Edge>)
    requires forall e :: e in es ==> e in flow
    requires forall i, j :: 0 <= i < j < |es| ==> EdgeLess(es[i], es[j])
    ensures forall i, j :: 0 <= i < j < |PositiveEntries(flow, es)| ==>
      EdgeLess(PositiveEntries(flow, es)[i].0, PositiveEntries(flow, es)[j].0)
  {
    if es != [] {
      var init := es[..|es| - 1];
      var last := es[|es| - 1];
      PositiveEntriesSorted(flow, init);
      PositiveEntriesMembers(flow, init);
      var rest := PositiveEntries(flow, init);
      forall k | 0 <= k < |rest|
        ensures EdgeLess(rest[k].0, last)
      {
        var (e, x) := rest[k];
        assert (e, x) in rest;
        assert e in init;
        var i :| 0 <= i < |init| && init[i] == e;
        assert es[i] == init[i];
      }
    }
  }

  /** The final report: every edge that carries positive flow, with its flow,
      in increasing edge order. */
  method PositiveFlowReport(flow: map<Edge, int>) returns (report: seq<(Edge, int)>)
    ensures forall i, j :: 0 <= i < j < |report| ==> EdgeLess(report[i].0, report[j].0)
    ensures forall e, x :: (e, x) in report <==> e in flow && flow[e] == x && x > 0
  {
    var edges := SortEdges(flow.Keys);
    report := [];
    for i := 0 to |edges|
      invariant report == PositiveEntries(flow, edges[..i])
    {
      assert edges[..i + 1][..i] == edges[..i];
      if flow[edges[i]] > 0 {
        report := report + [(edges[i], flow[edges[i]])];
      }
    }
    assert edges[..|edges|] == edges;
    PositiveEntriesMembers(flow, edges);
    PositiveEntriesSorted(flow, edges);
  }
}
