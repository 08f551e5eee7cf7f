/** The exhaustive depth-first search for augmenting paths: every simple path
    from the source to the sink in the residual adjacency lists. */
module PathSearch {
  import opened FlowTypes

  /** `v` is on the residual adjacency list of `u`. */
  ghost predicate Adjacent<N>(rg: map<N, seq<N>>, u: N, v: N)
  {
    u in rg && v in rg[u]
  }

  /** Every consecutive pair of `q` is a residual adjacency. */
  ghost predicate Walk<N>(rg: map<N, seq<N>>, q: seq<N>)
  {
    forall i :: 0 <= i < |q| - 1 ==> Adjacent(rg, q[i], q[i + 1])
  }

  /** `q` goes from `src` to `dst` along residual adjacencies and repeats no
      node. */
  ghost predicate SimplePath<N>(rg: map<N, seq<N>>, q: seq<N>, src: N, dst: N)
  {
    |q| > 0 && q[0] == src && q[|q| - 1] == dst && Walk(rg, q) && Distinct(q)
  }

  /** `q` is a simple walk to `dst` that begins with the nodes of `b`. */
  ghost predicate Extends<N>(rg: map<N, seq<N>>, q: seq<N>, b: seq<N>, dst: N)
  {
    |b| <= |q| && q[..|b|] == b && |q| > 0 && q[|q| - 1] == dst && Walk(rg, q) && Distinct(q)
  }

  function Reverse<N>(s: seq<N>): (r: seq<N>)
    ensures |r| == |s|
    ensures forall i :: 0 <= i < |s| ==> r[i] == s[|s| - 1 - i]
  {
    if s == [] then [] else Reverse(s[1..]) + [s[0]]
  }

  ghost function Elems<N>(s: seq<N>): set<N>
  {
    set x | x in s
  }

  lemma ReverseElems<N>(s: seq<N>)
    ensures Elems(Reverse(s)) == Elems(s)
  {
    forall x | x in s
      ensures x in Reverse(s)
    {
      var i :| 0 <= i < |s| && s[i] == x;
      assert Reverse(s)[|s| - 1 - i] == x;
    }
  }

  /** Extending a walk prefix `b` by one node `n`. */
  lemma ExtendsSnoc<N>(rg: map<N, seq<N>>, q: seq<N>, b: seq<N>, n: N, dst: N)
    ensures Extends(rg, q, b + [n], dst) <==> Extends(rg, q, b, dst) && |q| > |b| && q[|b|] == n
  {
    if Extends(rg, q, b, dst) && |q| > |b| && q[|b|] == n {
      assert q[..|b| + 1] == q[..|b|] + [q[|b|]];
    }
    if Extends(rg, q, b + [n], dst) {
      assert q[..|b|] == (b + [n])[..|b|];
    }
  }

  /** A branch that already ends at the target extends only to itself. */
  lemma ExtendsAtTarget<N>(rg: map<N, seq<N>>, b: seq<N>, target: N)
    requires |b| > 0 && b[|b| - 1] == target && Walk(rg, b) && Distinct(b)
    ensures forall q :: Extends(rg, q, b, target) <==> q == b
  {
    forall q | Extends(rg, q, b, target)
      ensures q == b
    {
      assert q[|b| - 1] == target == q[|q| - 1];
      assert |q| == |b|;
    }
  }

  /** The walks that begin with the one-node branch `[src]` are the simple
      paths from `src`. */
  lemma ExtendsStart<N>(rg: map<N, seq<N>>, src: N, dst: N)
    ensures forall q :: Extends(rg, q, [src], dst) <==> SimplePath(rg, q, src, dst)
  {
    forall q: seq<N> | |q| > 0
      ensures q[..1] == [src] <==> q[0] == src
    {
      assert q[..1] == [q[0]];
    }
  }

  /** No simple walk continues a branch with a node already on it. */
  lemma NoExtensionThrough<N>(rg: map<N, seq<N>>, b: seq<N>, n: N, target: N)
    requires n in b
    ensures forall q :: Extends(rg, q, b, target) && |q| > |b| ==> q[|b|] != n
  {
    forall q | Extends(rg, q, b, target) && |q| > |b|
      ensures q[|b|] != n
    {
      var i :| 0 <= i < |b| && b[i] == n;
      assert q[i] == b[i];
    }
  }

  /** A simple walk that continues a branch ending at `start` (not the
      target) continues it with a neighbour of `start`. */
  lemma ExtensionsLeaveByNeighbour<N>(rg: map<N, seq<N>>, b: seq<N>, start: N, target: N)
    requires |b| > 0 && b[|b| - 1] == start && start != target
    ensures forall q :: Extends(rg, q, b, target) ==> |q| > |b| && start in rg && q[|b|] in rg[start]
  {
    forall q | Extends(rg, q, b, target)
      ensures |q| > |b| && start in rg && q[|b|] in rg[start]
    {
      assert q[|b| - 1] == start;
      assert Adjacent(rg, q[|b| - 1], q[|b|]);
    }
  }

  /** `added` holds exactly the simple walks to `target` that continue the
      branch `b` with one of the first `j` nodes of `ns`. */
  ghost predicate Collected<N(!new)>(rg: map<N, seq<N>>, added: seq<seq<N>>, b: seq<N>, target: N,
                            ns: seq<N>, j: nat)
    requires j <= |ns|
  {
    forall q :: q in added <==> Extends(rg, q, b, target) && |q| > |b| && q[|b|] in ns[..j]
  }

  /** Skipping a marked neighbour adds nothing: no simple walk continues the
      branch through a node already on it. */
  lemma CollectedSkip<N(!new)>(rg: map<N, seq<N>>, added: seq<seq<N>>, b: seq<N>, target: N,
                      ns: seq<N>, j: nat)
    requires j < |ns| && ns[j] in b
    requires Collected(rg, added, b, target, ns, j)
    ensures Collected(rg, added, b, target, ns, j + 1)
  {
    assert ns[..j + 1] == ns[..j] + [ns[j]];
    NoExtensionThrough(rg, b, ns[j], target);
  }

  /** Searching an unmarked neighbour appends to the list the walks that
      continue the branch with that neighbour. */
  lemma CollectedSearch<N(!new)>(rg: map<N, seq<N>>, added: seq<seq<N>>, b: seq<N>, target: N,
                        ns: seq<N>, j: nat, paths: seq<seq<N>>, before: seq<seq<N>>,
                        after: seq<seq<N>>)
    requires j < |ns| && Collected(rg, added, b, target, ns, j)
    requires before == paths + added
    requires |before| <= |after| && after[..|before|] == before
    requires forall q :: q in after[|before|..] <==> Extends(rg, q, b + [ns[j]], target)
    ensures after == paths + (added + after[|before|..])
    ensures Collected(rg, added + after[|before|..], b, target, ns, j + 1)
  {
    var more := after[|before|..];
    assert after == before + more;
    assert ns[..j + 1] == ns[..j] + [ns[j]];
    forall q
      ensures q in added + more <==> Extends(rg, q, b, target) && |q| > |b| && q[|b|] in ns[..j + 1]
    {
      ExtendsSnoc(rg, q, b, ns[j], target);
    }
  }

  /** Once every neighbour of the branch's last node has been searched, the
      collected walks are all the simple walks to `target` that begin with
      the branch. */
  lemma CollectedAll<N(!new)>(rg: map<N, seq<N>>, added: seq<seq<N>>, b: seq<N>, start: N, target: N,
                     ns: seq<N>)
    requires |b| > 0 && b[|b| - 1] == start && start != target
    requires ns == if start in rg then rg[start] else []
    requires Collected(rg, added, b, target, ns, |ns|)
    ensures forall q :: q in added <==> Extends(rg, q, b, target)
  {
    assert ns[..|ns|] == ns;
    ExtensionsLeaveByNeighbour(rg, b, start, target);
  }

  /** The recursive search `get_paths` of `get_augmenting_paths`. `path` is
      the branch so far, most recent node first; `visited` and `paths` are the
      search's shared set and list, passed in and handed back. Reaching the
      target records the branch (in source-to-target order) and answers true;
      otherwise `start` is marked, each unmarked neighbour is searched, and a
      neighbour whose search answered false is unmarked again.

      The marked set is always exactly the nodes of the branch, and the
      target is never marked; the paths the call adds are exactly the simple
      walks to the target that begin with the branch. */
  method CollectPaths<N(==,!new)>(rg: map<N, seq<N>>, start: N, target: N, path: seq<N>,
                      visited: set<N>, paths: seq<seq<N>>)
    returns (visited': set<N>, paths': seq<seq<N>>, found: bool)
    requires visited == Elems(path)
    requires start !in visited && target !in visited
    requires Walk(rg, Reverse([start] + path)) && Distinct(Reverse([start] + path))
    ensures found <==> start == target
    ensures visited' == if found then visited else visited + {start}
    ensures |paths| <= |paths'| && paths'[..|paths|] == paths
    ensures forall q :: q in paths'[|paths|..] <==> Extends(rg, q, Reverse([start] + path), target)
    decreases rg.Keys - visited
  {
    ghost var b := Reverse([start] + path);
    assert b == Reverse(path) + [start];
    if start == target {
      paths' := paths + [Reverse([start] + path)];
      visited' := visited;
      ExtendsAtTarget(rg, b, target);
      assert paths'[|paths|..] == [b];
      found := true;
      return;
    }
    visited' := visited + {start};
    ReverseElems(path);
    assert visited' == Elems(b);
    paths' := paths;
    ghost var added: seq<seq<N>> := [];
    var neighbors := if start in rg then rg[start] else [];
    for j := 0 to |neighbors|
      invariant visited' == Elems(b)
      invariant paths' == paths + added
      invariant Collected(rg, added, b, target, neighbors, j)
    {
      var n := neighbors[j];
      if n !in visited' {
        SearchNeighbour(rg, start, target, path, b, n);
        ghost var before := paths';
        var found';
        visited', paths', found' := CollectPaths(rg, n, target, [start] + path, visited', paths');
        CollectedSearch(rg, added, b, target, neighbors, j, paths, before, paths');
        added := added + paths'[|before|..];
        if !found' {
          visited' := visited' - {n};
        }
      } else {
        CollectedSkip(rg, added, b, target, neighbors, j);
      }
    }
    CollectedAll(rg, added, b, start, target, neighbors);
    assert paths'[|paths|..] == added;
    found := false;
  }

  /** What the search of an unmarked neighbour `n` of `start` may assume and
      what its paths are, in terms of the current branch `b`. */
  lemma SearchNeighbour<N>(rg: map<N, seq<N>>, start: N, target: N, path: seq<N>,
                        b: seq<N>, n: N)
    requires b == Reverse([start] + path) && Walk(rg, b) && Distinct(b)
    requires start in rg && n in rg[start] && n !in Elems(b)
    ensures Reverse([n] + ([start] + path)) == b + [n]
    ensures Walk(rg, b + [n]) && Distinct(b + [n])
  {
    assert ([n] + ([start] + path))[1..] == [start] + path;
    assert b[|b| - 1] == start;
  }
}
