/** Bounded enumeration of the dependency cycles of a module graph. */
module CycleSearch {
  import opened Collections
  import opened Digraphs

  /** Dependencies of each module, as collected; they may repeat and may name
      modules outside the graph. */
  type DepGraph<T> = map<T, seq<T>>

  const LONGEST: nat := 8

  /** The edges the search follows. */
  ghost function Links<T>(g: DepGraph<T>): Graph<T> {
    map v | v in g :: DepSet(g, v)
  }

  ghost function DepSet<T>(g: DepGraph<T>, v: T): set<T>
    requires v in g
  {
    set d | d in g[v] && d in g
  }

  /** A closed walk that repeats nothing but its first node. */
  ghost predicate SimpleCycle<T>(g: DepGraph<T>, r: seq<T>) {
    && |r| >= 2 && IsPath(Links(g), r)
    && r[0] == r[|r| - 1] && Distinct(r[..|r| - 1])
  }

  ghost predicate ShortCycle<T>(g: DepGraph<T>, r: seq<T>) {
    SimpleCycle(g, r) && |r| - 1 <= 8
  }

  ghost predicate AllShort<T>(g: DepGraph<T>, cycles: seq<seq<T>>) {
    forall k :: 0 <= k < |cycles| ==> ShortCycle(g, cycles[k])
  }

  /** Every short cycle that starts with `prefix` is listed. */
  ghost predicate Covers<T(!new)>(g: DepGraph<T>, prefix: seq<T>, cycles: seq<seq<T>>) {
    forall r :: ShortCycle(g, r) && prefix <= r ==> r in cycles
  }

  /** `path` is a walk of distinct nodes that continues to `node`. */
  ghost predicate Trail<T>(g: DepGraph<T>, path: seq<T>, node: T) {
    && IsPath(Links(g), path + [node]) && Distinct(path)
    && node in g && Within(path, g.Keys)
  }

  /** Report the cycle a repeated node closes; short ones only. */
  lemma ClosedTrail<T>(g: DepGraph<T>, path: seq<T>, node: T)
    requires Trail(g, path, node) && node in path
    ensures SimpleCycle(g, path[IndexOf(path, node)..] + [node])
  {
    hide IsPath, Distinct;
    var i := IndexOf(path, node);
    var p, r := path + [node], path[i..] + [node];
    assert r == p[i..] && r[0] == node;
    assert r[..|r| - 1] == path[i..];
    Suffix(Links(g), p, path, i);
  }

  lemma Suffix<T>(g: Graph<T>, p: seq<T>, s: seq<T>, i: nat)
    requires IsPath(g, p) && i < |p| && Distinct(s) && i < |s|
    ensures IsPath(g, p[i..]) && Distinct(s[i..])
  {
  }

  lemma DistinctAt<T>(s: seq<T>, i: nat, j: nat)
    requires Distinct(s) && i < |s| && j < |s| && s[i] == s[j]
    ensures i == j
  {
  }

  /** A cycle grows out of a closed trail only by being the whole of it. */
  lemma ClosedTrailCovers<T(!new)>(g: DepGraph<T>, path: seq<T>, node: T, r: seq<T>)
    requires Distinct(path) && node in path
    requires ShortCycle(g, r) && path + [node] <= r
    ensures r == path + [node] && IndexOf(path, node) == 0 && |path| <= LONGEST
  {
    hide Distinct, IsPath;
    var i, n := IndexOf(path, node), |path|;
    assert r[..n + 1] == path + [node];
    assert r[i] == (path + [node])[i] == path[i] == node == r[n];
    if n < |r| - 1 {
      DistinctAt(r[..|r| - 1], i, n);
    }
    assert r[0] == path[0];
    DistinctAt(path, 0, i);
  }

  lemma TrailStep<T>(g: DepGraph<T>, path: seq<T>, node: T, dep: T)
    requires Trail(g, path, node) && node !in path && dep in g[node] && dep in g
    ensures Trail(g, path + [node], dep)
  {
  }

  /** A short cycle that goes on from an open trail goes on through one of the
      dependencies. */
  lemma TrailGoesOn<T(!new)>(g: DepGraph<T>, path: seq<T>, node: T, r: seq<T>) returns (dep: T)
    requires Trail(g, path, node) && node !in path
    requires ShortCycle(g, r) && path + [node] <= r
    ensures dep in g[node] && dep in g && path + [node] + [dep] <= r
  {
    var p := path + [node];
    assert r[|p| - 1] == p[|p| - 1] == node;
    assert path != [] ==> r[0] == p[0] == path[0];
    dep := r[|p|];
    assert r[|p| - 1] == p[|p| - 1];
    assert Edge(Links(g), r[|p| - 1], r[|p|]);
    assert r[..|p| + 1] == p + [dep];
  }

  /** The depth-first walk below `node`: reports simple cycles only, and every
      short cycle that begins with the trail. */
  method Dfs<T(==, !new)>(g: DepGraph<T>, node: T, path: seq<T>, visiting: set<T>, cycles: seq<seq<T>>)
    returns (cycles': seq<seq<T>>)
    requires Trail(g, path, node) && visiting == (set v | v in path)
    requires AllShort(g, cycles)
    ensures AllShort(g, cycles') && cycles <= cycles'
    ensures Covers(g, path + [node], cycles')
    decreases g.Keys - visiting
  {
    hide ShortCycle, SimpleCycle, Trail;
    cycles' := cycles;
    if node in path {
      var i := IndexOf(path, node);
      TrailFacts(g, path, node);
      ClosedTrail(g, path, node);
      if |path| - i <= LONGEST {
        cycles' := cycles' + [path[i..] + [node]];
        Shorten(g, path[i..] + [node]);
      }
      forall r | ShortCycle(g, r) && path + [node] <= r
        ensures r in cycles'
      {
        ClosedTrailCovers(g, path, node, r);
        assert path[0..] == path;
      }
      return;
    }
    // A node off the trail is never marked, so the guard on `visiting` cannot fire.
    assert node !in visiting;
    TrailFacts(g, path, node);
    var deps := g[node];
    for k := 0 to |deps|
      invariant AllShort(g, cycles') && cycles <= cycles'
      invariant forall j :: 0 <= j < k && deps[j] in g ==> Covers(g, path + [node] + [deps[j]], cycles')
    {
      if deps[k] in g {
        TrailStep(g, path, node, deps[k]);
        cycles' := Dfs(g, deps[k], path + [node], visiting + {node}, cycles');
      }
    }
    forall r | ShortCycle(g, r) && path + [node] <= r
      ensures r in cycles'
    {
      var dep := TrailGoesOn(g, path, node, r);
    }
  }

  lemma TrailFacts<T>(g: DepGraph<T>, path: seq<T>, node: T)
    requires Trail(g, path, node)
    ensures Distinct(path) && node in g && forall v :: v in path ==> v in g
  {
  }

  lemma Shorten<T>(g: DepGraph<T>, r: seq<T>)
    requires SimpleCycle(g, r) && |r| - 1 <= LONGEST
    ensures ShortCycle(g, r)
  {
  }

  /** The reported lists are exactly the simple cycles of at most eight nodes,
      each from every one of its nodes. */
  method FindCycles<T(==, !new)>(g: DepGraph<T>) returns (cycles: seq<seq<T>>)
    ensures forall r :: r in cycles <==> ShortCycle(g, r)
  {
    cycles := [];
    var rest := g.Keys;
    while rest != {}
      invariant rest <= g.Keys && AllShort(g, cycles)
      invariant forall v :: v in g && v !in rest ==> Covers(g, [v], cycles)
    {
      var node :| node in rest;
      rest := rest - {node};
      assert [] + [node] == [node];
      cycles := Dfs(g, node, [], {}, cycles);
    }
    forall r | ShortCycle(g, r)
      ensures r in cycles
    {
      assert Edge(Links(g), r[0], r[1]);
      assert [r[0]] <= r;
      assert Covers(g, [r[0]], cycles);
    }
  }

  // ----- what the bound leaves out

  /** Any closed walk contains a simple cycle. */
  lemma {:induction false} ClosedWalkHasSimple<T>(g: DepGraph<T>, q: seq<T>) returns (r: seq<T>)
    requires |q| >= 2 && IsPath(Links(g), q) && q[0] == q[|q| - 1]
    ensures SimpleCycle(g, r)
    decreases |q|
  {
    var init := q[..|q| - 1];
    if Distinct(init) {
      return q;
    }
    var i, j :| 0 <= i < j < |init| && init[i] == init[j];
    var c := q[i..j + 1];
    assert c[0] == init[i] && c[|c| - 1] == init[j];
    r := ClosedWalkHasSimple(g, c);
  }

  /** Graphs of at most eight modules: nothing is reported exactly when the
      dependencies are acyclic. */
  lemma SmallGraphSilentIffAcyclic<T(!new)>(g: DepGraph<T>)
    requires |g| <= 8
    ensures (forall r :: !ShortCycle(g, r)) <==> Acyclic(Links(g))
  {
    forall v | OnCycle(Links(g), v)
      ensures exists r :: ShortCycle(g, r)
    {
      var w :| Edge(Links(g), v, w) && Reaches(Links(g), w, v);
      var p :| Walk(Links(g), w, v, p);
      PrependEdge(Links(g), v, p);
      var r := ClosedWalkHasSimple(g, [v] + p);
      SimpleCycleFits(g, r);
      assert ShortCycle(g, r);
    }
    forall r | ShortCycle(g, r)
      ensures OnCycle(Links(g), r[0])
    {
      CycleFromSimple(g, r);
    }
  }

  lemma SimpleCycleFits<T>(g: DepGraph<T>, r: seq<T>)
    requires SimpleCycle(g, r)
    ensures |r| - 1 <= |g|
  {
    var init := r[..|r| - 1];
    forall k | 0 <= k < |init|
      ensures init[k] in g.Keys
    {
      assert Edge(Links(g), r[k], r[k + 1]);
    }
    SubsetLength(init, g.Keys);
  }

  /** Every node of a reported list lies on a cycle. */
  lemma CycleFromSimple<T(!new)>(g: DepGraph<T>, r: seq<T>)
    requires SimpleCycle(g, r)
    ensures forall k :: 0 <= k < |r| ==> OnCycle(Links(g), r[k])
  {
    forall k | 0 <= k < |r|
      ensures OnCycle(Links(g), r[k])
    {
      var h := Links(g);
      var i := if k == |r| - 1 then 0 else k;
      assert Edge(h, r[i], r[i + 1]);
      assert Walk(h, r[i + 1], r[|r| - 1], r[i + 1..]);
      assert Walk(h, r[0], r[i], r[..i + 1]);
      ReachesTrans(h, r[i + 1], r[0], r[i]);
    }
  }

  /** Modules 0 to n - 1, each depending on the next and the last on the first. */
  function Ring(n: nat): DepGraph<nat> {
    map v: nat {:trigger After(v, n)} | v < n :: [After(v, n)]
  }

  function After(v: nat, n: nat): nat {
    if v + 1 == n then 0 else v + 1
  }

  lemma RingEdge(n: nat, u: nat, v: nat)
    ensures Edge(Links(Ring(n)), u, v) <==> u < n && v == After(u, n)
  {
  }

  /** A walk round the ring that has not come back stays in step. */
  lemma {:induction false} RingPosition(n: nat, p: seq<nat>, k: nat)
    requires IsPath(Links(Ring(n)), p) && 0 < k < |p| && k < n
    ensures p[0] < n
    ensures p[k] == if p[0] + k < n then p[0] + k else p[0] + k - n
    decreases k
  {
    hide Links, Ring;
    assert Edge(Links(Ring(n)), p[k - 1], p[k]);
    RingEdge(n, p[k - 1], p[k]);
    if k > 1 {
      RingPosition(n, p, k - 1);
    } else {
      assert p[k - 1] == p[0];
    }
  }

  /** A ring of up to eight modules is reported, from its first module on. */
  lemma ShortRingReported(n: nat) returns (r: seq<nat>)
    requires 0 < n <= 8
    ensures ShortCycle(Ring(n), r) && |r| == n + 1 && forall i: nat :: i < n ==> r[i] == i
  {
    hide Links, Ring;
    var nodes := seq(n, (i: nat) => i);
    r := nodes + [0];
    assert r[..|r| - 1] == nodes && r[0] == 0;
    forall i, j | 0 <= i < j < |r| && j == i + 1
      ensures Edge(Links(Ring(n)), r[i], r[j])
    {
      RingEdge(n, r[i], r[j]);
    }
  }

  /** The other half of the bound: a ring of more than eight modules is a cycle,
      and nothing is reported for it. */
  lemma LongRingSilent(n: nat)
    requires n > 8
    ensures forall r :: !ShortCycle(Ring(n), r)
    ensures OnCycle(Links(Ring(n)), n - 1)
  {
    hide Links, Ring;
    forall r | ShortCycle(Ring(n), r)
      ensures false
    {
      RingPosition(n, r, |r| - 1);
    }
    var p := seq(n, (i: nat) => i);
    forall i, j | 0 <= i < j < |p| && j == i + 1
      ensures Edge(Links(Ring(n)), p[i], p[j])
    {
      RingEdge(n, p[i], p[j]);
    }
    assert Walk(Links(Ring(n)), 0, n - 1, p);
    RingEdge(n, n - 1, 0);
    assert Edge(Links(Ring(n)), n - 1, 0) && Reaches(Links(Ring(n)), 0, n - 1);
  }
}
