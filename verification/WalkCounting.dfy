/** Counting walks of a given length, and the shortest walks through a node. */
module WalkCounting {
  import opened Collections
  import opened Digraphs
  import opened RealSums

  /** All walks of k edges from `u` to `v`. */
  ghost function WalkSet<T(!new)>(g: Graph<T>, u: T, v: T, k: nat): set<seq<T>>
    decreases k
  {
    if k == 0 then (if u == v then {[u]} else {})
    else set x, p | x in g && v in g[x] && p in WalkSet(g, u, x, k - 1) :: p + [v]
  }

  lemma {:induction false} WalkSetMembers<T(!new)>(g: Graph<T>, u: T, v: T, k: nat, p: seq<T>)
    ensures p in WalkSet(g, u, v, k) <==> Walk(g, u, v, p) && |p| == k + 1
    decreases k
  {
    if k == 0 {
      if |p| == 1 {
        assert p == [p[0]];
      }
    } else {
      if p in WalkSet(g, u, v, k) {
        var x, q :| x in g && v in g[x] && q in WalkSet(g, u, x, k - 1) && p == q + [v];
        WalkSetMembers(g, u, x, k - 1, q);
        WalkExtend(g, u, x, v, q);
      }
      if Walk(g, u, v, p) && |p| == k + 1 {
        var x := p[k - 1];
        var q := p[..k];
        assert Edge(g, p[k - 1], p[k]);
        assert Walk(g, u, x, q);
        WalkSetMembers(g, u, x, k - 1, q);
        assert p == q + [v];
      }
    }
  }

  ghost function Walks<T(!new)>(g: Graph<T>, u: T, v: T, k: nat): real {
    |WalkSet(g, u, v, k)| as real
  }

  lemma SelfWalk<T(!new)>(g: Graph<T>, u: T)
    ensures WalkSet(g, u, u, 0) == {[u]} && Walks(g, u, u, 0) == 1.0
  {
  }

  lemma NoEmptyWalk<T(!new)>(g: Graph<T>, u: T, v: T)
    requires u != v
    ensures Walks(g, u, v, 0) == 0.0
  {
  }

  // ----- decomposition by the last and by the first edge

  function TakeTo<T>(n: nat): seq<T> -> seq<T> {
    (p: seq<T>) => if n <= |p| then p[..n] else p
  }

  function DropTo<T>(n: nat): seq<T> -> seq<T> {
    (p: seq<T>) => if n <= |p| then p[n..] else p
  }

  function NodeAt<T>(n: nat, default: T): seq<T> -> T {
    (p: seq<T>) => if n < |p| then p[n] else default
  }

  /** Walks from `u` that end with the edge x -> v, as a function of x. */
  ghost function ByLastEdge<T(!new)>(g: Graph<T>, u: T, v: T, k: nat): T -> real {
    (x: T) => if Edge(g, x, v) then Walks(g, u, x, k) else 0.0
  }

  /** Walks to `v` that start with the edge u -> x, as a function of x. */
  ghost function ByFirstEdge<T(!new)>(g: Graph<T>, u: T, v: T, k: nat): T -> real {
    (x: T) => if Edge(g, u, x) then Walks(g, x, v, k) else 0.0
  }

  lemma CutLast<T(!new)>(g: Graph<T>, u: T, v: T, k: nat, p: seq<T>)
    requires p in WalkSet(g, u, v, k + 1)
    ensures |p| == k + 2 && Edge(g, p[k], v) && p[..k + 1] in WalkSet(g, u, p[k], k) && p == p[..k + 1] + [v]
  {
    WalkSetMembers(g, u, v, k + 1, p);
    assert Edge(g, p[k], p[k + 1]);
    WalkSetMembers(g, u, p[k], k, p[..k + 1]);
  }

  lemma AddLast<T(!new)>(g: Graph<T>, u: T, x: T, v: T, k: nat, q: seq<T>)
    requires q in WalkSet(g, u, x, k) && Edge(g, x, v)
    ensures |q| == k + 1 && q[k] == x && q + [v] in WalkSet(g, u, v, k + 1)
  {
    WalkSetMembers(g, u, x, k, q);
    WalkExtend(g, u, x, v, q);
    WalkSetMembers(g, u, v, k + 1, q + [v]);
  }

  lemma CutFirst<T(!new)>(g: Graph<T>, u: T, v: T, k: nat, p: seq<T>)
    requires p in WalkSet(g, u, v, k + 1)
    ensures |p| == k + 2 && Edge(g, u, p[1]) && p[1..] in WalkSet(g, p[1], v, k) && p == [u] + p[1..]
  {
    WalkSetMembers(g, u, v, k + 1, p);
    assert Edge(g, p[0], p[1]);
    WalkSetMembers(g, p[1], v, k, p[1..]);
  }

  lemma AddFirst<T(!new)>(g: Graph<T>, u: T, x: T, v: T, k: nat, q: seq<T>)
    requires q in WalkSet(g, x, v, k) && Edge(g, u, x)
    ensures |q| == k + 1 && q[0] == x && [u] + q in WalkSet(g, u, v, k + 1)
  {
    WalkSetMembers(g, x, v, k, q);
    PrependEdge(g, u, q);
    WalkSetMembers(g, u, v, k + 1, [u] + q);
  }

  lemma LastEdgeFibre<T(!new)>(g: Graph<T>, u: T, v: T, k: nat, x: T)
    ensures FibreSizes(WalkSet(g, u, v, k + 1), NodeAt(k, v))(x) == ByLastEdge(g, u, v, k)(x)
  {
    hide WalkSet, Edge;
    var all := WalkSet(g, u, v, k + 1);
    var fibre := Fibre(all, NodeAt(k, v), x);
    var shorter := WalkSet(g, u, x, k);
    forall p | p in fibre
      ensures Edge(g, x, v) && |p| == k + 2 && p[..k + 1] in shorter && p == p[..k + 1] + [v]
    {
      CutLast(g, u, v, k, p);
    }
    if Edge(g, x, v) {
      forall q | q in shorter
        ensures q + [v] in fibre && TakeTo(k + 1)(q + [v]) == q
      {
        AddLast(g, u, x, v, k, q);
      }
      SameSize(fibre, shorter, TakeTo(k + 1));
    } else {
      assert fibre == {};
    }
  }

  lemma WalksByLastEdge<T(!new)>(g: Graph<T>, u: T, v: T, k: nat)
    ensures Walks(g, u, v, k + 1) == Total(g.Keys, ByLastEdge(g, u, v, k))
  {
    var all := WalkSet(g, u, v, k + 1);
    forall p | p in all
      ensures NodeAt(k, v)(p) in g.Keys
    {
      WalkSetMembers(g, u, v, k + 1, p);
      assert Edge(g, p[k], p[k + 1]);
    }
    SizeByFibres(all, NodeAt(k, v), g.Keys);
    forall x | x in g.Keys
      ensures FibreSizes(all, NodeAt(k, v))(x) == ByLastEdge(g, u, v, k)(x)
    {
      LastEdgeFibre(g, u, v, k, x);
    }
    TotalCongruence(g.Keys, FibreSizes(all, NodeAt(k, v)), ByLastEdge(g, u, v, k));
  }

  lemma FirstEdgeFibre<T(!new)>(g: Graph<T>, u: T, v: T, k: nat, x: T)
    ensures FibreSizes(WalkSet(g, u, v, k + 1), NodeAt(1, v))(x) == ByFirstEdge(g, u, v, k)(x)
  {
    hide WalkSet, Edge;
    var all := WalkSet(g, u, v, k + 1);
    var fibre := Fibre(all, NodeAt(1, v), x);
    var shorter := WalkSet(g, x, v, k);
    forall p | p in fibre
      ensures Edge(g, u, x) && |p| == k + 2 && p[1..] in shorter && p == [u] + p[1..]
    {
      CutFirst(g, u, v, k, p);
    }
    if Edge(g, u, x) {
      forall q | q in shorter
        ensures [u] + q in fibre && DropTo(1)([u] + q) == q
      {
        AddFirst(g, u, x, v, k, q);
      }
      SameSize(fibre, shorter, DropTo(1));
    } else {
      assert fibre == {};
    }
  }

  lemma WalksByFirstEdge<T(!new)>(g: Graph<T>, u: T, v: T, k: nat)
    requires Closed(g)
    ensures Walks(g, u, v, k + 1) == Total(g.Keys, ByFirstEdge(g, u, v, k))
  {
    var all := WalkSet(g, u, v, k + 1);
    forall p | p in all
      ensures NodeAt(1, v)(p) in g.Keys
    {
      WalkSetMembers(g, u, v, k + 1, p);
      assert Edge(g, p[0], p[1]);
    }
    SizeByFibres(all, NodeAt(1, v), g.Keys);
    forall x | x in g.Keys
      ensures FibreSizes(all, NodeAt(1, v))(x) == ByFirstEdge(g, u, v, k)(x)
    {
      FirstEdgeFibre(g, u, v, k, x);
    }
    TotalCongruence(g.Keys, FibreSizes(all, NodeAt(1, v)), ByFirstEdge(g, u, v, k));
  }

  // ----- shortest walks through a node

  /** The shortest walk from `u` to `v` has k edges. */
  ghost predicate AtDistance<T(!new)>(g: Graph<T>, u: T, v: T, k: nat) {
    && (exists p :: Walk(g, u, v, p) && |p| == k + 1)
    && (forall p :: Walk(g, u, v, p) ==> |p| >= k + 1)
  }

  lemma DistanceUnique<T(!new)>(g: Graph<T>, u: T, v: T, j: nat, k: nat)
    requires AtDistance(g, u, v, j) && AtDistance(g, u, v, k)
    ensures j == k
  {
  }

  ghost function Through<T(!new)>(g: Graph<T>, s: T, v: T, t: T, k: nat): set<seq<T>> {
    set p | p in WalkSet(g, s, t, k) && v in p
  }

  /** A shortest walk meets `v` where a shortest walk to `v` would. */
  lemma MeetsAtDistance<T(!new)>(g: Graph<T>, s: T, v: T, t: T, j: nat, k: nat, p: seq<T>)
    requires AtDistance(g, s, v, j) && AtDistance(g, s, t, k)
    requires Walk(g, s, t, p) && |p| == k + 1 && v in p
    ensures j <= k && p[j] == v
    ensures Walk(g, s, v, p[..j + 1]) && Walk(g, v, t, p[j..])
  {
    var i :| 0 <= i < |p| && p[i] == v;
    assert Walk(g, s, v, p[..i + 1]);
    assert Walk(g, v, t, p[i..]);
    var q :| Walk(g, s, v, q) && |q| == j + 1;
    WalkConcat(g, s, v, t, q, p[i..]);
  }

  lemma ThroughMembers<T(!new)>(g: Graph<T>, s: T, v: T, t: T, k: nat, p: seq<T>)
    ensures p in Through(g, s, v, t, k) <==> Walk(g, s, t, p) && |p| == k + 1 && v in p
  {
    hide WalkSet, Walk;
    WalkSetMembers(g, s, t, k, p);
  }

  lemma CutAt<T(!new)>(g: Graph<T>, s: T, v: T, t: T, j: nat, k: nat, p: seq<T>)
    requires AtDistance(g, s, v, j) && AtDistance(g, s, t, k) && p in Through(g, s, v, t, k)
    ensures j <= k && |p| == k + 1
    ensures p[..j + 1] in WalkSet(g, s, v, j) && p[j..] in WalkSet(g, v, t, k - j)
    ensures p == p[..j + 1] + p[j..][1..]
  {
    hide WalkSet, Walk, AtDistance, Through;
    ThroughMembers(g, s, v, t, k, p);
    MeetsAtDistance(g, s, v, t, j, k, p);
    WalkSetMembers(g, s, v, j, p[..j + 1]);
    WalkSetMembers(g, v, t, k - j, p[j..]);
  }

  lemma JoinAt<T(!new)>(g: Graph<T>, s: T, v: T, t: T, j: nat, k: nat, a: seq<T>, q: seq<T>)
    requires j <= k && a in WalkSet(g, s, v, j) && q in WalkSet(g, v, t, k - j)
    ensures |a| == j + 1 && |q| == k - j + 1 && a[j] == v == q[0]
    ensures a + q[1..] in Through(g, s, v, t, k)
    ensures (a + q[1..])[..j + 1] == a && (a + q[1..])[j..] == q
  {
    WalkSetMembers(g, s, v, j, a);
    WalkSetMembers(g, v, t, k - j, q);
    WalkConcat(g, s, v, t, a, q);
    WalkSetMembers(g, s, t, k, a + q[1..]);
    assert (a + q[1..])[j] == v;
  }

  lemma ThroughFibre<T(!new)>(g: Graph<T>, s: T, v: T, t: T, j: nat, k: nat, a: seq<T>)
    requires AtDistance(g, s, v, j) && AtDistance(g, s, t, k) && j <= k
    requires a in WalkSet(g, s, v, j)
    ensures FibreSizes(Through(g, s, v, t, k), TakeTo(j + 1))(a) == Walks(g, v, t, k - j)
  {
    hide WalkSet, Through, AtDistance;
    var fibre := Fibre(Through(g, s, v, t, k), TakeTo(j + 1), a);
    var tails := WalkSet(g, v, t, k - j);
    forall p | p in fibre
      ensures |p| == k + 1 && p[j..] in tails && p == a + p[j..][1..]
    {
      CutAt(g, s, v, t, j, k, p);
    }
    forall q | q in tails
      ensures |q| >= 1 && a + q[1..] in fibre && DropTo(j)(a + q[1..]) == q
    {
      JoinAt(g, s, v, t, j, k, a, q);
    }
    SameSize(fibre, tails, DropTo(j));
  }

  /** Shortest walks through `v` are a walk to `v` followed by a walk from it. */
  lemma ThroughCount<T(!new)>(g: Graph<T>, s: T, v: T, t: T, j: nat, k: nat)
    requires AtDistance(g, s, v, j) && AtDistance(g, s, t, k)
    ensures |Through(g, s, v, t, k)| as real
         == if j <= k then Times(Walks(g, v, t, k - j), Walks(g, s, v, j)) else 0.0
  {
    hide WalkSet, Through, AtDistance, Times;
    var all := Through(g, s, v, t, k);
    forall p | p in all
      ensures j <= k && TakeTo(j + 1)(p) in WalkSet(g, s, v, j)
    {
      CutAt(g, s, v, t, j, k, p);
    }
    if j <= k {
      var heads := WalkSet(g, s, v, j);
      SizeByFibres(all, TakeTo(j + 1), heads);
      var c := Walks(g, v, t, k - j);
      var one := (a: seq<T>) => 1.0;
      forall a | a in heads
        ensures FibreSizes(all, TakeTo(j + 1))(a) == Times(c, one(a))
      {
        ThroughFibre(g, s, v, t, j, k, a);
        TimesOne(c);
      }
      TotalOnes(heads, one);
      TotalScale(heads, c, one, FibreSizes(all, TakeTo(j + 1)));
    } else {
      assert all == {};
    }
  }
}
