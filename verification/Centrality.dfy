/** Betweenness centrality by its definition, and the two recurrences over
    breadth-first layers that Brandes' algorithm evaluates. */
module Centrality {
  import opened Collections
  import opened Digraphs
  import opened RealSums
  import opened WalkCounting

  // ----- the definition

  /** All shortest walks from `s` to `t`; empty when there is no walk. */
  ghost function Shortest<T(!new)>(g: Graph<T>, s: T, t: T): set<seq<T>> {
    if exists k: nat :: AtDistance(g, s, t, k) then
      var k: nat :| AtDistance(g, s, t, k);
      WalkSet(g, s, t, k)
    else {}
  }

  /** The share of the shortest s-t walks that pass through `v`, for t != v. */
  ghost function PairShare<T(!new)>(g: Graph<T>, s: T, v: T): T -> real {
    (t: T) =>
      if t == v || |Shortest(g, s, t)| == 0 then 0.0
      else |set p | p in Shortest(g, s, t) && v in p| as real / |Shortest(g, s, t)| as real
  }

  /** The dependency of `s` on `v`. */
  ghost function Dependency<T(!new)>(g: Graph<T>, s: T, v: T): real {
    Total(g.Keys, PairShare(g, s, v))
  }

  ghost function DependencyOn<T(!new)>(g: Graph<T>, v: T): T -> real {
    (s: T) => Dependency(g, s, v)
  }

  /** Betweenness of `v` over the given sources, leaving out `v` itself. */
  ghost function Betweenness<T(!new)>(g: Graph<T>, sources: set<T>, v: T): real {
    Total(sources - {v}, DependencyOn(g, v))
  }

  lemma ShortestAt<T(!new)>(g: Graph<T>, s: T, t: T, k: nat)
    requires AtDistance(g, s, t, k)
    ensures Shortest(g, s, t) == WalkSet(g, s, t, k) && |Shortest(g, s, t)| > 0
  {
    var j: nat :| AtDistance(g, s, t, j) && Shortest(g, s, t) == WalkSet(g, s, t, j);
    DistanceUnique(g, s, t, j, k);
    var p :| Walk(g, s, t, p) && |p| == k + 1;
    WalkSetMembers(g, s, t, k, p);
  }

  lemma DistanceExists<T(!new)>(g: Graph<T>, s: T, t: T, p: seq<T>) returns (k: nat)
    requires Walk(g, s, t, p)
    ensures AtDistance(g, s, t, k)
    decreases |p|
  {
    if q :| Walk(g, s, t, q) && |q| < |p| {
      k := DistanceExists(g, s, t, q);
    } else {
      k := |p| - 1;
    }
  }

  /** `Shortest` holds exactly the walks that no other walk undercuts. */
  lemma ShortestMembers<T(!new)>(g: Graph<T>, s: T, t: T, p: seq<T>)
    ensures p in Shortest(g, s, t) <==> Walk(g, s, t, p) && forall q :: Walk(g, s, t, q) ==> |p| <= |q|
  {
    if Walk(g, s, t, p) {
      var k := DistanceExists(g, s, t, p);
      ShortestAt(g, s, t, k);
      WalkSetMembers(g, s, t, k, p);
    } else if k: nat :| AtDistance(g, s, t, k) {
      ShortestAt(g, s, t, k);
      WalkSetMembers(g, s, t, k, p);
    }
  }

  // ----- breadth-first layers

  ghost predicate HasParent<T(!new)>(g: Graph<T>, dist: map<T, int>, w: T)
    requires w in dist
  {
    exists u :: Edge(g, u, w) && u in dist && dist[u] == dist[w] - 1
  }

  /** What a breadth-first search from `s` leaves in `dist`; -1 marks unreached nodes. */
  ghost predicate Layered<T(!new)>(g: Graph<T>, s: T, dist: map<T, int>) {
    && Closed(g) && s in g && dist.Keys == g.Keys && dist[s] == 0
    && (forall v :: v in g ==> dist[v] >= -1)
    && (forall w :: w in g && dist[w] == 0 ==> w == s)
    && (forall u, w :: Edge(g, u, w) && dist[u] >= 0 ==> 0 <= dist[w] <= dist[u] + 1)
    && (forall w :: w in g && dist[w] > 0 ==> HasParent(g, dist, w))
  }

  lemma LayerWalk<T(!new)>(g: Graph<T>, s: T, dist: map<T, int>, w: T) returns (p: seq<T>)
    requires Layered(g, s, dist) && w in g && dist[w] >= 0
    ensures Walk(g, s, w, p) && |p| == dist[w] + 1
    decreases dist[w]
  {
    if dist[w] == 0 {
      p := [s];
    } else {
      assert HasParent(g, dist, w);
      var u :| Edge(g, u, w) && u in dist && dist[u] == dist[w] - 1;
      var q := LayerWalk(g, s, dist, u);
      WalkExtend(g, s, u, w, q);
      p := q + [w];
    }
  }

  /** A walk of n edges climbs at most n layers. */
  lemma ClimbBound<T(!new)>(g: Graph<T>, s: T, dist: map<T, int>, u: T, w: T, p: seq<T>)
    requires Layered(g, s, dist) && u in g && dist[u] >= 0 && Walk(g, u, w, p)
    ensures w in g && 0 <= dist[w] <= dist[u] + |p| - 1
    decreases |p|
  {
    if |p| > 1 {
      var x := p[|p| - 2];
      assert Edge(g, x, p[|p| - 1]);
      ClimbBound(g, s, dist, u, x, p[..|p| - 1]);
    }
  }

  /** Layers are distances, and unreached nodes are unreachable. */
  lemma LayersAreDistances<T(!new)>(g: Graph<T>, s: T, dist: map<T, int>, w: T)
    requires Layered(g, s, dist) && w in g
    ensures dist[w] >= 0 ==> AtDistance(g, s, w, dist[w])
    ensures dist[w] >= 0 <==> Reaches(g, s, w)
    ensures dist[w] < 0 ==> |Shortest(g, s, w)| == 0
  {
    forall p | Walk(g, s, w, p)
      ensures 0 <= dist[w] <= |p| - 1
    {
      ClimbBound(g, s, dist, s, w, p);
    }
    if dist[w] >= 0 {
      var p := LayerWalk(g, s, dist, w);
    } else {
      assert forall k: nat :: !AtDistance(g, s, w, k);
    }
  }

  /** Too few edges to climb: no walk. */
  lemma TooShort<T(!new)>(g: Graph<T>, s: T, dist: map<T, int>, u: T, w: T, k: nat)
    requires Layered(g, s, dist) && u in g && w in g && dist[u] >= 0 && dist[w] > dist[u] + k
    ensures Walks(g, u, w, k) == 0.0
  {
    forall p | p in WalkSet(g, u, w, k)
      ensures false
    {
      WalkSetMembers(g, u, w, k, p);
      ClimbBound(g, s, dist, u, w, p);
    }
    assert WalkSet(g, u, w, k) == {};
  }

  // ----- path counts by the last edge

  ghost function Parents<T(!new)>(g: Graph<T>, dist: map<T, int>, w: T): set<T>
    requires w in dist
  {
    set u | u in g && Edge(g, u, w) && u in dist && dist[u] >= 0 && dist[w] == dist[u] + 1
  }

  ghost function WalksFrom<T(!new)>(g: Graph<T>, s: T, k: nat): T -> real { (x: T) => Walks(g, s, x, k) }

  /** Shortest walks to `w` arrive through its parents. */
  lemma WalksByParents<T(!new)>(g: Graph<T>, s: T, dist: map<T, int>, w: T)
    requires Layered(g, s, dist) && w in g && dist[w] > 0
    ensures Walks(g, s, w, dist[w]) == Total(Parents(g, dist, w), WalksFrom(g, s, dist[w] - 1))
  {
    var k := dist[w] - 1;
    var f := ByLastEdge(g, s, w, k);
    WalksByLastEdge(g, s, w, k);
    forall x | x in g.Keys - Parents(g, dist, w)
      ensures f(x) == 0.0
    {
      if Edge(g, x, w) && WalkSet(g, s, x, k) != {} {
        var p :| p in WalkSet(g, s, x, k);
        WalkSetMembers(g, s, x, k, p);
        ClimbBound(g, s, dist, s, x, p);
      }
    }
    TotalSubset(g.Keys, Parents(g, dist, w), f);
    TotalCongruence(Parents(g, dist, w), f, WalksFrom(g, s, k));
  }

  // ----- dependencies by the first edge

  ghost function Children<T(!new)>(g: Graph<T>, dist: map<T, int>, v: T): set<T>
    requires v in dist
  {
    set w | w in g && Edge(g, v, w) && w in dist && dist[w] == dist[v] + 1
  }

  ghost function WalksTo<T(!new)>(g: Graph<T>, t: T, k: nat): T -> real { (x: T) => Walks(g, x, t, k) }

  /** Walks that climb all the way leave `v` through its children. */
  lemma WalksByChildren<T(!new)>(g: Graph<T>, s: T, dist: map<T, int>, v: T, t: T)
    requires Layered(g, s, dist) && v in g && t in g && 0 <= dist[v] < dist[t]
    ensures Walks(g, v, t, dist[t] - dist[v]) == Total(Children(g, dist, v), WalksTo(g, t, dist[t] - dist[v] - 1))
  {
    var k := dist[t] - dist[v] - 1;
    var f := ByFirstEdge(g, v, t, k);
    WalksByFirstEdge(g, v, t, k);
    forall x | x in g.Keys - Children(g, dist, v)
      ensures f(x) == 0.0
    {
      if Edge(g, v, x) {
        TooShort(g, s, dist, x, t, k);
      }
    }
    TotalSubset(g.Keys, Children(g, dist, v), f);
    TotalCongruence(Children(g, dist, v), f, WalksTo(g, t, k));
  }

  // ----- the dependency recurrence

  /** Number of shortest walks from `s`, for reached nodes. */
  ghost function Paths<T(!new)>(g: Graph<T>, s: T, dist: map<T, int>, v: T): real {
    if v in dist && dist[v] >= 0 then Walks(g, s, v, dist[v]) else 0.0
  }

  function Quot(a: real, b: real): real { if b == 0.0 then 0.0 else a / b }

  lemma PathsPositive<T(!new)>(g: Graph<T>, s: T, dist: map<T, int>, v: T)
    requires Layered(g, s, dist) && v in g && dist[v] >= 0
    ensures Paths(g, s, dist, v) > 0.0
  {
    LayersAreDistances(g, s, dist, v);
    ShortestAt(g, s, v, dist[v]);
  }

  /** Walks from `w` on to `t`, weighted by the share of `from` in the paths to `t`. */
  ghost function Onward<T(!new)>(g: Graph<T>, s: T, dist: map<T, int>, from: T, w: T, t: T): real {
    if w !in dist || t !in dist || dist[w] < 0 || dist[t] < dist[w] then 0.0
    else Times(Quot(Paths(g, s, dist, from), Paths(g, s, dist, t)), Walks(g, w, t, dist[t] - dist[w]))
  }

  lemma QuotTimes(a: real, b: real, w: real)
    requires b > 0.0
    ensures Times(w, a) / b == Times(Quot(a, b), w)
  {
  }

  lemma QuotChain(a: real, b: real, c: real, w: real)
    requires b > 0.0 && c > 0.0
    ensures Times(Quot(a, c), w) == Times(Quot(a, b), Times(Quot(b, c), w))
  {
  }

  /** The pair share by layers. */
  lemma ShareByLayers<T(!new)>(g: Graph<T>, s: T, dist: map<T, int>, v: T, t: T)
    requires Layered(g, s, dist) && v in g && t in g && dist[v] >= 0
    ensures PairShare(g, s, v)(t) == if t == v then 0.0 else Onward(g, s, dist, v, v, t)
  {
    hide Times, Layered, Quot, WalkSet;
    LayersInDomain(g, s, dist, v);
    LayersAreDistances(g, s, dist, v);
    LayersAreDistances(g, s, dist, t);
    if t != v && dist[t] >= 0 {
      var j: nat, k: nat := dist[v], dist[t];
      ShortestAt(g, s, t, k);
      ThroughCount(g, s, v, t, j, k);
      assert (set p | p in Shortest(g, s, t) && v in p) == Through(g, s, v, t, k);
      if j <= k {
        QuotTimes(Paths(g, s, dist, v), Paths(g, s, dist, t), Walks(g, v, t, k - j));
      }
    }
  }

  lemma LayersInDomain<T(!new)>(g: Graph<T>, s: T, dist: map<T, int>, v: T)
    requires Layered(g, s, dist) && v in g
    ensures dist.Keys == g.Keys && dist[v] >= -1
  {
  }

  /** Contribution of child `w` of `v` to the share of `v` in the paths to `t`. */
  ghost function Via<T(!new)>(g: Graph<T>, s: T, dist: map<T, int>, v: T): (T, T) -> real {
    (w: T, t: T) => if t == v then 0.0 else Onward(g, s, dist, v, w, t)
  }

  /** The share of `v` splits over its children. */
  lemma ShareSplits<T(!new)>(g: Graph<T>, s: T, dist: map<T, int>, v: T, t: T)
    requires Layered(g, s, dist) && v in g && t in g && dist[v] >= 0
    ensures PairShare(g, s, v)(t) == Total(Children(g, dist, v), Column(Via(g, s, dist, v), t))
  {
    hide Times, Quot, PairShare, Layered, Shortest, WalkSet;
    ShareByLayers(g, s, dist, v, t);
    LayersInDomain(g, s, dist, v);
    var kids := Children(g, dist, v);
    var parts := Column(Via(g, s, dist, v), t);
    if t != v && dist[t] > dist[v] {
      var c := Quot(Paths(g, s, dist, v), Paths(g, s, dist, t));
      var f := WalksTo(g, t, dist[t] - dist[v] - 1);
      WalksByChildren(g, s, dist, v, t);
      forall w | w in kids
        ensures parts(w) == Times(c, f(w))
      {
        assert parts(w) == Via(g, s, dist, v)(w, t);
      }
      TotalScale(kids, c, f, parts);
    } else {
      if t != v {
        NoEmptyWalk(g, v, t);
        TimesZero(Quot(Paths(g, s, dist, v), Paths(g, s, dist, t)));
      }
      TotalZero(kids, parts);
    }
  }

  lemma TimesZero(c: real)
    ensures Times(c, 0.0) == 0.0
  {
  }

  function OneAt<T(==)>(x: T): T -> real { (t: T) => if t == x then 1.0 else 0.0 }

  lemma TotalOneAt<T>(s: set<T>, x: T)
    requires x in s
    ensures Total(s, OneAt(x)) == 1.0
  {
    TotalPick(s, x, OneAt(x));
    TotalZero(s - {x}, OneAt(x));
  }

  ghost function OnePlus<T>(f: T -> real, x: T): T -> real { (t: T) => f(t) + OneAt(x)(t) }

  lemma ViaChild<T(!new)>(g: Graph<T>, s: T, dist: map<T, int>, v: T, w: T, t: T)
    requires Layered(g, s, dist) && v in g && dist[v] >= 0 && w in Children(g, dist, v) && t in g
    ensures Via(g, s, dist, v)(w, t)
         == Times(Quot(Paths(g, s, dist, v), Paths(g, s, dist, w)), PairShare(g, s, w)(t) + OneAt(w)(t))
  {
    hide Times, Quot;
    ShareByLayers(g, s, dist, w, t);
    PathsPositive(g, s, dist, w);
    var c := Quot(Paths(g, s, dist, v), Paths(g, s, dist, w));
    if t == w {
      SelfWalk(g, w);
    } else if dist[t] >= dist[w] {
      PathsPositive(g, s, dist, t);
      QuotChain(Paths(g, s, dist, v), Paths(g, s, dist, w), Paths(g, s, dist, t), Walks(g, w, t, dist[t] - dist[w]));
    } else {
      TimesZero(c);
    }
  }

  /** What child `w` passes up to `v`. */
  ghost function FromChild<T(!new)>(g: Graph<T>, s: T, dist: map<T, int>, v: T): T -> real {
    (w: T) => Times(Quot(Paths(g, s, dist, v), Paths(g, s, dist, w)), 1.0 + Dependency(g, s, w))
  }

  lemma ViaTotal<T(!new)>(g: Graph<T>, s: T, dist: map<T, int>, v: T, w: T)
    requires Layered(g, s, dist) && v in g && dist[v] >= 0 && w in Children(g, dist, v)
    ensures Total(g.Keys, Row(Via(g, s, dist, v), w)) == FromChild(g, s, dist, v)(w)
  {
    hide Times, Quot, PairShare, Layered, Shortest, WalkSet, Onward, Via;
    var c := Quot(Paths(g, s, dist, v), Paths(g, s, dist, w));
    var f := OnePlus(PairShare(g, s, w), w);
    forall t | t in g.Keys
      ensures Row(Via(g, s, dist, v), w)(t) == Times(c, f(t))
    {
      ViaChild(g, s, dist, v, w, t);
    }
    TotalScale(g.Keys, c, f, Row(Via(g, s, dist, v), w));
    TotalAdd(g.Keys, PairShare(g, s, w), OneAt(w), f);
    TotalOneAt(g.Keys, w);
  }

  /** Brandes' recurrence: the dependency of a reached node is passed up by its
      children in the shortest-path layers. */
  lemma DependencyRecurrence<T(!new)>(g: Graph<T>, s: T, dist: map<T, int>, v: T)
    requires Layered(g, s, dist) && v in g && dist[v] >= 0
    ensures Dependency(g, s, v) == Total(Children(g, dist, v), FromChild(g, s, dist, v))
  {
    var kids := Children(g, dist, v);
    var via := Via(g, s, dist, v);
    forall t | t in g.Keys
      ensures PairShare(g, s, v)(t) == ColumnTotals(via, kids)(t)
    {
      ShareSplits(g, s, dist, v, t);
    }
    TotalCongruence(g.Keys, PairShare(g, s, v), ColumnTotals(via, kids));
    TotalExchange(kids, g.Keys, via);
    forall w | w in kids
      ensures RowTotals(via, g.Keys)(w) == FromChild(g, s, dist, v)(w)
    {
      ViaTotal(g, s, dist, v, w);
    }
    TotalCongruence(kids, RowTotals(via, g.Keys), FromChild(g, s, dist, v));
  }

  /** No shortest path runs through an unreached node. */
  lemma UnreachedOffPaths<T(!new)>(g: Graph<T>, s: T, dist: map<T, int>, v: T, t: T, p: seq<T>)
    requires Layered(g, s, dist) && v in g && dist[v] < 0 && p in Shortest(g, s, t)
    ensures v !in p
  {
    hide Layered, Shortest;
    ShortestMembers(g, s, t, p);
    if i :| 0 <= i < |p| && p[i] == v {
      assert Walk(g, s, v, p[..i + 1]);
      LayersAreDistances(g, s, dist, v);
    }
  }

  /** Nothing depends on an unreached node. */
  lemma UnreachedDependency<T(!new)>(g: Graph<T>, s: T, dist: map<T, int>, v: T)
    requires Layered(g, s, dist) && v in g && dist[v] < 0
    ensures Dependency(g, s, v) == 0.0
  {
    hide Layered, Shortest;
    forall t | t in g.Keys
      ensures PairShare(g, s, v)(t) == 0.0
    {
      forall p | p in Shortest(g, s, t)
        ensures v !in p
      {
        UnreachedOffPaths(g, s, dist, v, t, p);
      }
      assert (set p | p in Shortest(g, s, t) && v in p) == {};
    }
    TotalZero(g.Keys, PairShare(g, s, v));
  }
}
