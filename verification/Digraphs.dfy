/** Finite directed graphs as successor maps, with the walks, reachability and
    cycles that the graph algorithms are specified against. */
module Digraphs {
  import opened Collections

  type Graph<T> = map<T, set<T>>

  predicate Edge<T(==)>(g: Graph<T>, u: T, v: T) {
    u in g && v in g[u]
  }

  /** Every edge leads to a node of the graph. */
  ghost predicate Closed<T>(g: Graph<T>) {
    forall u, v :: u in g && v in g[u] ==> v in g
  }

  /** Every edge of `g` is an edge of `h`. */
  ghost predicate Subgraph<T(!new)>(g: Graph<T>, h: Graph<T>) {
    forall u, v {:trigger Edge(g, u, v)} {:trigger Edge(h, u, v)} :: Edge(g, u, v) ==> Edge(h, u, v)
  }

  /** `p` lists the nodes of a walk; a walk of n edges has n + 1 nodes. */
  ghost predicate IsPath<T>(g: Graph<T>, p: seq<T>) {
    p != [] && forall i, j :: 0 <= i < j < |p| && j == i + 1 ==> Edge(g, p[i], p[j])
  }

  ghost predicate Walk<T>(g: Graph<T>, u: T, v: T, p: seq<T>) {
    IsPath(g, p) && p[0] == u && p[|p| - 1] == v
  }

  ghost predicate Reaches<T(!new)>(g: Graph<T>, u: T, v: T) {
    exists p :: Walk(g, u, v, p)
  }

  ghost predicate OnCycle<T(!new)>(g: Graph<T>, v: T) {
    exists w :: Edge(g, v, w) && Reaches(g, w, v)
  }

  ghost predicate Acyclic<T(!new)>(g: Graph<T>) {
    forall v :: !OnCycle(g, v)
  }

  /** Some cycle leads to `v`. */
  ghost predicate BelowCycle<T(!new)>(g: Graph<T>, v: T) {
    exists c :: OnCycle(g, c) && Reaches(g, c, v)
  }

  /** Some cycle can be reached from `v`. */
  ghost predicate AboveCycle<T(!new)>(g: Graph<T>, v: T) {
    exists c :: Reaches(g, v, c) && OnCycle(g, c)
  }

  lemma ReachesSelf<T(!new)>(g: Graph<T>, v: T)
    ensures Reaches(g, v, v)
  {
    assert Walk(g, v, v, [v]);
  }

  lemma WalkConcat<T>(g: Graph<T>, u: T, v: T, w: T, p: seq<T>, q: seq<T>)
    requires Walk(g, u, v, p) && Walk(g, v, w, q)
    ensures Walk(g, u, w, p + q[1..])
  {
  }

  lemma WalkExtend<T>(g: Graph<T>, u: T, v: T, w: T, p: seq<T>)
    requires Walk(g, u, v, p) && Edge(g, v, w)
    ensures Walk(g, u, w, p + [w])
  {
  }

  lemma ReachesTrans<T(!new)>(g: Graph<T>, u: T, v: T, w: T)
    requires Reaches(g, u, v) && Reaches(g, v, w)
    ensures Reaches(g, u, w)
  {
    var p :| Walk(g, u, v, p);
    var q :| Walk(g, v, w, q);
    WalkConcat(g, u, v, w, p, q);
  }

  lemma ReachesEdge<T(!new)>(g: Graph<T>, u: T, v: T)
    requires Edge(g, u, v)
    ensures Reaches(g, u, v)
  {
    assert Walk(g, u, v, [u, v]);
  }

  /** Reachability followed by one more edge. */
  lemma ReachesStep<T(!new)>(g: Graph<T>, u: T, v: T, w: T)
    requires Reaches(g, u, v) && Edge(g, v, w)
    ensures Reaches(g, u, w)
  {
    ReachesEdge(g, v, w);
    ReachesTrans(g, u, v, w);
  }

  /** An edge followed by reachability. */
  lemma StepReaches<T(!new)>(g: Graph<T>, u: T, v: T, w: T)
    requires Edge(g, u, v) && Reaches(g, v, w)
    ensures Reaches(g, u, w)
  {
    ReachesEdge(g, u, v);
    ReachesTrans(g, u, v, w);
  }

  /** A walk between different nodes starts with an edge. */
  lemma FirstStep<T(!new)>(g: Graph<T>, u: T, v: T) returns (w: T)
    requires Reaches(g, u, v) && u != v
    ensures Edge(g, u, w) && Reaches(g, w, v)
  {
    var p :| Walk(g, u, v, p);
    w := p[1];
    assert Walk(g, w, v, p[1..]);
  }

  /** A walk between different nodes ends with an edge. */
  lemma LastStep<T(!new)>(g: Graph<T>, u: T, v: T) returns (w: T)
    requires Reaches(g, u, v) && u != v
    ensures Reaches(g, u, w) && Edge(g, w, v)
  {
    var p :| Walk(g, u, v, p);
    w := p[|p| - 2];
    assert Edge(g, p[|p| - 2], p[|p| - 1]);
    assert Walk(g, u, w, p[..|p| - 1]);
  }

  /** A set that no edge leaves contains everything its members reach. */
  lemma ClosedSetWalk<T>(g: Graph<T>, s: set<T>, u: T, v: T, p: seq<T>)
    requires Walk(g, u, v, p) && u in s
    requires forall x, y :: x in s && Edge(g, x, y) ==> y in s
    ensures v in s
    decreases |p|
  {
    if |p| > 1 {
      assert Edge(g, p[0], p[1]);
      ClosedSetWalk(g, s, p[1], v, p[1..]);
    }
  }

  lemma ClosedSetReaches<T(!new)>(g: Graph<T>, s: set<T>, u: T, v: T)
    requires Reaches(g, u, v) && u in s
    requires forall x, y :: x in s && Edge(g, x, y) ==> y in s
    ensures v in s
  {
    var p :| Walk(g, u, v, p);
    ClosedSetWalk(g, s, u, v, p);
  }

  lemma SubgraphReaches<T(!new)>(g: Graph<T>, h: Graph<T>, u: T, v: T)
    requires Subgraph(g, h) && Reaches(g, u, v)
    ensures Reaches(h, u, v)
  {
    var p :| Walk(g, u, v, p);
    assert Walk(h, u, v, p);
  }

  lemma SubgraphAcyclic<T(!new)>(g: Graph<T>, h: Graph<T>)
    requires Subgraph(g, h) && Acyclic(h)
    ensures Acyclic(g)
  {
    forall v | OnCycle(g, v)
      ensures false
    {
      var w :| Edge(g, v, w) && Reaches(g, w, v);
      SubgraphReaches(g, h, w, v);
      assert OnCycle(h, v);
    }
  }

  /** Every node a cycle goes through is on a cycle. */
  lemma CycleSuccessor<T(!new)>(g: Graph<T>, v: T) returns (w: T)
    requires OnCycle(g, v)
    ensures Edge(g, v, w) && OnCycle(g, w)
  {
    w :| Edge(g, v, w) && Reaches(g, w, v);
    if w != v {
      var x := FirstStep(g, w, v);
      ReachesStep(g, x, v, w);
    }
  }

  /** If along every edge inside a closed set the position in `order` falls, no
      member of the set can reach a cycle. */
  lemma OrderedNotAboveCycle<T(!new)>(g: Graph<T>, order: seq<T>, i: nat)
    requires i < |order|
    requires forall j, v :: 0 <= j < |order| && Edge(g, order[j], v) ==> v in order[..j]
    ensures !OnCycle(g, order[i])
    decreases i
  {
    if OnCycle(g, order[i]) {
      var w := CycleSuccessor(g, order[i]);
      var j :| 0 <= j < i && order[j] == w;
      OrderedNotAboveCycle(g, order, j);
    }
  }

  lemma OrderedSetSafe<T(!new)>(g: Graph<T>, order: seq<T>, v: T)
    requires v in order
    requires forall j, w :: 0 <= j < |order| && Edge(g, order[j], w) ==> w in order[..j]
    ensures !AboveCycle(g, v)
  {
    if c :| Reaches(g, v, c) && OnCycle(g, c) {
      var members := set x | x in order;
      ClosedSetReaches(g, members, v, c);
      var i :| 0 <= i < |order| && order[i] == c;
      OrderedNotAboveCycle(g, order, i);
    }
  }

  /** A walk closed by an edge back to one of its nodes runs through a cycle. */
  lemma ClosingEdge<T(!new)>(g: Graph<T>, p: seq<T>, i: nat)
    requires IsPath(g, p) && i < |p| && Edge(g, p[i], p[0])
    ensures OnCycle(g, p[i]) && Reaches(g, p[i], p[|p| - 1])
  {
    assert Walk(g, p[0], p[i], p[..i + 1]);
    assert Walk(g, p[i], p[|p| - 1], p[i..]);
  }

  /** Every node of a cycle is entered from the cycle. */
  lemma CyclePredecessor<T(!new)>(g: Graph<T>, v: T) returns (u: T)
    requires OnCycle(g, v)
    ensures Edge(g, u, v) && OnCycle(g, u)
  {
    var w :| Edge(g, v, w) && Reaches(g, w, v);
    if w == v {
      u := v;
    } else {
      u := LastStep(g, w, v);
      ReachesStep(g, w, u, v);
      StepReaches(g, v, w, u);
    }
  }

  /** If every edge into a listed node comes from an earlier one, no cycle leads
      to a listed node. */
  lemma OrderedNotOnCycle<T(!new)>(g: Graph<T>, order: seq<T>, i: nat)
    requires i < |order|
    requires forall j, u :: 0 <= j < |order| && Edge(g, u, order[j]) ==> u in order[..j]
    ensures !OnCycle(g, order[i])
    decreases i
  {
    if OnCycle(g, order[i]) {
      var u := CyclePredecessor(g, order[i]);
      var j :| 0 <= j < i && order[j] == u;
      OrderedNotOnCycle(g, order, j);
    }
  }

  lemma OrderedNotBelowCycle<T(!new)>(g: Graph<T>, order: seq<T>, c: T, v: T)
    requires Reaches(g, c, v) && OnCycle(g, c)
    requires forall j, u :: 0 <= j < |order| && Edge(g, u, order[j]) ==> u in order[..j]
    ensures v !in order
  {
    var p :| Walk(g, c, v, p);
    if v in order {
      BackwardClosedWalk(g, order, c, v, p);
      var i :| 0 <= i < |order| && order[i] == c;
      OrderedNotOnCycle(g, order, i);
    }
  }

  lemma BackwardClosedWalk<T>(g: Graph<T>, order: seq<T>, u: T, v: T, p: seq<T>)
    requires Walk(g, u, v, p) && v in order
    requires forall j, x :: 0 <= j < |order| && Edge(g, x, order[j]) ==> x in order[..j]
    ensures u in order
    decreases |p|
  {
    if |p| > 1 {
      var x := p[|p| - 2];
      assert Edge(g, x, p[|p| - 1]);
      var j :| 0 <= j < |order| && order[j] == v;
      assert x in order[..j];
      BackwardClosedWalk(g, order, u, x, p[..|p| - 1]);
    }
  }

  /** An edge from the end of a walk to one of its nodes closes a cycle. */
  lemma BackEdge<T(!new)>(g: Graph<T>, p: seq<T>, v: T)
    requires IsPath(g, p) && v in p && Edge(g, p[|p| - 1], v)
    ensures OnCycle(g, v)
  {
    var i :| 0 <= i < |p| && p[i] == v;
    var q := p[i..];
    assert Walk(g, v, p[|p| - 1], q);
    if |q| > 1 {
      assert Edge(g, q[0], q[1]);
      assert Walk(g, q[1], q[|q| - 1], q[1..]);
      ReachesStep(g, q[1], q[|q| - 1], v);
    } else {
      ReachesSelf(g, v);
    }
  }

  ghost predicate FedFrom<T>(g: Graph<T>, s: set<T>, v: T) {
    exists u :: u in s && Edge(g, u, v)
  }

  lemma PrependEdge<T>(g: Graph<T>, u: T, p: seq<T>)
    requires IsPath(g, p) && Edge(g, u, p[0])
    ensures IsPath(g, [u] + p)
  {
  }

  /** A finite set whose members all have a predecessor inside the set is fed by
      a cycle.  `p` is the walk traced backwards so far. */
  lemma BackwardCycle<T(!new)>(g: Graph<T>, s: set<T>, p: seq<T>)
    requires forall v :: v in s ==> FedFrom(g, s, v)
    requires IsPath(g, p) && Within(p, s) && Distinct(p)
    ensures BelowCycle(g, p[|p| - 1])
    decreases |s| - |p|
  {
    hide IsPath, Reaches, OnCycle, Distinct, Within;
    var u := Feeder(g, s, p);
    if u in p {
      var i := IndexOf(p, u);
      ClosingEdge(g, p, i);
    } else {
      var q := [u] + p;
      PrependEdge(g, u, p);
      PrependDistinct(u, p, s);
      SubsetLength(q, s);
      BackwardCycle(g, s, q);
    }
  }

  lemma Feeder<T(!new)>(g: Graph<T>, s: set<T>, p: seq<T>) returns (u: T)
    requires forall v :: v in s ==> FedFrom(g, s, v)
    requires IsPath(g, p) && Within(p, s)
    ensures p != [] && u in s && Edge(g, u, p[0])
  {
    assert FedFrom(g, s, p[0]);
    u :| u in s && Edge(g, u, p[0]);
  }

  lemma PrependDistinct<T>(u: T, p: seq<T>, s: set<T>)
    requires Within(p, s) && Distinct(p) && u in s && u !in p
    ensures Within([u] + p, s) && Distinct([u] + p)
  {
  }
}
