/** Augmenting a residual network, breadth-first levels, the admissible arcs they
    select, and why the distance to the sink grows once those are exhausted. */
module Residual {
  import opened Collections
  import opened Sums
  import opened Digraphs
  import opened FlowNetwork

  // ----- one augmentation

  /** Move `d` units of residual capacity from an arc to its partner. */
  function Augment(net: Network, u: nat, i: nat, d: int): Network
    requires u < |net| && i < |net[u]| && net[u][i].to != u
    requires net[u][i].to < |net| && net[u][i].rev < |net[net[u][i].to]|
  {
    var a := net[u][i];
    var b := net[a.to][a.rev];
    net[u := net[u][i := a.(cap := a.cap - d)]][a.to := net[a.to][a.rev := b.(cap := b.cap + d)]]
  }

  lemma ArcFacts(net: Network, u: nat, i: nat)
    requires WellFormed(net) && u < |net| && i < |net[u]|
    ensures net[u][i].to < |net| && Paired(net, u, i)
  {
  }

  lemma ResidualRefl(net: Network)
    requires WellFormed(net)
    ensures ResidualOf(net, net)
  {
    forall u, i | 0 <= u < |net| && 0 <= i < |net[u]|
      ensures PairKept(net, net, u, i)
    {
      assert Paired(net, u, i);
    }
  }

  lemma ResidualTrans(a: Network, b: Network, c: Network)
    requires ResidualOf(a, b) && ResidualOf(b, c)
    ensures ResidualOf(a, c)
  {
    forall u, i | 0 <= u < |a| && 0 <= i < |a[u]|
      ensures PairKept(a, c, u, i)
    {
      assert PairKept(a, b, u, i) && PairKept(b, c, u, i);
      assert Paired(a, u, i);
      assert b[u][i] == a[u][i].(cap := b[u][i].cap);
    }
  }

  lemma AugmentShape(net: Network, u: nat, i: nat, d: int)
    requires WellFormed(net) && u < |net| && i < |net[u]| && net[u][i].to != u
    requires Paired(net, u, i)
    ensures SameArcs(net, Augment(net, u, i, d))
    ensures forall v, j :: 0 <= v < |net| && 0 <= j < |net[v]| ==>
      Augment(net, u, i, d)[v][j].cap == net[v][j].cap
        - (if v == u && j == i then d else 0)
        + (if v == net[u][i].to && j == net[u][i].rev then d else 0)
  {
  }

  lemma AugmentResidual(net: Network, u: nat, i: nat, d: int)
    requires WellFormed(net) && u < |net| && i < |net[u]| && net[u][i].to != u
    requires Paired(net, u, i)
    requires 0 <= d <= net[u][i].cap
    ensures ResidualOf(net, Augment(net, u, i, d))
  {
    var net': Network := Augment(net, u, i, d);
    AugmentShape(net, u, i, d);
    forall v, j | 0 <= v < |net| && 0 <= j < |net[v]|
      ensures net'[v][j].cap >= 0 && Paired(net', v, j)
    {
      assert Paired(net, v, j);
      assert net'[v][j] == net[v][j].(cap := net'[v][j].cap);
    }
    forall v, j | 0 <= v < |net| && 0 <= j < |net[v]|
      ensures PairKept(net, net', v, j)
    {
      assert Paired(net, v, j);
    }
  }

  lemma AugmentOut(net: Network, u: nat, i: nat, d: int, v: nat)
    requires WellFormed(net) && u < |net| && i < |net[u]| && net[u][i].to != u
    requires Paired(net, u, i) && v < |net|
    ensures
      var net': Network := Augment(net, u, i, d);
      Out(net', Capacity(net'), v)
        == Out(net, Capacity(net), v)
           - (if v == u then d as real else 0.0) + (if v == net[u][i].to then d as real else 0.0)
  {
    var net': Network := Augment(net, u, i, d);
    AugmentShape(net, u, i, d);
    var f, f' := AtRow(Capacity(net), v), AtRow(Capacity(net'), v);
    var n := |net[v]|;
    assert |net'[v]| == n;
    forall j: nat | j < n
      ensures f'(j) == f(j) - (if v == u && j == i then d as real else 0.0)
                            + (if v == net[u][i].to && j == net[u][i].rev then d as real else 0.0)
    {
      assert net'[v][j].cap == net[v][j].cap
        - (if v == u && j == i then d else 0)
        + (if v == net[u][i].to && j == net[u][i].rev then d else 0);
    }
    if v == u {
      SumUpdate(n, i, f, f');
    } else if v == net[u][i].to {
      SumUpdate(n, net[u][i].rev, f, f');
    } else {
      SumCongruence(n, f, f');
    }
  }

  // ----- residual and admissible graphs

  type Levels = seq<int>

  ghost function ResidualHeads(net: Network, u: nat): set<nat>
    requires u < |net|
  {
    set i | 0 <= i < |net[u]| && net[u][i].cap > 0 :: net[u][i].to
  }

  /** The graph of arcs with capacity left. */
  ghost function ResidualGraph(net: Network): Graph<nat> {
    map u | u in Nodes(net) :: ResidualHeads(net, u)
  }

  /** Capacity left, and the level rises. */
  ghost predicate Admissible(net: Network, level: Levels, u: nat, i: nat)
    requires u < |net| && i < |net[u]|
  {
    var a := net[u][i];
    u < |level| && a.to < |level| && a.cap > 0 && level[u] < level[a.to]
  }

  ghost function AdmissibleHeads(net: Network, level: Levels, u: nat): set<nat>
    requires u < |net|
  {
    set i | 0 <= i < |net[u]| && Admissible(net, level, u, i) :: net[u][i].to
  }

  ghost function AdmissibleGraph(net: Network, level: Levels): Graph<nat> {
    map u | u in Nodes(net) :: AdmissibleHeads(net, level, u)
  }

  lemma ResidualEdge(net: Network, u: nat, w: nat) returns (i: nat)
    requires Edge(ResidualGraph(net), u, w)
    ensures u < |net| && i < |net[u]| && net[u][i].to == w && net[u][i].cap > 0
  {
    i :| i < |net[u]| && net[u][i].to == w && net[u][i].cap > 0;
  }

  lemma AdmissibleEdge(net: Network, level: Levels, u: nat, w: nat) returns (i: nat)
    requires Edge(AdmissibleGraph(net, level), u, w)
    ensures u < |net| && i < |net[u]| && net[u][i].to == w && Admissible(net, level, u, i)
  {
    i :| i < |net[u]| && net[u][i].to == w && Admissible(net, level, u, i);
  }

  /** From reached nodes, residual arcs rise by at most one level. */
  ghost predicate RisesByOne(net: Network, level: Levels) {
    && |level| == |net|
    && forall u, i ::
         0 <= u < |net| && 0 <= i < |net[u]| && level[u] >= 0 && net[u][i].cap > 0 && net[u][i].to < |level|
         ==> 0 <= level[net[u][i].to] <= level[u] + 1
  }

  /** `w` was discovered from a node one level below. */
  ghost predicate Discovered(net: Network, level: Levels, w: nat)
    requires |level| == |net| && w < |level|
  {
    exists u, i :: 0 <= u < |net| && 0 <= i < |net[u]|
      && net[u][i].to == w && net[u][i].cap > 0 && level[u] == level[w] - 1
  }

  /** What a breadth-first search from `s` leaves in `level`. */
  ghost predicate LevelsFrom(net: Network, level: Levels, s: nat) {
    && RisesByOne(net, level)
    && s < |net| && level[s] == 0
    && (forall u :: 0 <= u < |level| ==> -1 <= level[u] < |net|)
    && (forall w :: 0 <= w < |level| && level[w] == 0 ==> w == s)
    && (forall w :: 0 <= w < |level| && level[w] > 0 ==> Discovered(net, level, w))
  }

  /** Every reached node lies on a walk that rises by one level per arc. */
  lemma LevelWalk(net: Network, level: Levels, s: nat, w: nat) returns (p: seq<nat>)
    requires Located(net) && LevelsFrom(net, level, s) && w < |net| && level[w] >= 0
    ensures Walk(ResidualGraph(net), s, w, p) && Walk(AdmissibleGraph(net, level), s, w, p)
    ensures |p| == level[w] + 1
    decreases level[w]
  {
    if level[w] == 0 {
      p := [s];
    } else {
      assert Discovered(net, level, w);
      var u: nat, i: nat :| u < |net| && i < |net[u]|
        && net[u][i].to == w && net[u][i].cap > 0 && level[u] == level[w] - 1;
      var q := LevelWalk(net, level, s, u);
      assert Admissible(net, level, u, i);
      assert Edge(AdmissibleGraph(net, level), u, w);
      assert Edge(ResidualGraph(net), u, w);
      WalkExtend(ResidualGraph(net), s, u, w, q);
      WalkExtend(AdmissibleGraph(net, level), s, u, w, q);
      p := q + [w];
    }
  }

  /** Along a residual walk from the source the level never runs ahead; a walk
      that keeps pace with it is admissible. */
  lemma WalkPace(net: Network, level: Levels, s: nat, w: nat, p: seq<nat>)
    requires Located(net) && RisesByOne(net, level) && s < |net| && level[s] == 0
    requires Walk(ResidualGraph(net), s, w, p)
    ensures w < |net| && 0 <= level[w] <= |p| - 1
    ensures level[w] == |p| - 1 ==> Walk(AdmissibleGraph(net, level), s, w, p)
    decreases |p|
  {
    if |p| > 1 {
      var q := p[..|p| - 1];
      var u := q[|q| - 1];
      assert Edge(ResidualGraph(net), p[|p| - 2], p[|p| - 1]);
      WalkPace(net, level, s, u, q);
      var i := ResidualEdge(net, u, w);
      assert net[u][i].to < |net|;
      if level[w] == |p| - 1 {
        assert Admissible(net, level, u, i);
        assert Edge(AdmissibleGraph(net, level), u, w);
        WalkExtend(AdmissibleGraph(net, level), s, u, w, q);
        assert p == q + [w];
      }
    }
  }

  /** The level is the residual distance from the source, -1 when unreachable. */
  lemma LevelIsDistance(net: Network, level: Levels, s: nat, w: nat)
    requires Located(net) && LevelsFrom(net, level, s) && w < |net|
    ensures level[w] >= 0 <==> Reaches(ResidualGraph(net), s, w)
    ensures level[w] >= 0 ==>
      && (exists p :: Walk(ResidualGraph(net), s, w, p) && |p| == level[w] + 1)
      && (forall p :: Walk(ResidualGraph(net), s, w, p) ==> |p| >= level[w] + 1)
  {
    if level[w] >= 0 {
      var p := LevelWalk(net, level, s, w);
    }
    forall p | Walk(ResidualGraph(net), s, w, p)
      ensures 0 <= level[w] <= |p| - 1
    {
      WalkPace(net, level, s, w, p);
    }
  }

  /** Once no admissible walk reaches the sink, its next level is strictly higher. */
  lemma PhaseRaisesSink(net: Network, level: Levels, next: Levels, s: nat, t: nat)
    requires Located(net) && s < |net| && t < |net|
    requires RisesByOne(net, level) && level[s] == 0
    requires !Reaches(AdmissibleGraph(net, level), s, t)
    requires LevelsFrom(net, next, s) && next[t] >= 0
    ensures level[t] < next[t]
  {
    var p := LevelWalk(net, next, s, t);
    WalkPace(net, level, s, t, p);
  }

  // ----- dead arcs

  /** No admissible arc appears. */
  ghost predicate Shrinks(net: Network, net': Network, level: Levels) {
    && SameArcs(net, net')
    && forall u, i {:trigger net'[u][i]} ::
         0 <= u < |net| && 0 <= i < |net[u]| && Admissible(net', level, u, i) ==> Admissible(net, level, u, i)
  }

  /** Arc i of `u` cannot start an admissible walk to the sink. */
  ghost predicate Dead(net: Network, level: Levels, t: nat, u: nat, i: nat)
    requires u < |net| && i < |net[u]|
  {
    Admissible(net, level, u, i) ==> !Reaches(AdmissibleGraph(net, level), net[u][i].to, t)
  }

  /** The arcs before the current-arc index of each node are dead. */
  ghost predicate PassedArcsDead(net: Network, level: Levels, it: seq<int>, t: nat) {
    && |it| == |net|
    && (forall u :: 0 <= u < |net| ==> 0 <= it[u] <= |net[u]|)
    && (forall u, i :: 0 <= u < |net| && 0 <= i < it[u] ==> Dead(net, level, t, u, i))
  }

  lemma ShrinksSubgraph(net: Network, net': Network, level: Levels)
    requires Shrinks(net, net', level)
    ensures Subgraph(AdmissibleGraph(net', level), AdmissibleGraph(net, level))
  {
  }

  lemma DeadStaysDead(net: Network, net': Network, level: Levels, it: seq<int>, t: nat)
    requires Shrinks(net, net', level) && PassedArcsDead(net, level, it, t)
    ensures PassedArcsDead(net', level, it, t)
  {
    ShrinksSubgraph(net, net', level);
    forall u, i | 0 <= u < |net| && 0 <= i < it[u]
      ensures Dead(net', level, t, u, i)
    {
      assert Dead(net, level, t, u, i);
      assert net'[u][i] == net[u][i].(cap := net'[u][i].cap);
      if Reaches(AdmissibleGraph(net', level), net[u][i].to, t) {
        SubgraphReaches(AdmissibleGraph(net', level), AdmissibleGraph(net, level), net[u][i].to, t);
      }
    }
  }

  /** The current-arc index of a node may move up to the first arc not known dead. */
  lemma AdvanceArc(net: Network, level: Levels, it: seq<int>, t: nat, v: nat, i: nat)
    requires PassedArcsDead(net, level, it, t) && v < |net| && it[v] <= i <= |net[v]|
    requires forall k :: 0 <= k < i ==> Dead(net, level, t, v, k)
    ensures PassedArcsDead(net, level, it[v := i], t)
  {
  }

  /** Current-arc indices only move up, and only at the level of `v` or above. */
  ghost predicate ArcsAdvanced(was: seq<int>, now: seq<int>, level: Levels, v: nat) {
    && |was| == |now| == |level| && v < |level|
    && forall u {:trigger now[u]} :: 0 <= u < |level| ==> was[u] <= now[u] && (level[u] < level[v] ==> now[u] == was[u])
  }

  lemma ArcsStay(it: seq<int>, level: Levels, v: nat)
    requires |it| == |level| && v < |level|
    ensures ArcsAdvanced(it, it, level, v)
  {
  }

  lemma ArcMoves(was: seq<int>, now: seq<int>, level: Levels, v: nat, i: int)
    requires ArcsAdvanced(was, now, level, v) && now[v] <= i
    ensures ArcsAdvanced(was, now[v := i], level, v)
  {
  }

  lemma ArcsAdvancedAbove(was: seq<int>, mid: seq<int>, now: seq<int>, level: Levels, v: nat, w: nat)
    requires ArcsAdvanced(was, mid, level, v) && ArcsAdvanced(mid, now, level, w) && level[v] < level[w]
    ensures ArcsAdvanced(was, now, level, v) && now[v] == mid[v]
  {
  }

  lemma CurrentArc(net: Network, level: Levels, it: seq<int>, t: nat, v: nat)
    requires PassedArcsDead(net, level, it, t) && v < |net|
    ensures 0 <= it[v] <= |net[v]|
    ensures forall k :: 0 <= k < it[v] ==> Dead(net, level, t, v, k)
  {
  }

  lemma DeadArc(net: Network, level: Levels, t: nat, v: nat, i: nat)
    requires v < |net| && i < |net[v]|
    requires Admissible(net, level, v, i) ==> !Reaches(AdmissibleGraph(net, level), net[v][i].to, t)
    ensures Dead(net, level, t, v, i)
  {
  }

  lemma AdmissibleHead(net: Network, level: Levels, v: nat, i: nat)
    requires v < |net| && i < |net[v]| && Admissible(net, level, v, i)
    ensures Edge(AdmissibleGraph(net, level), v, net[v][i].to)
  {
  }

  /** A node all of whose arcs are dead is cut off from the sink. */
  lemma AllArcsDead(net: Network, level: Levels, t: nat, v: nat)
    requires v < |net| && v != t
    requires forall i :: 0 <= i < |net[v]| ==> Dead(net, level, t, v, i)
    ensures !Reaches(AdmissibleGraph(net, level), v, t)
  {
    var g := AdmissibleGraph(net, level);
    forall w: nat | Edge(g, v, w)
      ensures !Reaches(g, w, t)
    {
      var i := AdmissibleEdge(net, level, v, w);
      assert Dead(net, level, t, v, i);
    }
    if Reaches(g, v, t) {
      var w := FirstStep(g, v, t);
    }
  }

  /** The effect of a depth-first step from `v` that delivers `r` units. */
  ghost predicate Delivered(net: Network, net': Network, level: Levels, v: nat, t: nat, r: int) {
    && ResidualOf(net, net')
    && Transfers(net, net', v, t, r)
    && Shrinks(net, net', level)
    && RisesByOne(net', level)
    && v < |level|
    && forall u :: 0 <= u < |level| && level[u] < level[v] ==> net'[u] == net[u]
  }

  lemma NothingDelivered(net: Network, level: Levels, v: nat, t: nat, r: int)
    requires WellFormed(net) && RisesByOne(net, level) && v < |level|
    requires r == 0 || v == t
    ensures Delivered(net, net, level, v, t, r)
  {
    ResidualRefl(net);
  }

  /** Putting arc i in front of a delivery from its head. */
  lemma DeliverThroughArc(net: Network, net': Network, level: Levels, v: nat, i: nat, t: nat, d: int)
    requires WellFormed(net) && v < |net| && i < |net[v]| && RisesByOne(net, level)
    requires Admissible(net, level, v, i) && level[v] >= 0
    requires Delivered(net, net', level, net[v][i].to, t, d) && 0 <= d <= net[v][i].cap
    ensures net'[v] == net[v] && Paired(net', v, i)
    ensures Delivered(net, Augment(net', v, i, d), level, v, t, d)
    ensures Shrinks(net', Augment(net', v, i, d), level)
  {
    var w := net[v][i].to;
    assert net'[v] == net[v];
    assert Paired(net', v, i);
    var after: Network := Augment(net', v, i, d);
    AugmentResidual(net', v, i, d);
    ResidualTrans(net, net', after);
    forall u: nat | u < |net|
      ensures Out(after, Capacity(after), u)
           == Out(net, Capacity(net), u) - (if u == v then d as real else 0.0) + (if u == t then d as real else 0.0)
    {
      AugmentOut(net', v, i, d, u);
    }
    AugmentShape(net', v, i, d);
    AugmentLevels(net', level, v, i, d);
    forall u, j | 0 <= u < |net| && 0 <= j < |net[u]| && Admissible(after, level, u, j)
      ensures Admissible(net, level, u, j)
    {
      assert Admissible(net', level, u, j);
    }
  }

  /** Pushing along an admissible arc opens only a level-lowering one. */
  lemma AugmentLevels(net: Network, level: Levels, v: nat, i: nat, d: int)
    requires WellFormed(net) && v < |net| && i < |net[v]| && RisesByOne(net, level)
    requires Admissible(net, level, v, i) && level[v] >= 0
    requires Paired(net, v, i) && 0 <= d <= net[v][i].cap
    ensures Shrinks(net, Augment(net, v, i, d), level)
    ensures RisesByOne(Augment(net, v, i, d), level)
  {
  }

  // ----- glue between the phases

  lemma NothingPassed(net: Network, level: Levels, it: seq<int>, t: nat)
    requires |it| == |net| && forall u :: 0 <= u < |it| ==> it[u] == 0
    ensures PassedArcsDead(net, level, it, t)
  {
  }

  lemma NothingSent(net: Network, s: nat, t: nat)
    requires WellFormed(net)
    ensures ResidualOf(net, net) && Transfers(net, net, s, t, 0)
  {
    ResidualRefl(net);
  }

  lemma DeliveredParts(net: Network, net': Network, level: Levels, v: nat, t: nat, r: int)
    requires Delivered(net, net', level, v, t, r) && v != t
    ensures ResidualOf(net, net') && Transfers(net, net', v, t, r) && RisesByOne(net', level)
    ensures Out(net', Capacity(net'), v) == Out(net, Capacity(net), v) - r as real
  {
  }

  lemma LevelReaches(net: Network, level: Levels, s: nat, t: nat)
    requires WellFormed(net) && LevelsFrom(net, level, s) && t < |net|
    ensures RisesByOne(net, level) && level[s] == 0
    ensures forall u :: 0 <= u < |level| ==> level[u] < |net|
    ensures level[t] >= 0 ==> Reaches(AdmissibleGraph(net, level), s, t)
    ensures level[t] >= 0 <==> Reaches(ResidualGraph(net), s, t)
  {
    LevelIsDistance(net, level, s, t);
    if level[t] >= 0 {
      var p := LevelWalk(net, level, s, t);
    }
  }

  lemma LevelsInRange(net: Network, level: Levels, s: nat, t: nat)
    requires LevelsFrom(net, level, s) && t < |net| && s != t
    ensures -1 <= level[t] < |net| && level[t] != 0
  {
  }

  lemma NextPhase(net: Network, net': Network, level: Levels, next: Levels, s: nat, t: nat)
    requires ResidualOf(net, net') && s < |net| && t < |net|
    requires LevelsFrom(net, level, s) && RisesByOne(net', level)
    requires !Reaches(AdmissibleGraph(net', level), s, t)
    requires LevelsFrom(net', next, s) && next[t] >= 0
    ensures level[t] < next[t]
  {
    PhaseRaisesSink(net', level, next, s, t);
  }

  lemma ResidualParts(net: Network, net': Network)
    requires ResidualOf(net, net')
    ensures SameArcs(net, net') && WellFormed(net) && WellFormed(net')
  {
  }

  lemma ReachableSaturated(net: Network, s: nat, side: set<nat>)
    requires WellFormed(net)
    requires forall u: nat :: u in side <==> Reaches(ResidualGraph(net), s, u)
    ensures Saturated(net, side)
  {
    forall u: nat, i: nat | u < |net| && i < |net[u]| && u in side && net[u][i].cap > 0
      ensures net[u][i].to in side
    {
      assert Edge(ResidualGraph(net), u, net[u][i].to);
      ReachesStep(ResidualGraph(net), s, u, net[u][i].to);
    }
  }
}
