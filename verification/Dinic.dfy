/** Dinic's maximum flow and minimum cut, on a mutable residual network. */
module DinicFlow {
  import opened Collections
  import opened Sums
  import opened Digraphs
  import opened FlowNetwork
  import opened Residual

  /** An arc record; `src` and `idx` say where in the adjacency lists it is kept. */
  class Edge {
    ghost const src: nat
    ghost const idx: nat
    const to: nat
    const rev: nat
    const text: string
    var cap: int

    constructor (to: nat, rev: nat, cap: int, text: string, ghost src: nat, ghost idx: nat)
      ensures this.to == to && this.rev == rev && this.cap == cap && this.text == text
      ensures this.src == src && this.idx == idx
    {
      this.to, this.rev, this.cap, this.text := to, rev, cap, text;
      this.src, this.idx := src, idx;
    }
  }

  const INF: int := 1_000_000_000

  /** Total original capacity of a list of edges. */
  ghost function CapacitySum(net: Network, edges: seq<Edge>): real {
    if edges == [] then 0.0
    else
      var e := edges[|edges| - 1];
      CapacitySum(net, edges[..|edges| - 1]) + CapacityAt(net, e.src, e.idx)
  }

  /** The network after one `addEdge` call. */
  ghost function WithArc(net: Network, u: nat, v: nat, cap: nat, text: string): Network
    requires u < |net| && v < |net|
  {
    var one := net[u := net[u] + [Arc(v, |net[v]|, cap, text)]];
    one[v := one[v] + [Arc(u, |one[u]| - 1, 0, "")]]
  }

  /** `net'` is `net` with one labelled arc from u to v and an unlabelled partner
      without capacity; all earlier arcs stay where they are.  A loop is entered in
      its row twice, and both entries name the first as partner. */
  ghost predicate ArcAdded(net: Network, net': Network, u: nat, v: nat, cap: nat, text: string)
    requires u < |net| && v < |net|
  {
    && |net'| == |net|
    && (forall w :: 0 <= w < |net| && w != u && w != v ==> net'[w] == net[w])
    && (u != v ==>
          net'[u] == net[u] + [Arc(v, |net[v]|, cap, text)] && net'[v] == net[v] + [Arc(u, |net[u]|, 0, "")])
    && (u == v ==> net'[u] == net[u] + [Arc(u, |net[u]|, cap, text), Arc(u, |net[u]|, 0, "")])
  }

  /** Total capacity of the arcs from a to b. */
  ghost function Joint(net: Network, a: nat, b: nat): real {
    Between(net, Capacity(net), a, b)
  }

  /** The capacity from u to v grows by that of the arc, and between no other two
      nodes, in either direction, does it change. */
  ghost predicate CapacityAdded(net: Network, net': Network, u: nat, v: nat, cap: nat) {
    && |net'| == |net|
    && forall a: nat, b: nat :: a < |net| && b < |net| && a != b ==>
         Joint(net', a, b) == Joint(net, a, b) + (if a == u && b == v then cap as real else 0.0)
  }

  lemma ArcAddedCapacity(net: Network, net': Network, u: nat, v: nat, cap: nat, text: string)
    requires u < |net| && v < |net| && ArcAdded(net, net', u, v, cap, text)
    ensures CapacityAdded(net, net', u, v, cap)
  {
    forall a: nat, b: nat | a < |net| && b < |net| && a != b
      ensures Joint(net', a, b) == Joint(net, a, b) + (if a == u && b == v then cap as real else 0.0)
    {
      var n := |net[a]|;
      var f, f' := Toward(net, Capacity(net), a, b), Toward(net', Capacity(net'), a, b);
      assert |net'[a]| >= n && forall i :: 0 <= i < n ==> net'[a][i] == net[a][i];
      SumCongruence(n, f', f);
      if a == u || a == v {
        assert Sum(n + 1, f') == Sum(n, f') + f'(n);
      }
      if a == u == v {
        assert Sum(n + 2, f') == Sum(n + 1, f') + f'(n + 1);
      }
    }
  }

  lemma WithArcAdds(net: Network, u: nat, v: nat, cap: nat, text: string)
    requires u < |net| && v < |net|
    ensures ArcAdded(net, WithArc(net, u, v, cap, text), u, v, cap, text)
    ensures CapacityAdded(net, WithArc(net, u, v, cap, text), u, v, cap)
  {
    ArcAddedCapacity(net, WithArc(net, u, v, cap, text), u, v, cap, text);
  }

  lemma WithArcWellFormed(net: Network, u: nat, v: nat, cap: nat, text: string)
    requires WellFormed(net) && u < |net| && v < |net|
    ensures WellFormed(WithArc(net, u, v, cap, text))
    ensures text != "" && Unused(net) ==> Unused(WithArc(net, u, v, cap, text))
  {
    var net' := WithArc(net, u, v, cap, text);
    forall w, i | 0 <= w < |net'| && 0 <= i < |net'[w]|
      ensures Paired(net', w, i)
    {
      if i < |net[w]| {
        assert Paired(net, w, i);
      }
    }
  }

  // ----- the state of a breadth-first search

  /** `seen` lists the reached nodes in discovery order, their levels never
      fall, and none is more than one above the node being expanded. */
  ghost predicate InOrder(net: Network, level: Levels, s: nat, seen: seq<nat>, done: nat) {
    && |level| == |net| && s < |net| && level[s] == 0
    && done <= |seen| && seen != [] && seen[0] == s && Distinct(seen)
    && (forall k :: 0 <= k < |seen| ==> seen[k] < |net| && 0 <= level[seen[k]] <= k)
    && (forall j, k :: 0 <= j <= k < |seen| ==> level[seen[j]] <= level[seen[k]])
    && (done < |seen| ==> forall k :: 0 <= k < |seen| ==> level[seen[k]] <= level[seen[done]] + 1)
    && (forall u: nat :: u < |net| ==> (if u in seen then level[u] >= 0 else level[u] == -1))
  }

  /** Every reached node but the start was discovered from one level below. */
  ghost predicate Rooted(net: Network, level: Levels, s: nat) {
    && |level| == |net|
    && (forall w :: 0 <= w < |net| && level[w] == 0 ==> w == s)
    && (forall w :: 0 <= w < |net| && level[w] > 0 ==> Discovered(net, level, w))
  }

  ghost predicate Expanded(net: Network, level: Levels, seen: seq<nat>, done: nat) {
    done <= |seen| && forall k :: 0 <= k < done ==> seen[k] < |net| && ScannedTo(net, level, seen[k], |net[seen[k]]|)
  }

  ghost predicate Frontier(net: Network, level: Levels, s: nat, seen: seq<nat>, done: nat) {
    Located(net) && InOrder(net, level, s, seen, done) && Rooted(net, level, s) && Expanded(net, level, seen, done)
  }

  /** The first k residual arcs of `v` lead to nodes at most one level up. */
  ghost predicate ScannedTo(net: Network, level: Levels, v: nat, k: nat) {
    && |level| == |net| && v < |net| && k <= |net[v]|
    && forall i :: 0 <= i < k && net[v][i].cap > 0 && net[v][i].to < |net|
                   ==> 0 <= level[net[v][i].to] <= level[v] + 1
  }

  lemma FrontierStarts(net: Network, level: Levels, s: nat)
    requires WellFormed(net) && |level| == |net| && s < |net|
    requires forall u :: 0 <= u < |net| ==> level[u] == if u == s then 0 else -1
    ensures Frontier(net, level, s, [s], 0)
  {
  }

  lemma QueueFits(net: Network, level: Levels, s: nat, seen: seq<nat>, done: nat)
    requires Frontier(net, level, s, seen, done)
    ensures |seen| <= |net| && |level| == |net|
    ensures done < |seen| ==> seen[done] < |net| && level[seen[done]] >= 0
    ensures forall u, i :: 0 <= u < |net| && 0 <= i < |net[u]| ==> net[u][i].to < |net|
  {
    SubsetLength(seen, Nodes(net));
    BelowSize(|net|);
  }

  lemma BelowSize(n: nat)
    ensures |Below(n)| == n
  {
  }

  lemma InOrderGrows(net: Network, level: Levels, s: nat, seen: seq<nat>, done: nat, w: nat)
    requires InOrder(net, level, s, seen, done) && done < |seen| && w < |net| && level[w] < 0
    ensures InOrder(net, level[w := level[seen[done]] + 1], s, seen + [w], done)
  {
  }

  lemma RootedGrows(net: Network, level: Levels, s: nat, v: nat, k: nat)
    requires Rooted(net, level, s) && v < |net| && k < |net[v]| && net[v][k].cap > 0 && level[v] >= 0
    requires net[v][k].to < |net| && level[net[v][k].to] < 0
    ensures Rooted(net, level[net[v][k].to := level[v] + 1], s)
  {
  }

  lemma ScannedGrows(net: Network, level: Levels, v: nat, k: nat, w: nat, d: nat)
    requires ScannedTo(net, level, v, k) && w < |net| && level[w] < 0 && v != w
    ensures ScannedTo(net, level[w := d], v, k)
  {
  }

  lemma ExpandedGrows(net: Network, level: Levels, s: nat, seen: seq<nat>, done: nat, w: nat, d: nat)
    requires InOrder(net, level, s, seen, done) && Expanded(net, level, seen, done) && w < |net| && level[w] < 0
    ensures Expanded(net, level[w := d], seen + [w], done)
  {
    hide ScannedTo, Distinct;
    forall j | 0 <= j < done
      ensures (seen + [w])[j] < |net|
      ensures ScannedTo(net, level[w := d], (seen + [w])[j], |net[(seen + [w])[j]]|)
    {
      assert (seen + [w])[j] == seen[j] && level[seen[j]] >= 0;
      ScannedGrows(net, level, seen[j], |net[seen[j]]|, w, d);
    }
  }

  /** After discovering its head, arc k counts as scanned. */
  lemma ScannedOneMore(net: Network, level: Levels, v: nat, k: nat)
    requires Located(net) && ScannedTo(net, level, v, k) && k < |net[v]| && level[v] >= 0
    requires level[net[v][k].to] < 0
    ensures ScannedTo(net, level[net[v][k].to := level[v] + 1], v, k + 1)
  {
  }

  lemma InOrderFacts(net: Network, level: Levels, s: nat, seen: seq<nat>, done: nat)
    requires InOrder(net, level, s, seen, done) && done < |seen|
    ensures |level| == |net| && seen[done] < |net| && level[seen[done]] >= 0
  {
  }

  lemma LocatedAt(net: Network, v: nat, k: nat)
    requires Located(net) && v < |net| && k < |net[v]|
    ensures net[v][k].to < |net|
  {
  }

  /** Discovering the head of an arc of the node being expanded. */
  lemma FrontierGrows(net: Network, level: Levels, s: nat, seen: seq<nat>, done: nat, k: nat)
    requires Frontier(net, level, s, seen, done) && done < |seen|
    requires ScannedTo(net, level, seen[done], k) && k < |net[seen[done]]|
    requires net[seen[done]][k].cap > 0 && level[net[seen[done]][k].to] < 0
    ensures
      var v, w := seen[done], net[seen[done]][k].to;
      var level' := level[w := level[v] + 1];
      Frontier(net, level', s, seen + [w], done) && ScannedTo(net, level', v, k + 1)
  {
    hide InOrder, Rooted, Expanded, ScannedTo, Located;
    InOrderFacts(net, level, s, seen, done);
    var v := seen[done];
    LocatedAt(net, v, k);
    var w := net[v][k].to;
    InOrderGrows(net, level, s, seen, done, w);
    RootedGrows(net, level, s, v, k);
    ExpandedGrows(net, level, s, seen, done, w, level[v] + 1);
    ScannedOneMore(net, level, v, k);
  }

  lemma ScannedStarts(net: Network, level: Levels, v: nat)
    requires |level| == |net| && v < |net|
    ensures ScannedTo(net, level, v, 0)
  {
  }

  /** Passing an arc whose head is known or that has no capacity left. */
  lemma FrontierScans(net: Network, level: Levels, s: nat, seen: seq<nat>, done: nat, k: nat)
    requires Frontier(net, level, s, seen, done) && done < |seen|
    requires ScannedTo(net, level, seen[done], k) && k < |net[seen[done]]|
    requires !(net[seen[done]][k].cap > 0 && level[net[seen[done]][k].to] < 0)
    ensures ScannedTo(net, level, seen[done], k + 1)
  {
  }

  lemma FrontierAdvances(net: Network, level: Levels, s: nat, seen: seq<nat>, done: nat)
    requires Frontier(net, level, s, seen, done) && done < |seen|
    requires ScannedTo(net, level, seen[done], |net[seen[done]]|)
    ensures Frontier(net, level, s, seen, done + 1)
  {
  }

  lemma FrontierFinished(net: Network, level: Levels, s: nat, seen: seq<nat>)
    requires Frontier(net, level, s, seen, |seen|)
    ensures LevelsFrom(net, level, s)
  {
    QueueFits(net, level, s, seen, |seen|);
    forall u, i | 0 <= u < |net| && 0 <= i < |net[u]| && level[u] >= 0 && net[u][i].cap > 0
      && net[u][i].to < |level|
      ensures 0 <= level[net[u][i].to] <= level[u] + 1
    {
      assert u in seen;
      var k :| 0 <= k < |seen| && seen[k] == u;
      assert ScannedTo(net, level, seen[k], |net[seen[k]]|);
    }
    forall u | 0 <= u < |level|
      ensures -1 <= level[u] < |net|
    {
      if u in seen {
        var k :| 0 <= k < |seen| && seen[k] == u;
      }
    }
  }

  method Fill(a: array<int>, x: int)
    modifies a
    ensures forall k :: 0 <= k < a.Length ==> a[k] == x
  {
    for k := 0 to a.Length
      invariant forall j :: 0 <= j < k ==> a[j] == x
    {
      a[k] := x;
    }
  }

  // ----- collecting the residual side of the source

  ghost predicate HeadsWithin(net: Network, v: nat, k: nat, seen: seq<nat>) {
    && v < |net| && k <= |net[v]|
    && forall i :: 0 <= i < k && net[v][i].cap > 0 ==> net[v][i].to in seen
  }

  ghost predicate Spread(net: Network, s: nat, seen: seq<nat>, done: nat) {
    && Located(net) && done <= |seen| && Distinct(seen)
    && (forall k :: 0 <= k < |seen| ==> seen[k] < |net| && Reaches(ResidualGraph(net), s, seen[k]))
    && (forall k :: 0 <= k < done ==> seen[k] < |net| && HeadsWithin(net, seen[k], |net[seen[k]]|, seen))
  }

  lemma SpreadFits(net: Network, s: nat, seen: seq<nat>, done: nat)
    requires Spread(net, s, seen, done)
    ensures |seen| <= |net|
    ensures done < |seen| ==> seen[done] < |net|
  {
    SubsetLength(seen, Nodes(net));
    BelowSize(|net|);
  }

  lemma SpreadStarts(net: Network, s: nat)
    requires WellFormed(net) && s < |net|
    ensures Spread(net, s, [s], 0)
  {
    ReachesSelf(ResidualGraph(net), s);
  }

  lemma SpreadGrows(net: Network, s: nat, seen: seq<nat>, done: nat, k: nat)
    requires Spread(net, s, seen, done) && done < |seen|
    requires seen[done] < |net| && k < |net[seen[done]]|
    requires net[seen[done]][k].cap > 0 && net[seen[done]][k].to !in seen
    ensures Spread(net, s, seen + [net[seen[done]][k].to], done)
  {
    var v, w := seen[done], net[seen[done]][k].to;
    assert Digraphs.Edge(ResidualGraph(net), v, w);
    ReachesStep(ResidualGraph(net), s, v, w);
    forall j | 0 <= j < done
      ensures HeadsWithin(net, (seen + [w])[j], |net[(seen + [w])[j]]|, seen + [w])
    {
      assert HeadsWithin(net, seen[j], |net[seen[j]]|, seen);
    }
  }

  lemma HeadsStart(net: Network, v: nat, seen: seq<nat>)
    requires v < |net|
    ensures HeadsWithin(net, v, 0, seen)
  {
  }

  lemma HeadsGrow(net: Network, v: nat, k: nat, seen: seq<nat>)
    requires HeadsWithin(net, v, k, seen) && k < |net[v]|
    ensures HeadsWithin(net, v, k + 1, seen + [net[v][k].to])
  {
  }

  lemma HeadsSkip(net: Network, v: nat, k: nat, seen: seq<nat>)
    requires HeadsWithin(net, v, k, seen) && k < |net[v]|
    requires net[v][k].cap <= 0 || net[v][k].to in seen
    ensures HeadsWithin(net, v, k + 1, seen)
  {
  }

  lemma SpreadAdvances(net: Network, s: nat, seen: seq<nat>, done: nat)
    requires Spread(net, s, seen, done) && done < |seen|
    requires seen[done] < |net| && HeadsWithin(net, seen[done], |net[seen[done]]|, seen)
    ensures Distinct(seen) && Spread(net, s, seen, done + 1)
  {
  }

  lemma SpreadFinished(net: Network, s: nat, seen: seq<nat>)
    requires Spread(net, s, seen, |seen|) && s in seen
    ensures forall u: nat :: u in seen <==> Reaches(ResidualGraph(net), s, u)
    ensures Distinct(seen) && forall u: nat :: u in seen ==> u < |net|
  {
    var members := set u | u in seen;
    forall x: nat, y: nat | x in members && Digraphs.Edge(ResidualGraph(net), x, y)
      ensures y in members
    {
      var j :| 0 <= j < |seen| && seen[j] == x;
      assert HeadsWithin(net, seen[j], |net[seen[j]]|, seen);
      var i := ResidualEdge(net, x, y);
    }
    forall u: nat | Reaches(ResidualGraph(net), s, u)
      ensures u in seen
    {
      ClosedSetReaches(ResidualGraph(net), members, s, u);
    }
  }

  class Dinic {
    const nodeNames: seq<string>
    const N: nat
    var g: seq<seq<Edge>>
    /** The residual network held by `g`, as a value. */
    ghost var net: Network

    ghost function Edges(): set<Edge>
      reads this
    {
      set u, i | 0 <= u < |g| && 0 <= i < |g[u]| :: g[u][i]
    }

    /** Every edge object knows its own position, so no two positions share one. */
    ghost predicate Placed()
      reads this
    {
      && |g| == |net| == N
      && (forall u :: 0 <= u < N ==> |g[u]| == |net[u]|)
      && (forall u, i :: 0 <= u < N && 0 <= i < |g[u]| ==>
            var e, a := g[u][i], net[u][i];
            e.src == u && e.idx == i && e.to == a.to && e.rev == a.rev && e.text == a.text)
    }

    ghost predicate Priced()
      requires Placed()
      reads this, Edges()
    {
      forall u, i :: 0 <= u < N && 0 <= i < |g[u]| ==> g[u][i].cap == net[u][i].cap
    }

    ghost predicate Valid()
      reads this, Edges()
    {
      Placed() && Priced() && N == |nodeNames| && WellFormed(net)
    }

    constructor (nodeList: seq<string>)
      ensures Valid() && nodeNames == nodeList && net == seq(|nodeList|, _ => []) && Unused(net)
    {
      nodeNames := nodeList;
      N := |nodeList|;
      g := seq(|nodeList|, _ => []);
      net := seq(|nodeList|, _ => []);
    }

    method Append(u: nat, to: nat, rev: nat, cap: int, text: string)
      requires Placed() && Priced() && u < N
      modifies this`g, this`net
      ensures Placed() && Priced() && net == old(net)[u := old(net)[u] + [Arc(to, rev, cap, text)]]
    {
      var e := new Edge(to, rev, cap, text, u, |g[u]|);
      g := g[u := g[u] + [e]];
      net := net[u := net[u] + [Arc(to, rev, cap, text)]];
    }

    /** Append an arc and its partner; unknown names are ignored. */
    method AddEdge(from: string, to: string, cap: nat)
      requires Valid()
      modifies this`g, this`net
      ensures Valid() && (Unused(old(net)) ==> Unused(net))
      ensures
        var u, v := IndexOf(nodeNames, from), IndexOf(nodeNames, to);
        if u < 0 || v < 0 then g == old(g) && net == old(net)
        else
          && ArcAdded(old(net), net, u, v, cap, from + "\U{2192}" + to)
          && CapacityAdded(old(net), net, u, v, cap)
    {
      hide CapacityAdded, ArcAdded, Unused, WellFormed;
      var u := IndexOf(nodeNames, from);
      var v := IndexOf(nodeNames, to);
      if u < 0 || v < 0 {
        return;
      }
      WithArcWellFormed(net, u, v, cap, from + "\U{2192}" + to);
      WithArcAdds(net, u, v, cap, from + "\U{2192}" + to);
      Append(u, v, |g[v]|, cap, from + "\U{2192}" + to);
      Append(v, u, |g[u]| - 1, 0, "");
    }

    /** Breadth-first levels over arcs with capacity left. */
    method Bfs(s: nat, t: nat, level: array<int>) returns (found: bool)
      requires Valid() && s < N && t < N && level.Length == N
      modifies level
      ensures Valid() && LevelsFrom(net, level[..], s)
      ensures found <==> level[t] >= 0
    {
      hide Frontier, ScannedTo, LevelsFrom, WellFormed;
      Fill(level, -1);
      var q: seq<nat> := [s];
      level[s] := 0;
      ghost var seen: seq<nat> := [s];
      FrontierStarts(net, level[..], s);
      ghost var done: nat := 0;
      while |q| > 0
        invariant Priced() && done <= |seen| && q == seen[done..]
        invariant Frontier(net, level[..], s, seen, done)
        decreases N - done
      {
        var v := q[0];
        q := q[1..];
        assert v == seen[done];
        QueueFits(net, level[..], s, seen, done);
        ScannedStarts(net, level[..], v);
        var k := 0;
        while k < |g[v]|
          invariant 0 <= k <= |g[v]| && Priced()
          invariant done < |seen| && v == seen[done] && q == seen[done + 1..]
          invariant Frontier(net, level[..], s, seen, done)
          invariant ScannedTo(net, level[..], v, k)
        {
          var e := g[v][k];
          assert net[v][k].to == e.to && net[v][k].cap == e.cap;
          if e.cap > 0 && level[e.to] < 0 {
            FrontierGrows(net, level[..], s, seen, done, k);
            ghost var was := level[..];
            level[e.to] := level[v] + 1;
            assert level[..] == was[e.to as int := was[v] + 1];
            q := q + [e.to];
            seen := seen + [e.to];
          } else {
            FrontierScans(net, level[..], s, seen, done, k);
          }
          k := k + 1;
        }
        FrontierAdvances(net, level[..], s, seen, done);
        done := done + 1;
      }
      FrontierFinished(net, level[..], s, seen);
      found := level[t] >= 0;
    }

    /** Spend `d` of an arc's capacity and hand it to its partner. */
    method Spend(u: nat, i: nat, d: int)
      requires Valid() && u < N && i < |g[u]| && g[u][i].to != u && Paired(net, u, i)
      requires 0 <= d <= g[u][i].cap
      modifies Edges(), this`net
      ensures Valid() && net == Augment(old(net), u, i, d)
    {
      AugmentResidual(net, u, i, d);
      AugmentShape(net, u, i, d);
      var e := g[u][i];
      e.cap := e.cap - d;
      var b := g[e.to][e.rev];
      b.cap := b.cap + d;
      net := Augment(net, u, i, d);
    }

    /** Spend along an admissible arc what its head has just delivered. */
    method Settle(ghost before: Network, ghost level: Levels, ghost it: seq<int>, v: nat, i: nat, t: nat, d: int)
      requires Valid() && WellFormed(before) && v < N && i < |g[v]| && v < |before| && i < |before[v]|
      requires RisesByOne(before, level) && Admissible(before, level, v, i) && level[v] >= 0
      requires Delivered(before, net, level, before[v][i].to, t, d) && 0 < d <= before[v][i].cap
      requires PassedArcsDead(net, level, it, t)
      modifies Edges(), this`net
      ensures Valid()
      ensures Delivered(before, net, level, v, t, d) && PassedArcsDead(net, level, it, t)
    {
      hide PassedArcsDead, RisesByOne, Delivered, WellFormed, Shrinks, Paired;
      DeliverThroughArc(before, net, level, v, i, t, d);
      ArcFacts(net, v, i);
      DeadStaysDead(net, Augment(net, v, i, d), level, it, t);
      Spend(v, i, d);
    }

    /** Send up to `f` units from `v` to `t` along level-rising arcs, starting at
        the current arc of each node. */
    method Dfs(v: nat, t: nat, f: int, level: array<int>, it: array<int>) returns (r: int)
      requires Valid() && v < N && t < N && f > 0
      requires level.Length == N && it.Length == N && level != it
      requires RisesByOne(net, level[..]) && 0 <= level[v]
      requires forall u :: 0 <= u < N ==> level[u] < N
      requires PassedArcsDead(net, level[..], it[..], t)
      modifies it, Edges(), this`net
      ensures Valid() && 0 <= r <= f
      ensures r > 0 <==> Reaches(AdmissibleGraph(old(net), level[..]), v, t)
      ensures r == 0 ==> net == old(net)
      ensures v == t ==> r == f && net == old(net) && it[..] == old(it[..])
      ensures Delivered(old(net), net, level[..], v, t, r)
      ensures PassedArcsDead(net, level[..], it[..], t)
      ensures ArcsAdvanced(old(it[..]), it[..], level[..], v)
      decreases N - level[v]
    {
      hide PassedArcsDead, Dead, RisesByOne, Delivered, WellFormed, AdmissibleGraph, Shrinks, Paired, ArcsAdvanced;
      ghost var before, lv := net, level[..];
      if v == t {
        ArcsStay(it[..], lv, v);
        NothingDelivered(before, lv, v, t, f);
        ReachesSelf(AdmissibleGraph(before, lv), t);
        return f;
      }
      ArcsStay(it[..], lv, v);
      CurrentArc(before, lv, it[..], t, v);
      var i := it[v];
      while i < |g[v]|
        invariant it[v] <= i <= |g[v]|
        invariant Valid() && net == before
        invariant PassedArcsDead(before, lv, it[..], t)
        invariant forall k :: 0 <= k < i ==> Dead(before, lv, t, v, k)
        invariant ArcsAdvanced(old(it[..]), it[..], lv, v)
      {
        AdvanceArc(before, lv, it[..], t, v, i);
        ArcMoves(old(it[..]), it[..], lv, v, i);
        ghost var was := it[..];
        it[v] := i;
        ghost var mid := it[..];
        assert mid == was[v as int := i];
        var e := g[v][i];
        ArcFacts(before, v, i);
        if e.cap > 0 && level[v] < level[e.to] {
          var d := Dfs(e.to, t, if f < e.cap then f else e.cap, level, it);
          ArcsAdvancedAbove(old(it[..]), mid, it[..], lv, v, e.to);
          if d > 0 {
            AdmissibleHead(before, lv, v, i);
            StepReaches(AdmissibleGraph(before, lv), v, e.to, t);
            Settle(before, lv, it[..], v, i, t, d);
            return d;
          }
        }
        DeadArc(before, lv, t, v, i);
        i := i + 1;
      }
      AllArcsDead(before, lv, t, v);
      NothingDelivered(before, lv, v, t, 0);
      r := 0;
    }

    /** One phase: deliver from `s` until no admissible walk to `t` is left. */
    method Phase(s: nat, t: nat, level: array<int>) returns (sent: int)
      requires Valid() && s < N && t < N && s != t
      requires level.Length == N && LevelsFrom(net, level[..], s) && level[t] >= 0
      modifies Edges(), this`net
      ensures Valid() && sent > 0
      ensures ResidualOf(old(net), net) && Transfers(old(net), net, s, t, sent)
      ensures RisesByOne(net, level[..])
      ensures !Reaches(AdmissibleGraph(net, level[..]), s, t)
    {
      hide PassedArcsDead, WellFormed, RisesByOne, AdmissibleGraph, ResidualOf, Transfers, ArcsAdvanced,
        LevelsFrom, Delivered, Out;
      ghost var start, lv := net, level[..];
      var it := new int[N](_ => 0);
      NothingPassed(net, lv, it[..], t);
      NothingSent(net, s, t);
      LevelReaches(net, lv, s, t);
      sent := 0;
      var more := true;
      while more
        invariant Valid() && level[..] == lv && sent >= 0
        invariant ResidualOf(start, net) && Transfers(start, net, s, t, sent)
        invariant RisesByOne(net, lv) && PassedArcsDead(net, lv, it[..], t)
        invariant sent == 0 && more ==> net == start
        invariant !more ==> sent > 0 && !Reaches(AdmissibleGraph(net, lv), s, t)
        decreases more, Out(net, Capacity(net), s)
      {
        ghost var mid := net;
        OutNonNegative(mid, s);
        var f := Dfs(s, t, INF, level, it);
        DeliveredParts(mid, net, lv, s, t, f);
        if f == 0 {
          more := false;
        } else {
          ResidualTrans(start, mid, net);
          TransfersTrans(start, mid, net, s, t, sent, f);
          sent := sent + f;
        }
      }
    }

    /** The nodes reached from `s` in the residual network, in discovery order. */
    method ResidualSide(s: nat) returns (reachable: seq<nat>)
      requires Valid() && s < N
      ensures Distinct(reachable) && s in reachable
      ensures forall u: nat :: u in reachable <==> Reaches(ResidualGraph(net), s, u)
      ensures forall u: nat :: u in reachable ==> u < N
    {
      hide Reaches, WellFormed, Spread, HeadsWithin;
      reachable := [s];
      var q: seq<nat> := [s];
      ghost var done: nat := 0;
      SpreadStarts(net, s);
      while |q| > 0
        invariant done <= |reachable| && q == reachable[done..] && s in reachable
        invariant Spread(net, s, reachable, done)
        decreases N - done
      {
        var v := q[0];
        q := q[1..];
        assert v == reachable[done];
        SpreadFits(net, s, reachable, done);
        HeadsStart(net, v, reachable);
        var k := 0;
        while k < |g[v]|
          invariant 0 <= k <= |g[v]| && v < N && s in reachable
          invariant done < |reachable| && v == reachable[done] && q == reachable[done + 1..]
          invariant Spread(net, s, reachable, done)
          invariant HeadsWithin(net, v, k, reachable)
        {
          var e := g[v][k];
          ArcFacts(net, v, k);
          assert net[v][k].to == e.to && net[v][k].cap == e.cap;
          if e.cap > 0 && e.to !in reachable {
            SpreadGrows(net, s, reachable, done, k);
            HeadsGrow(net, v, k, reachable);
            reachable := reachable + [e.to];
            q := q + [e.to];
          } else {
            HeadsSkip(net, v, k, reachable);
          }
          k := k + 1;
        }
        SpreadAdvances(net, s, reachable, done);
        done := done + 1;
      }
      SpreadFinished(net, s, reachable);
    }

    /** `cut` lists, once each, the labelled edges with source satisfying the
        bounds so far and head outside `side`. */
    ghost predicate CutSoFar(cut: seq<Edge>, side: set<nat>, visited: set<nat>, v: nat, i: nat)
      reads this
    {
      && Distinct(cut)
      && (forall e :: e in cut ==>
            e in Edges() && e.to !in side && e.text != "" && (e.src in visited || (e.src == v && e.idx < i)))
      && (forall e :: e in Edges() ==>
            e.to !in side && e.text != "" && (e.src in visited || (e.src == v && e.idx < i)) ==> e in cut)
    }

    ghost predicate CutComplete(cut: seq<Edge>, side: set<nat>)
      reads this
    {
      && Distinct(cut)
      && (forall e :: e in cut ==> e in Edges() && e.src in side && e.to !in side && e.text != "")
      && (forall e :: e in Edges() ==> e.src in side && e.to !in side && e.text != "" ==> e in cut)
    }

    lemma CutTakes(cut: seq<Edge>, side: set<nat>, visited: set<nat>, v: nat, i: nat)
      requires Placed() && v < N && v !in visited && i < |g[v]|
      requires CutSoFar(cut, side, visited, v, i)
      ensures
        var e := g[v][i];
        CutSoFar(if e.to !in side && e.text != "" then cut + [e] else cut, side, visited, v, i + 1)
    {
    }

    lemma CutRowDone(cut: seq<Edge>, side: set<nat>, visited: set<nat>, v: nat)
      requires Valid() && v < N && CutSoFar(cut, side, visited, v, |g[v]|)
      ensures forall w: nat :: CutSoFar(cut, side, visited + {v}, w, 0)
    {
    }

    /** Append the labelled edges of `v` that leave the reachable side. */
    method CutRow(cut: seq<Edge>, v: nat, reachable: seq<nat>,
                  ghost side: set<nat>, ghost visited: set<nat>, ghost start: Network)
      returns (minCut: seq<Edge>)
      requires Valid() && v < N && v !in visited && SameArcs(start, net)
      requires forall u: nat :: u in reachable <==> u in side
      requires CutSoFar(cut, side, visited, v, 0)
      ensures CutSoFar(minCut, side, visited, v, |g[v]|)
      ensures Unused(start) ==>
        CapacitySum(start, minCut)
          == CapacitySum(start, cut) + Sum(Degree(start, v), Leaving(start, Capacity(start), side, v))
    {
      hide WellFormed, CutSoFar;
      minCut := cut;
      var i := 0;
      while i < |g[v]|
        invariant 0 <= i <= |g[v]|
        invariant CutSoFar(minCut, side, visited, v, i)
        invariant Unused(start) ==>
          CapacitySum(start, minCut) == CapacitySum(start, cut) + Sum(i, Leaving(start, Capacity(start), side, v))
      {
        var e := g[v][i];
        CutTakes(minCut, side, visited, v, i);
        assert start[v][i].to == e.to && start[v][i].text == e.text;
        if e.to !in reachable && e.text != "" {
          assert (minCut + [e])[..|minCut|] == minCut;
          minCut := minCut + [e];
        }
        i := i + 1;
      }
    }

    /** The labelled edges that leave the reachable side. */
    method CutEdges(reachable: seq<nat>, ghost side: set<nat>, ghost start: Network) returns (minCut: seq<Edge>)
      requires Valid() && Distinct(reachable)
      requires forall u: nat :: u in reachable <==> u in side
      requires forall u: nat :: u in reachable ==> u < N
      requires SameArcs(start, net)
      ensures CutComplete(minCut, side)
      ensures Unused(start) ==> CapacitySum(start, minCut) == CutCapacity(start, side)
    {
      hide WellFormed, CutSoFar, Unused;
      minCut := [];
      VisitNone(start, side);
      ghost var visited: set<nat> := {};
      NoCutYet(side);
      var n := 0;
      while n < |reachable|
        invariant 0 <= n <= |reachable| && |start| == N
        invariant forall u: nat :: u in visited <==> u in reachable[..n]
        invariant forall v: nat :: CutSoFar(minCut, side, visited, v, 0)
        invariant Unused(start) ==> CapacitySum(start, minCut) == Sum(|start|, LeavingVisited(start, side, visited))
      {
        var v := reachable[n];
        assert v in reachable;
        assert v !in visited;
        minCut := CutRow(minCut, v, reachable, side, visited, start);
        VisitOne(start, side, visited, v);
        CutRowDone(minCut, side, visited, v);
        visited := visited + {v};
        n := n + 1;
      }
      assert reachable[..n] == reachable;
      assert visited == side;
      CutAll(minCut, side);
      VisitAll(start, side);
    }

    lemma NoCutYet(side: set<nat>)
      ensures forall v: nat :: CutSoFar([], side, {}, v, 0)
    {
    }

    lemma CutAll(cut: seq<Edge>, side: set<nat>)
      requires forall v: nat :: CutSoFar(cut, side, side, v, 0)
      ensures CutComplete(cut, side)
    {
      assert CutSoFar(cut, side, side, 0, 0);
    }

    lemma CutSpent(cut: seq<Edge>, side: set<nat>)
      requires Valid() && CutComplete(cut, side) && Saturated(net, side)
      ensures forall e :: e in cut ==> e.cap == 0
    {
    }

    /** All phases: deliver until no residual walk from `s` to `t` is left. */
    method RunPhases(s: nat, t: nat) returns (flow: int, ghost phases: nat)
      requires Valid() && s < N && t < N && s != t
      modifies Edges(), this`net
      ensures Valid()
      ensures ResidualOf(old(net), net) && Transfers(old(net), net, s, t, flow)
      ensures !Reaches(ResidualGraph(net), s, t)
      ensures phases <= N - 1
    {
      hide WellFormed, RisesByOne, AdmissibleGraph, ResidualGraph, ResidualOf, Transfers, LevelsFrom;
      ghost var start := net;
      flow, phases := 0, 0;
      NothingSent(net, s, t);
      var level := new int[N];
      var found := Bfs(s, t, level);
      LevelsInRange(net, level[..], s, t);
      while found
        invariant Valid()
        invariant ResidualOf(start, net) && Transfers(start, net, s, t, flow)
        invariant LevelsFrom(net, level[..], s) && (found <==> level[t] >= 0)
        invariant level[t] < N && level[t] != 0
        invariant if found then phases < level[t] else phases <= N - 1
        decreases if found then N - level[t] else 0
      {
        ghost var mid, lv := net, level[..];
        var f := Phase(s, t, level);
        ResidualTrans(start, mid, net);
        TransfersTrans(start, mid, net, s, t, flow, f);
        flow := flow + f;
        found := Bfs(s, t, level);
        LevelsInRange(net, level[..], s, t);
        if found {
          NextPhase(mid, net, lv, level[..], s, t);
        }
        phases := phases + 1;
      }
      LevelReaches(net, level[..], s, t);
    }

    /** The maximum flow from `s` to `t` and a minimum cut; `side` are the nodes on
        the source side and `phases` counts the breadth-first phases. */
    method MaxFlow(s: string, t: string) returns (flow: int, minCut: seq<Edge>, ghost side: set<nat>, ghost phases: nat)
      requires Valid() && (s != t || s !in nodeNames)
      modifies Edges(), this`net
      ensures Valid()
      ensures s !in nodeNames || t !in nodeNames ==> flow == 0 && minCut == [] && net == old(net)
      ensures s in nodeNames && t in nodeNames ==>
        var si, ti := IndexOf(nodeNames, s), IndexOf(nodeNames, t);
        && MaximumValue(old(net), si, ti, flow)
        && flow as real == CutCapacity(old(net), side) && si in side && ti !in side
        && ResidualOf(old(net), net) && Transfers(old(net), net, si, ti, flow)
        && phases <= N - 1
      ensures s in nodeNames && t in nodeNames ==>
        && CutComplete(minCut, side)
        && (forall e :: e in minCut ==> e.cap == 0)
        && (Unused(old(net)) ==> flow as real == CapacitySum(old(net), minCut))
    {
      hide WellFormed, ResidualOf, Transfers, MaximumValue, ResidualGraph, Saturated, Reaches, SameArcs,
        CutComplete, Unused;
      flow, minCut, side, phases := 0, [], {}, 0;
      var si := IndexOf(nodeNames, s);
      var ti := IndexOf(nodeNames, t);
      if si < 0 || ti < 0 {
        return;
      }
      ghost var start := net;
      flow, phases := RunPhases(si, ti);
      var reachable := ResidualSide(si);
      side := set u | u in reachable;
      ReachableSaturated(net, si, side);
      ResidualParts(start, net);
      MaxFlowCertificate(start, net, si, ti, flow, side);
      minCut := CutEdges(reachable, side, start);
      CutSpent(minCut, side);
    }
  }
}
