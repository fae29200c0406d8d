/** Flow networks as adjacency lists of arcs: feasible flows, cuts, weak duality,
    and the certificate that a residual network carries when no residual walk
    leaves the source side. */
module FlowNetwork {
  import opened Sums

  datatype Arc = Arc(to: nat, rev: nat, cap: int, text: string)

  type Network = seq<seq<Arc>>

  /** A number for every arc, named by its node and its position there; flows need
      not be integral. */
  type ArcMap = (nat, nat) -> real

  ghost predicate Located(net: Network) {
    forall u, i :: 0 <= u < |net| && 0 <= i < |net[u]| ==> net[u][i].to < |net|
  }

  /** An arc that is not a loop has a partner in the opposite direction. */
  ghost predicate Paired(net: Network, u: nat, i: nat)
    requires u < |net| && i < |net[u]|
  {
    var a := net[u][i];
    a.to != u ==>
      a.to < |net| && a.rev < |net[a.to]| && net[a.to][a.rev].to == u && net[a.to][a.rev].rev == i
  }

  ghost predicate WellFormed(net: Network) {
    && Located(net)
    && (forall u, i :: 0 <= u < |net| && 0 <= i < |net[u]| ==> net[u][i].cap >= 0)
    && (forall u, i :: 0 <= u < |net| && 0 <= i < |net[u]| ==> Paired(net, u, i))
  }

  /** Same arcs, possibly other capacities. */
  ghost predicate SameArcs(net: Network, net': Network) {
    && |net| == |net'|
    && (forall u :: 0 <= u < |net| ==> |net[u]| == |net'[u]|)
    && (forall u, i {:trigger net'[u][i]} :: 0 <= u < |net| && 0 <= i < |net[u]| ==>
          net'[u][i] == net[u][i].(cap := net'[u][i].cap))
  }

  // ----- sums over arcs

  function CapacityAt(net: Network, u: nat, i: nat): real {
    if u < |net| && i < |net[u]| then net[u][i].cap as real else 0.0
  }

  function Capacity(net: Network): ArcMap {
    (u: nat, i: nat) => CapacityAt(net, u, i)
  }

  /** `phi` kept on the arcs from `u` to `w`. */
  function Toward(net: Network, phi: ArcMap, u: nat, w: nat): nat -> real {
    (i: nat) => if u < |net| && i < |net[u]| && net[u][i].to == w then phi(u, i) else 0.0
  }

  function Degree(net: Network, u: nat): nat {
    if u < |net| then |net[u]| else 0
  }

  /** Total of `phi` over the arcs from `u` to `w`. */
  function Between(net: Network, phi: ArcMap, u: nat, w: nat): real {
    Sum(Degree(net, u), Toward(net, phi, u, w))
  }

  function Out(net: Network, phi: ArcMap, u: nat): real {
    RowSum(phi, u, Degree(net, u))
  }

  function InParts(net: Network, phi: ArcMap, u: nat): nat -> real {
    (w: nat) => Between(net, phi, w, u)
  }

  function In(net: Network, phi: ArcMap, u: nat): real {
    Sum(|net|, InParts(net, phi, u))
  }

  function NetOut(net: Network, phi: ArcMap, u: nat): real {
    Out(net, phi, u) - In(net, phi, u)
  }

  /** An s-t flow: within capacity on every arc, conserved at inner nodes. */
  ghost predicate Feasible(net: Network, phi: ArcMap, s: nat, t: nat) {
    && (forall u: nat, i: nat :: u < |net| && i < |net[u]| ==> 0.0 <= phi(u, i) <= net[u][i].cap as real)
    && (forall u: nat :: u < |net| && u != s && u != t ==> NetOut(net, phi, u) == 0.0)
  }

  /** `phi` kept on the arcs of `u` that leave the node set. */
  function Leaving(net: Network, phi: ArcMap, side: set<nat>, u: nat): nat -> real {
    (i: nat) => if u < |net| && i < |net[u]| && net[u][i].to !in side then phi(u, i) else 0.0
  }

  function LeavingFrom(net: Network, phi: ArcMap, side: set<nat>): nat -> real {
    (u: nat) => if u in side then Sum(Degree(net, u), Leaving(net, phi, side, u)) else 0.0
  }

  /** Total capacity of the arcs that leave the node set. */
  function CutCapacity(net: Network, side: set<nat>): real {
    Sum(|net|, LeavingFrom(net, Capacity(net), side))
  }

  // ----- the value of a flow is what crosses any cut

  /** Grid of arc i of node u against head w. */
  function HeadGrid(net: Network, phi: ArcMap, u: nat): Grid {
    (i: nat, w: nat) => if u < |net| && i < |net[u]| && net[u][i].to == w then phi(u, i) else 0.0
  }

  function BetweenRow(net: Network, phi: ArcMap, u: nat): nat -> real {
    (w: nat) => Between(net, phi, u, w)
  }

  lemma OutIsSumOfBetween(net: Network, phi: ArcMap, u: nat)
    requires Located(net) && u < |net|
    ensures Out(net, phi, u) == Sum(|net|, BetweenRow(net, phi, u))
  {
    var a := HeadGrid(net, phi, u);
    var d := Degree(net, u);
    forall i: nat | i < d
      ensures RowSums(a, |net|)(i) == phi(u, i)
    {
      SumSingle(|net|, net[u][i].to, AtRow(a, i));
    }
    SumCongruence(d, RowSums(a, |net|), AtRow(phi, u));
    TotalTranspose(a, d, |net|);
    forall w: nat | w < |net|
      ensures RowSums(Transpose(a), d)(w) == BetweenRow(net, phi, u)(w)
    {
      SumCongruence(d, AtRow(Transpose(a), w), Toward(net, phi, u, w));
    }
    SumCongruence(|net|, RowSums(Transpose(a), d), BetweenRow(net, phi, u));
  }

  /** Exchange between two nodes, kept when both lie in the given sides. */
  function Exchange(net: Network, phi: ArcMap, from: set<nat>, to: set<nat>): Grid {
    (u: nat, w: nat) =>
      if u in from && w in to then Between(net, phi, u, w) - Between(net, phi, w, u) else 0.0
  }

  function Below(n: nat): (s: set<nat>)
    ensures forall u: nat :: u in s <==> u < n
  {
    if n == 0 then {} else Below(n - 1) + {n - 1}
  }

  function Nodes(net: Network): set<nat> {
    Below(|net|)
  }

  lemma NetOutIsExchange(net: Network, phi: ArcMap, side: set<nat>, u: nat)
    requires Located(net) && u < |net|
    ensures RowSum(Exchange(net, phi, side, Nodes(net)), u, |net|) == if u in side then NetOut(net, phi, u) else 0.0
  {
    var row := AtRow(Exchange(net, phi, side, Nodes(net)), u);
    if u in side {
      OutIsSumOfBetween(net, phi, u);
      forall w: nat | w < |net|
        ensures BetweenRow(net, phi, u)(w) == InParts(net, phi, u)(w) + row(w)
      {
      }
      SumAdd(|net|, InParts(net, phi, u), row, BetweenRow(net, phi, u));
    } else {
      SumZero(|net|, row);
    }
  }

  /** For a conserved `phi`, the net outflow of `s` crosses every cut that has
      `s` inside and `t` outside. */
  lemma CutCarriesValue(net: Network, phi: ArcMap, s: nat, t: nat, side: set<nat>)
    requires Located(net) && s < |net| && s in side && t !in side
    requires forall u: nat :: u < |net| && u != s && u != t ==> NetOut(net, phi, u) == 0.0
    ensures NetOut(net, phi, s) == Total(Exchange(net, phi, side, Nodes(net) - side), |net|, |net|)
  {
    var n := |net|;
    var whole := Exchange(net, phi, side, Nodes(net));
    var inside := Exchange(net, phi, side, side);
    var across := Exchange(net, phi, side, Nodes(net) - side);
    forall u: nat | u < n
      ensures RowSums(whole, n)(u) == if u in side then NetOut(net, phi, u) else 0.0
    {
      NetOutIsExchange(net, phi, side, u);
    }
    SumSingle(n, s, RowSums(whole, n));
    TotalAdd(inside, across, whole, n, n);
    TotalSkew(inside, n);
  }

  function Masked(row: nat -> real, keep: set<nat>): nat -> real {
    (w: nat) => if w in keep then row(w) else 0.0
  }

  lemma LeavingIsBetween(net: Network, phi: ArcMap, side: set<nat>, u: nat)
    requires Located(net) && u < |net|
    ensures Sum(Degree(net, u), Leaving(net, phi, side, u))
         == Sum(|net|, Masked(BetweenRow(net, phi, u), Nodes(net) - side))
  {
    var kept: ArcMap := (v: nat, i: nat) => Leaving(net, phi, side, v)(i);
    OutIsSumOfBetween(net, kept, u);
    SumCongruence(Degree(net, u), AtRow(kept, u), Leaving(net, phi, side, u));
    forall w: nat | w < |net|
      ensures BetweenRow(net, kept, u)(w) == Masked(BetweenRow(net, phi, u), Nodes(net) - side)(w)
    {
      if w in side {
        SumZero(Degree(net, u), Toward(net, kept, u, w));
      } else {
        SumCongruence(Degree(net, u), Toward(net, kept, u, w), Toward(net, phi, u, w));
      }
    }
    SumCongruence(|net|, BetweenRow(net, kept, u), Masked(BetweenRow(net, phi, u), Nodes(net) - side));
  }

  function CrossGrid(net: Network, phi: ArcMap, side: set<nat>): Grid {
    (u: nat, w: nat) => if u in side && w in Nodes(net) - side then Between(net, phi, u, w) else 0.0
  }

  lemma CutCapacityAsGrid(net: Network, side: set<nat>)
    requires Located(net)
    ensures CutCapacity(net, side) == Total(CrossGrid(net, Capacity(net), side), |net|, |net|)
  {
    var c := Capacity(net);
    var grid := CrossGrid(net, c, side);
    forall u: nat | u < |net|
      ensures LeavingFrom(net, c, side)(u) == RowSums(grid, |net|)(u)
    {
      if u in side {
        LeavingIsBetween(net, c, side, u);
        SumCongruence(|net|, Masked(BetweenRow(net, c, u), Nodes(net) - side), AtRow(grid, u));
      } else {
        SumZero(|net|, AtRow(grid, u));
      }
    }
    SumCongruence(|net|, LeavingFrom(net, c, side), RowSums(grid, |net|));
  }

  lemma NonNegativeSum(n: nat, f: nat -> real)
    requires forall i: nat :: i < n ==> f(i) >= 0.0
    ensures Sum(n, f) >= 0.0
  {
    var zero := (i: nat) => 0.0;
    SumZero(n, zero);
    SumMonotone(n, zero, f);
  }

  /** Between two nodes, a feasible flow exchanges no more than the capacity. */
  lemma ExchangeWithinCapacity(net: Network, phi: ArcMap, s: nat, t: nat, u: nat, w: nat)
    requires Feasible(net, phi, s, t) && u < |net| && w < |net|
    ensures Between(net, phi, u, w) - Between(net, phi, w, u) <= Between(net, Capacity(net), u, w)
  {
    SumMonotone(Degree(net, u), Toward(net, phi, u, w), Toward(net, Capacity(net), u, w));
    NonNegativeSum(Degree(net, w), Toward(net, phi, w, u));
  }

  /** Weak duality: no feasible flow exceeds the capacity of any s-t cut. */
  lemma WeakDuality(net: Network, phi: ArcMap, s: nat, t: nat, side: set<nat>)
    requires Located(net) && Feasible(net, phi, s, t)
    requires s < |net| && s in side && t !in side
    ensures NetOut(net, phi, s) <= CutCapacity(net, side)
  {
    CutCarriesValue(net, phi, s, t, side);
    CutCapacityAsGrid(net, side);
    hide Between, Feasible, Located, CutCapacity, NetOut;
    var n := |net|;
    var across := Exchange(net, phi, side, Nodes(net) - side);
    var grid := CrossGrid(net, Capacity(net), side);
    forall u: nat, w: nat | u < n && w < n
      ensures across(u, w) <= grid(u, w)
    {
      ExchangeWithinCapacity(net, phi, s, t, u, w);
    }
    TotalMonotone(across, grid, n, n);
  }

  // ----- the flow that a residual network stands for

  /** What each arc has lost with respect to the original capacities. */
  function UsedAt(net: Network, net': Network, u: nat, i: nat): real {
    CapacityAt(net, u, i) - CapacityAt(net', u, i)
  }

  function Used(net: Network, net': Network): ArcMap {
    (u: nat, i: nat) => UsedAt(net, net', u, i)
  }

  /** The flow pushed along each arc: what it has lost, if it has lost any. */
  function Pushed(net: Network, net': Network): ArcMap {
    (u: nat, i: nat) => if UsedAt(net, net', u, i) > 0.0 then UsedAt(net, net', u, i) else 0.0
  }

  /** The two arcs of a pair keep their joint capacity; loops keep their own. */
  ghost predicate PairKept(net: Network, net': Network, u: nat, i: nat)
    requires WellFormed(net) && SameArcs(net, net') && u < |net| && i < |net[u]|
  {
    var a := net[u][i];
    assert Paired(net, u, i);
    if a.to == u then net'[u][i].cap == a.cap
    else net'[u][i].cap + net'[a.to][a.rev].cap == a.cap + net[a.to][a.rev].cap
  }

  /** `net'` is a residual network of `net`. */
  ghost predicate ResidualOf(net: Network, net': Network) {
    && WellFormed(net) && WellFormed(net') && SameArcs(net, net')
    && forall u, i {:trigger net[u][i]} :: 0 <= u < |net| && 0 <= i < |net[u]| ==> PairKept(net, net', u, i)
  }

  /** `phi` on the arcs from `u` to `w`, read at the partner of arc j of `w`. */
  function PartnerGrid(net: Network, phi: ArcMap, u: nat, w: nat): Grid {
    (i: nat, j: nat) =>
      if u < |net| && i < |net[u]| && net[u][i].to == w && net[u][i].rev == j then phi(u, i) else 0.0
  }

  /** Summing over the arcs from u to w, or over their partners from w to u. */
  lemma PartnerSum(net: Network, phi: ArcMap, psi: ArcMap, u: nat, w: nat)
    requires WellFormed(net) && u < |net| && w < |net| && u != w
    requires forall i: nat :: i < |net[u]| && net[u][i].to == w && net[u][i].rev < |net[w]|
               ==> phi(u, i) == psi(w, net[u][i].rev)
    ensures Between(net, phi, u, w) == Between(net, psi, w, u)
  {
    var a := PartnerGrid(net, phi, u, w);
    var du, dw := |net[u]|, |net[w]|;
    forall i: nat | i < du
      ensures RowSums(a, dw)(i) == Toward(net, phi, u, w)(i)
    {
      assert Paired(net, u, i);
      if net[u][i].to == w {
        SumSingle(dw, net[u][i].rev, AtRow(a, i));
      } else {
        SumZero(dw, AtRow(a, i));
      }
    }
    SumCongruence(du, RowSums(a, dw), Toward(net, phi, u, w));
    TotalTranspose(a, du, dw);
    forall j: nat | j < dw
      ensures RowSums(Transpose(a), du)(j) == Toward(net, psi, w, u)(j)
    {
      assert Paired(net, w, j);
      var row := AtRow(Transpose(a), j);
      if net[w][j].to == u {
        var k := net[w][j].rev;
        forall i: nat | i < du && i != k
          ensures row(i) == 0.0
        {
          assert Paired(net, u, i);
        }
        SumSingle(du, k, row);
      } else {
        forall i: nat | i < du
          ensures row(i) == 0.0
        {
          assert Paired(net, u, i);
        }
        SumZero(du, row);
      }
    }
    SumCongruence(dw, RowSums(Transpose(a), du), Toward(net, psi, w, u));
  }

  /** What flows along the partner is what the arc has gained. */
  function Returned(net: Network, net': Network): ArcMap {
    (u: nat, i: nat) => if UsedAt(net, net', u, i) < 0.0 then -UsedAt(net, net', u, i) else 0.0
  }

  lemma PushedExchange(net: Network, net': Network, u: nat, w: nat)
    requires ResidualOf(net, net') && u < |net| && w < |net|
    ensures Between(net, Pushed(net, net'), u, w) - Between(net, Pushed(net, net'), w, u)
         == Between(net, Used(net, net'), u, w)
  {
    var used, pushed, back := Used(net, net'), Pushed(net, net'), Returned(net, net');
    var d := Degree(net, u);
    if u == w {
      forall i: nat | i < d
        ensures Toward(net, used, u, u)(i) == 0.0
      {
        assert PairKept(net, net', u, i);
      }
      SumZero(d, Toward(net, used, u, u));
    } else {
      forall i: nat | i < |net[u]| && net[u][i].to == w && net[u][i].rev < |net[w]|
        ensures back(u, i) == pushed(w, net[u][i].rev)
      {
        assert PairKept(net, net', u, i);
      }
      PartnerSum(net, back, pushed, u, w);
      SumAdd(d, Toward(net, used, u, w), Toward(net, back, u, w), Toward(net, pushed, u, w));
    }
  }

  /** The net outflow of the pushed flow is the capacity its node has lost. */
  lemma PushedNetOut(net: Network, net': Network, u: nat)
    requires ResidualOf(net, net') && u < |net|
    ensures NetOut(net, Pushed(net, net'), u) == Out(net, Capacity(net), u) - Out(net', Capacity(net'), u)
  {
    var used, pushed := Used(net, net'), Pushed(net, net');
    OutIsSumOfBetween(net, pushed, u);
    OutIsSumOfBetween(net, used, u);
    forall w: nat | w < |net|
      ensures BetweenRow(net, pushed, u)(w) == InParts(net, pushed, u)(w) + BetweenRow(net, used, u)(w)
    {
      PushedExchange(net, net', u, w);
    }
    SumAdd(|net|, InParts(net, pushed, u), BetweenRow(net, used, u), BetweenRow(net, pushed, u));
    SumAdd(Degree(net, u), AtRow(used, u), AtRow(Capacity(net'), u), AtRow(Capacity(net), u));
  }

  /** Capacity lost per node: `value` at the source, gained at the sink. */
  ghost predicate Transfers(net: Network, net': Network, s: nat, t: nat, value: int) {
    && |net| == |net'|
    && forall u: nat :: u < |net| ==>
         Out(net', Capacity(net'), u)
           == Out(net, Capacity(net), u)
              - (if u == s then value as real else 0.0) + (if u == t then value as real else 0.0)
  }

  lemma TransfersTrans(a: Network, b: Network, c: Network, s: nat, t: nat, x: int, y: int)
    requires Transfers(a, b, s, t, x) && Transfers(b, c, s, t, y)
    ensures Transfers(a, c, s, t, x + y)
  {
  }

  lemma OutNonNegative(net: Network, u: nat)
    requires WellFormed(net) && u < |net|
    ensures Out(net, Capacity(net), u) >= 0.0
  {
    NonNegativeSum(|net[u]|, AtRow(Capacity(net), u));
  }

  /** Every residual network encodes a feasible flow of the transferred value. */
  lemma PushedFeasible(net: Network, net': Network, s: nat, t: nat, value: int)
    requires ResidualOf(net, net') && Transfers(net, net', s, t, value)
    requires s < |net| && t < |net| && s != t
    ensures NetOut(net, Pushed(net, net'), s) == value as real
    ensures Feasible(net, Pushed(net, net'), s, t)
  {
    var pushed := Pushed(net, net');
    forall u: nat | u < |net|
      ensures NetOut(net, pushed, u)
           == (if u == s then value as real else 0.0) - (if u == t then value as real else 0.0)
    {
      PushedNetOut(net, net', u);
    }
    forall u: nat, i: nat | u < |net| && i < |net[u]|
      ensures 0.0 <= pushed(u, i) <= net[u][i].cap as real
    {
      assert net[u][i].cap >= 0 && net'[u][i].cap >= 0;
    }
  }

  /** No residual capacity leaves the node set. */
  ghost predicate Saturated(net: Network, side: set<nat>) {
    forall u, i :: 0 <= u < |net| && 0 <= i < |net[u]| && u in side && net[u][i].cap > 0 ==> net[u][i].to in side
  }

  /** Across a saturated cut the net exchange is the full capacity. */
  lemma SaturatedExchange(net: Network, net': Network, side: set<nat>, u: nat, w: nat)
    requires ResidualOf(net, net') && Saturated(net', side)
    requires u < |net| && w < |net| && u in side && w !in side
    ensures Between(net, Pushed(net, net'), u, w) - Between(net, Pushed(net, net'), w, u)
         == Between(net, Capacity(net), u, w)
  {
    PushedExchange(net, net', u, w);
    forall i: nat | i < |net[u]|
      ensures Toward(net, Used(net, net'), u, w)(i) == Toward(net, Capacity(net), u, w)(i)
    {
      assert net'[u][i] == net[u][i].(cap := net'[u][i].cap);
    }
    SumCongruence(Degree(net, u), Toward(net, Used(net, net'), u, w), Toward(net, Capacity(net), u, w));
  }

  /** When no residual capacity leaves the source side, the transferred value
      is the capacity of that cut. */
  lemma SaturatedCutValue(net: Network, net': Network, s: nat, t: nat, value: int, side: set<nat>)
    requires ResidualOf(net, net') && Transfers(net, net', s, t, value)
    requires s < |net| && t < |net| && s in side && t !in side && Saturated(net', side)
    ensures value as real == CutCapacity(net, side)
  {
    var pushed := Pushed(net, net');
    PushedFeasible(net, net', s, t, value);
    CutCarriesValue(net, pushed, s, t, side);
    CutCapacityAsGrid(net, side);
    var n := |net|;
    var across := Exchange(net, pushed, side, Nodes(net) - side);
    var grid := CrossGrid(net, Capacity(net), side);
    forall u: nat, w: nat | u < n && w < n
      ensures across(u, w) == grid(u, w)
    {
      if u in side && w !in side {
        SaturatedExchange(net, net', side, u, w);
      }
    }
    TotalMonotone(across, grid, n, n);
    TotalMonotone(grid, across, n, n);
  }

  /** `value` is the value of some feasible flow and of no larger one. */
  ghost predicate MaximumValue(net: Network, s: nat, t: nat, value: int) {
    && (exists phi: ArcMap :: Feasible(net, phi, s, t) && NetOut(net, phi, s) == value as real)
    && (forall phi: ArcMap :: Feasible(net, phi, s, t) ==> NetOut(net, phi, s) <= value as real)
  }

  /** A residual network with a saturated cut certifies the maximum flow. */
  lemma MaxFlowCertificate(net: Network, net': Network, s: nat, t: nat, value: int, side: set<nat>)
    requires ResidualOf(net, net') && Transfers(net, net', s, t, value)
    requires s < |net| && t < |net| && s in side && t !in side && Saturated(net', side)
    ensures value as real == CutCapacity(net, side)
    ensures MaximumValue(net, s, t, value)
  {
    SaturatedCutValue(net, net', s, t, value, side);
    PushedFeasible(net, net', s, t, value);
    forall phi: ArcMap | Feasible(net, phi, s, t)
      ensures NetOut(net, phi, s) <= value as real
    {
      WeakDuality(net, phi, s, t, side);
    }
  }

  // ----- the cut as a list of arcs

  /** Unlabelled arcs, the partners made by `addEdge`, carry no capacity yet. */
  ghost predicate Unused(net: Network) {
    forall u, i :: 0 <= u < |net| && 0 <= i < |net[u]| && net[u][i].text == "" ==> net[u][i].cap == 0
  }

  /** The part of the cut that leaves the nodes already visited. */
  function LeavingVisited(net: Network, side: set<nat>, visited: set<nat>): nat -> real {
    (u: nat) => if u in visited then Sum(Degree(net, u), Leaving(net, Capacity(net), side, u)) else 0.0
  }

  lemma VisitOne(net: Network, side: set<nat>, visited: set<nat>, v: nat)
    requires v < |net| && v !in visited
    ensures Sum(|net|, LeavingVisited(net, side, visited + {v}))
         == Sum(|net|, LeavingVisited(net, side, visited)) + Sum(Degree(net, v), Leaving(net, Capacity(net), side, v))
  {
    SumUpdate(|net|, v, LeavingVisited(net, side, visited), LeavingVisited(net, side, visited + {v}));
  }

  lemma VisitNone(net: Network, side: set<nat>)
    ensures Sum(|net|, LeavingVisited(net, side, {})) == 0.0
  {
    SumZero(|net|, LeavingVisited(net, side, {}));
  }

  lemma VisitAll(net: Network, side: set<nat>)
    ensures Sum(|net|, LeavingVisited(net, side, side)) == CutCapacity(net, side)
  {
  }
}
