/** Brandes' betweenness over a call graph: one breadth-first search and one
    back-accumulation per source. */
module Brandes {
  import opened Collections
  import opened Digraphs
  import opened RealSums
  import opened WalkCounting
  import opened Centrality
  import opened LayerSearch

  datatype CallGraph<!T(==, !new)> = CallGraph(allNodes: seq<T>, edges: map<T, seq<T>>,
                                          fanIn: map<T, nat>, fanOut: map<T, nat>, locations: map<T, string>)
  {
    /** What the graph builder guarantees: callee lists without repetition whose
        members are nodes, and fan-outs that are their lengths. */
    ghost predicate Consistent() {
      && Distinct(allNodes)
      && (forall n :: n in edges ==> Distinct(edges[n]) && forall w :: w in edges[n] ==> w in allNodes)
      && (forall n :: n in fanOut ==> n in edges && fanOut[n] == |edges[n]|)
    }

    /** Nodes that a search may enter. */
    predicate IsTarget(n: T) {
      n in allNodes && (n in edges || (n in fanIn && fanIn[n] > 1))
    }

    ghost function Heads(n: T): set<T> {
      if n in edges then set w | w in edges[n] && IsTarget(w) else {}
    }

    /** The searched graph: calls into target nodes. */
    ghost function Graph(): Graph<T> {
      map n | n in allNodes :: Heads(n)
    }

    ghost function Sources(): set<T> {
      set n | n in allNodes && n in locations
    }

    /** The whole call graph. */
    ghost function Calls(): Graph<T> {
      map n | n in allNodes :: if n in edges then Members(edges[n]) else {}
    }

    /** The nodes whose paths count: those with an entry of their own among the
        calls, and those called more than once. */
    ghost function Counted(): set<T> {
      set t | t in allNodes && (t in edges || (t in fanIn && fanIn[t] > 1))
    }

    /** What the shortest paths from `s` to counted nodes owe to `v`. */
    ghost function CountedShare(v: T): T -> real {
      (s: T) => Total(Counted(), PairShare(Calls(), s, v))
    }

    /** Betweenness of `v` in the whole call graph: over all located sources other
        than `v` and all counted nodes. */
    ghost function CountedBetweenness(v: T): real {
      Total(Sources() - {v}, CountedShare(v))
    }
  }

  function Score<T(==)>(bc: map<T, real>, v: T): real {
    if v in bc then bc[v] else 0.0
  }

  /** The heads among the first k callees. */
  ghost function HeadsUpTo<T(!new)>(cg: CallGraph<T>, callees: seq<T>, k: nat): set<T>
    requires k <= |callees|
  {
    set w | w in callees[..k] && cg.IsTarget(w)
  }

  lemma StartsFresh<T(!new)>(cg: CallGraph<T>, s: T, dist: map<T, int>, sigma: map<T, nat>, pred: map<T, seq<T>>)
    requires cg.Consistent() && s in cg.allNodes
    requires forall n :: n in dist <==> n in cg.allNodes
    requires forall n :: n in sigma <==> n in cg.allNodes
    requires forall n :: n in pred <==> n in cg.allNodes
    requires forall n :: n in cg.allNodes ==>
      dist[n] == (if n == s then 0 else -1) && sigma[n] == (if n == s then 1 else 0) && pred[n] == []
    ensures Searching(cg.Graph(), s, dist, sigma, pred, [s], 0, {})
  {
    var g := cg.Graph();
    assert dist.Keys == g.Keys && sigma.Keys == g.Keys && pred.Keys == g.Keys;
    SearchStarts(g, s, dist, sigma, pred);
  }

  lemma NextHead<T(!new)>(cg: CallGraph<T>, callees: seq<T>, k: nat)
    requires k < |callees| && Distinct(callees)
    ensures HeadsUpTo(cg, callees, k + 1)
         == if cg.IsTarget(callees[k]) then HeadsUpTo(cg, callees, k) + {callees[k]} else HeadsUpTo(cg, callees, k)
    ensures callees[k] !in HeadsUpTo(cg, callees, k)
  {
  }

  /** Follow the calls of `v`, the node at the front of the search. */
  method Expand<T(==, !new)>(cg: CallGraph<T>, ghost s: T, v: T, targetNodes: set<T>, queue: seq<T>,
                dist: map<T, int>, sigma: map<T, nat>, pred: map<T, seq<T>>,
                ghost seen: seq<T>, ghost done: nat)
    returns (queue': seq<T>, dist': map<T, int>, sigma': map<T, nat>, pred': map<T, seq<T>>,
             ghost seen': seq<T>)
    requires cg.Consistent() && (forall n :: n in targetNodes <==> cg.IsTarget(n))
    requires Searching(cg.Graph(), s, dist, sigma, pred, seen, done, {})
    requires done < |seen| && v == seen[done] && queue == seen[done + 1..]
    ensures Searching(cg.Graph(), s, dist', sigma', pred', seen', done + 1, {})
    ensures done < |cg.Graph()| && done < |seen'| && seen'[..done + 1] == seen[..done + 1]
    ensures queue' == seen'[done + 1..]
  {
    hide Searching, HeadsUpTo, CallGraph.Graph;
    ghost var g := cg.Graph();
    queue', dist', sigma', pred', seen' := queue, dist, sigma, pred, seen;
    SearchFacts(g, s, dist, sigma, pred, seen, done, {});
    var callees := if v in cg.edges then cg.edges[v] else [];
    NoHeads(cg, callees);
    var k := 0;
    while k < |callees|
      invariant 0 <= k <= |callees|
      invariant done < |seen'| && v == seen'[done]
      invariant seen'[..done + 1] == seen[..done + 1] && queue' == seen'[done + 1..]
      invariant Searching(g, s, dist', sigma', pred', seen', done, HeadsUpTo(cg, callees, k))
    {
      var w := callees[k];
      ghost var heads := HeadsUpTo(cg, callees, k);
      NextHead(cg, callees, k);
      SearchFacts(g, s, dist', sigma', pred', seen', done, heads);
      if w in targetNodes {
        CallIsEdge(cg, v, w);
        if dist'[w] < 0 {
          Discover(g, s, dist', sigma', pred', seen', done, heads, w);
          queue' := queue' + [w];
          dist' := dist'[w := dist'[v] + 1];
          seen' := seen' + [w];
        }
        if dist'[w] == dist'[v] + 1 {
          FollowCounts(g, s, dist', sigma', pred', seen', done, heads, w);
          sigma' := sigma'[w := sigma'[w] + sigma'[v]];
          pred' := pred'[w := pred'[w] + [v]];
        } else {
          FollowSkips(g, s, dist', sigma', pred', seen', done, heads, w);
        }
      }
      k := k + 1;
    }
    AllHeads(cg, v);
    Advance(g, s, dist', sigma', pred', seen', done, HeadsUpTo(cg, callees, k));
  }

  /** The breadth-first phase from `s`. */
  method SearchFrom<T(==, !new)>(cg: CallGraph<T>, s: T, targetNodes: set<T>)
    returns (stack: seq<T>, pred: map<T, seq<T>>, sigma: map<T, nat>, dist: map<T, int>)
    requires cg.Consistent() && s in cg.allNodes
    requires forall n :: n in targetNodes <==> cg.IsTarget(n)
    ensures SearchResult(cg.Graph(), s, dist, sigma, pred, stack)
  {
    hide Searching, SearchResult, CallGraph.Graph, CallGraph.Consistent;
    ghost var g := cg.Graph();
    stack := [];
    pred := map n | n in cg.allNodes :: [];
    sigma := map n | n in cg.allNodes :: if n == s then 1 else 0;
    var distance: map<T, int> := map n | n in cg.allNodes :: if n == s then 0 else -1;
    var queue := [s];
    ghost var seen := [s];
    StartsFresh(cg, s, distance, sigma, pred);
    while |queue| > 0
      invariant |stack| <= |seen| && stack == seen[..|stack|] && queue == seen[|stack|..]
      invariant Searching(g, s, distance, sigma, pred, seen, |stack|, {})
      decreases |g| - |stack|
    {
      var v := queue[0];
      queue := queue[1..];
      queue, distance, sigma, pred, seen := Expand(cg, s, v, targetNodes, queue, distance, sigma, pred, seen, |stack|);
      stack := stack + [v];
    }
    assert stack == seen;
    SearchEnds(g, s, distance, sigma, pred, seen);
    dist := distance;
  }

  lemma CallIsEdge<T(!new)>(cg: CallGraph<T>, v: T, w: T)
    requires v in cg.Graph() && v in cg.edges && w in cg.edges[v] && cg.IsTarget(w)
    ensures Edge(cg.Graph(), v, w) && w in cg.Graph()
  {
  }

  lemma NoHeads<T(!new)>(cg: CallGraph<T>, callees: seq<T>)
    ensures HeadsUpTo(cg, callees, 0) == {}
  {
  }

  lemma AllHeads<T(!new)>(cg: CallGraph<T>, v: T)
    requires v in cg.Graph()
    ensures
      var callees := if v in cg.edges then cg.edges[v] else [];
      HeadsUpTo(cg, callees, |callees|) == cg.Graph()[v]
  {
  }

  // ----- back-accumulation

  /** Reached nodes have collected what their popped children pass up. */
  ghost predicate Collected<T(!new)>(g: Graph<T>, s: T, dist: map<T, int>, delta: map<T, real>,
                                     popped: set<T>, w: T, fed: set<T>) {
    && delta.Keys == g.Keys == dist.Keys
    && forall v :: v in g && dist[v] >= 0 ==>
         delta[v] == Total(Children(g, dist, v) * popped, FromChild(g, s, dist, v))
                       + (if v in fed then FromChild(g, s, dist, v)(w) else 0.0)
  }

  lemma CollectStarts<T(!new)>(g: Graph<T>, s: T, dist: map<T, int>, delta: map<T, real>, w: T)
    requires delta.Keys == g.Keys == dist.Keys && forall v :: v in g ==> delta[v] == 0.0
    ensures Collected(g, s, dist, delta, {}, w, {})
  {
  }

  /** When its children have been popped, a node's delta is its dependency. */
  lemma CollectComplete<T(!new)>(g: Graph<T>, s: T, dist: map<T, int>, delta: map<T, real>, popped: set<T>, w: T, x: T)
    requires Layered(g, s, dist) && Collected(g, s, dist, delta, popped, x, {})
    requires w in g && dist[w] >= 0 && Children(g, dist, w) <= popped
    ensures delta[w] == Dependency(g, s, w)
  {
    assert Children(g, dist, w) * popped == Children(g, dist, w);
    DependencyRecurrence(g, s, dist, w);
  }

  lemma CollectSwitch<T(!new)>(g: Graph<T>, s: T, dist: map<T, int>, delta: map<T, real>, popped: set<T>, x: T, w: T)
    requires Collected(g, s, dist, delta, popped, x, {})
    ensures Collected(g, s, dist, delta, popped, w, {})
  {
  }

  lemma CollectFeed<T(!new)>(g: Graph<T>, s: T, dist: map<T, int>, delta: map<T, real>, popped: set<T>,
                            w: T, fed: set<T>, v: T)
    requires Collected(g, s, dist, delta, popped, w, fed) && v in g && v !in fed
    ensures v in delta
    ensures Collected(g, s, dist, delta[v := delta[v] + FromChild(g, s, dist, v)(w)], popped, w, fed + {v})
  {
    hide FromChild, Children;
  }

  /** Once all parents of `w` are fed, `w` counts as popped. */
  lemma CollectPop<T(!new)>(g: Graph<T>, s: T, dist: map<T, int>, delta: map<T, real>, popped: set<T>,
                            w: T, fed: set<T>)
    requires Layered(g, s, dist) && Collected(g, s, dist, delta, popped, w, fed)
    requires w in g && dist[w] >= 0 && w !in popped && fed == Parents(g, dist, w)
    ensures Collected(g, s, dist, delta, popped + {w}, w, {})
  {
    forall v | v in g && dist[v] >= 0
      ensures Total(Children(g, dist, v) * (popped + {w}), FromChild(g, s, dist, v))
           == Total(Children(g, dist, v) * popped, FromChild(g, s, dist, v))
                + (if v in fed then FromChild(g, s, dist, v)(w) else 0.0)
    {
      PopOne(g, s, dist, popped, w, v);
    }
  }

  lemma PopOne<T(!new)>(g: Graph<T>, s: T, dist: map<T, int>, popped: set<T>, w: T, v: T)
    requires Layered(g, s, dist) && w in g && dist[w] >= 0 && w !in popped && v in g && dist[v] >= 0
    ensures Total(Children(g, dist, v) * (popped + {w}), FromChild(g, s, dist, v))
         == Total(Children(g, dist, v) * popped, FromChild(g, s, dist, v))
              + (if v in Parents(g, dist, w) then FromChild(g, s, dist, v)(w) else 0.0)
  {
    hide FromChild;
    var kids := Children(g, dist, v);
    if v in Parents(g, dist, w) {
      assert w in kids;
      TotalPick(kids * (popped + {w}), w, FromChild(g, s, dist, v));
      assert kids * (popped + {w}) - {w} == kids * popped;
    } else {
      assert kids * (popped + {w}) == kids * popped;
    }
  }

  /** The bottom of the stack is popped after all its children. */
  lemma ChildrenPopped<T(!new)>(g: Graph<T>, s: T, dist: map<T, int>, sigma: map<T, nat>, pred: map<T, seq<T>>,
                                stack: seq<T>, n: nat)
    requires SearchResult(g, s, dist, sigma, pred, stack) && n < |stack|
    ensures stack[n] in g && stack[n] in dist && dist[stack[n]] >= 0 && stack[n] in pred && stack[n] in sigma
    ensures Children(g, dist, stack[n]) <= Members(stack[n + 1..])
    ensures stack[n] !in Members(stack[n + 1..])
    ensures Members(stack[n..]) == Members(stack[n + 1..]) + {stack[n]}
  {
  }

  lemma RatioTimes(a: real, b: real, c: real)
    requires b > 0.0
    ensures (a / b) * c == Times(Quot(a, b), c)
  {
  }

  lemma ContributionIs<T(!new)>(g: Graph<T>, s: T, dist: map<T, int>, sigma: map<T, nat>, pred: map<T, seq<T>>,
                                stack: seq<T>, v: T, w: T, d: real)
    requires SearchResult(g, s, dist, sigma, pred, stack)
    requires w in g && dist[w] >= 0 && v in g && d == Dependency(g, s, w)
    ensures v in sigma && w in sigma && sigma[w] as real != 0.0
    ensures (sigma[v] as real / sigma[w] as real) * (1.0 + d) == FromChild(g, s, dist, v)(w)
  {
    hide Layered, Dependency, Times, Quot, Paths;
    PathsPositive(g, s, dist, w);
    RatioTimes(sigma[v] as real, sigma[w] as real, 1.0 + d);
  }

  /** Pop the stack, passing dependencies up to predecessors, and add them to the scores. */
  method Accumulate<T(==, !new)>(ghost g: Graph<T>, s: T, ghost dist: map<T, int>, stack: seq<T>,
                                 pred: map<T, seq<T>>, sigma: map<T, nat>, allNodes: seq<T>, bc: map<T, real>)
    returns (bc': map<T, real>)
    requires SearchResult(g, s, dist, sigma, pred, stack)
    requires forall v :: v in allNodes <==> v in g
    ensures bc.Keys <= bc'.Keys
    ensures forall v :: v in g ==> Score(bc', v) == Score(bc, v) + (if v != s then Dependency(g, s, v) else 0.0)
  {
    hide SearchResult, Collected, Layered, Dependency, FromChild, Children, Parents, Score, Scored, Members;
    bc' := bc;
    var delta: map<T, real> := map n | n in allNodes :: 0.0;
    ResultKeys(g, s, dist, sigma, pred, stack);
    assert delta.Keys == g.Keys;
    CollectStarts(g, s, dist, delta, s);
    var n := |stack|;
    ScoredStart(g, s, stack, bc);
    while n > 0
      invariant 0 <= n <= |stack|
      invariant Collected(g, s, dist, delta, Members(stack[n..]), s, {})
      invariant Scored(g, s, Members(stack[n..]), bc, bc') && bc.Keys <= bc'.Keys
    {
      n := n - 1;
      var w := stack[n];
      ghost var popped := Members(stack[n + 1..]);
      ChildrenPopped(g, s, dist, sigma, pred, stack, n);
      CollectComplete(g, s, dist, delta, popped, w, s);
      CollectSwitch(g, s, dist, delta, popped, s, w);
      delta := FeedParents(g, s, dist, stack, pred, sigma, w, delta, popped);
      CollectPop(g, s, dist, delta, popped, w, Parents(g, dist, w));
      CollectSwitch(g, s, dist, delta, popped + {w}, w, s);
      CollectComplete(g, s, dist, delta, popped + {w}, w, s);
      ScoredStep(g, s, popped, bc, bc', w, delta[w]);
      if w != s {
        bc' := bc'[w := (if w in bc' then bc'[w] else 0.0) + delta[w]];
      }
    }
    assert stack[0..] == stack;
    ScoredEnd(g, s, dist, sigma, pred, stack, bc, bc');
  }

  /** The popped nodes have their dependency added to their score. */
  ghost predicate Scored<T(!new)>(g: Graph<T>, s: T, popped: set<T>, bc: map<T, real>, bc': map<T, real>) {
    forall v :: v in g ==>
      Score(bc', v) == Score(bc, v) + (if v != s && v in popped then Dependency(g, s, v) else 0.0)
  }

  lemma ScoredStart<T(!new)>(g: Graph<T>, s: T, stack: seq<T>, bc: map<T, real>)
    ensures Members(stack[|stack|..]) == {} && Scored(g, s, {}, bc, bc)
  {
  }

  lemma ScoredStep<T(!new)>(g: Graph<T>, s: T, popped: set<T>, bc: map<T, real>, bc': map<T, real>, w: T, d: real)
    requires Scored(g, s, popped, bc, bc') && w !in popped && d == Dependency(g, s, w)
    ensures Scored(g, s, popped + {w}, bc,
                   if w != s then bc'[w := (if w in bc' then bc'[w] else 0.0) + d] else bc')
  {
  }

  lemma ScoredEnd<T(!new)>(g: Graph<T>, s: T, dist: map<T, int>, sigma: map<T, nat>, pred: map<T, seq<T>>,
                           stack: seq<T>, bc: map<T, real>, bc': map<T, real>)
    requires SearchResult(g, s, dist, sigma, pred, stack) && Scored(g, s, Members(stack), bc, bc')
    ensures forall v :: v in g ==> Score(bc', v) == Score(bc, v) + (if v != s then Dependency(g, s, v) else 0.0)
  {
    hide SearchResult, Dependency, Layered;
    ResultKeys(g, s, dist, sigma, pred, stack);
    forall v | v in g && v !in stack
      ensures Dependency(g, s, v) == 0.0
    {
      UnreachedDependency(g, s, dist, v);
    }
  }

  lemma ResultKeys<T(!new)>(g: Graph<T>, s: T, dist: map<T, int>, sigma: map<T, nat>, pred: map<T, seq<T>>,
                            stack: seq<T>)
    requires SearchResult(g, s, dist, sigma, pred, stack)
    ensures Layered(g, s, dist) && dist.Keys == g.Keys == pred.Keys == sigma.Keys
    ensures forall v :: v in g && v !in stack ==> dist[v] < 0
  {
  }

  lemma ResultParents<T(!new)>(g: Graph<T>, s: T, dist: map<T, int>, sigma: map<T, nat>, pred: map<T, seq<T>>,
                               stack: seq<T>, w: T)
    requires SearchResult(g, s, dist, sigma, pred, stack) && w in g && w in dist && w in pred
    ensures Layered(g, s, dist) && dist.Keys == g.Keys == pred.Keys == sigma.Keys
    ensures Distinct(pred[w]) && forall u :: u in pred[w] <==> u in Parents(g, dist, w)
  {
  }

  /** One popped node passes its dependency up to its predecessors. */
  method FeedParents<T(==, !new)>(ghost g: Graph<T>, ghost s: T, ghost dist: map<T, int>, ghost stack: seq<T>,
                                  pred: map<T, seq<T>>, sigma: map<T, nat>, w: T, delta: map<T, real>,
                                  ghost popped: set<T>)
    returns (delta': map<T, real>)
    requires SearchResult(g, s, dist, sigma, pred, stack) && w in g && w in dist && dist[w] >= 0 && w in pred
    requires Collected(g, s, dist, delta, popped, w, {}) && w in delta && delta[w] == Dependency(g, s, w)
    ensures Collected(g, s, dist, delta', popped, w, Parents(g, dist, w))
  {
    hide SearchResult, Collected, Layered, FromChild, Dependency;
    ResultParents(g, s, dist, sigma, pred, stack, w);
    delta' := delta;
    var k := 0;
    ghost var fed: set<T> := {};
    while k < |pred[w]|
      invariant 0 <= k <= |pred[w]| && w in delta' && delta'[w] == delta[w]
      invariant forall v :: v in fed <==> v in pred[w][..k]
      invariant Collected(g, s, dist, delta', popped, w, fed)
    {
      var v := pred[w][k];
      assert v in pred[w];
      assert v in Parents(g, dist, w);
      ContributionIs(g, s, dist, sigma, pred, stack, v, w, delta'[w]);
      CollectFeed(g, s, dist, delta', popped, w, fed, v);
      var contrib := (sigma[v] as real / sigma[w] as real) * (1.0 + delta'[w]);
      assert contrib == FromChild(g, s, dist, v)(w);
      assert v != w;
      delta' := delta'[v := delta'[v] + contrib];
      fed := fed + {v};
      k := k + 1;
    }
    assert pred[w][..k] == pred[w];
    assert fed == Parents(g, dist, w);
  }

  /** A source without calls contributes nothing. */
  lemma SilentSource<T(!new)>(g: Graph<T>, s: T, v: T)
    requires Closed(g) && s in g && g[s] == {} && v in g && v != s
    ensures Dependency(g, s, v) == 0.0
  {
    var dist: map<T, int> := map n | n in g :: if n == s then 0 else -1;
    UnreachedDependency(g, s, dist, v);
  }

  /** Betweenness of every node over the located sources. */
  method ComputeBetweenness<T(==, !new)>(cg: CallGraph<T>) returns (bc: map<T, real>)
    requires cg.Consistent()
    ensures forall v :: v in cg.allNodes ==> Score(bc, v) == cg.CountedBetweenness(v)
    ensures forall v :: v in cg.allNodes ==> Score(bc, v) == Betweenness(cg.Graph(), cg.Sources(), v)
    ensures forall n :: n in cg.allNodes && n !in cg.locations ==> n in bc
  {
    hide SearchResult, CallGraph.Graph, Dependency, Betweenness, CallGraph.CountedBetweenness;
    ghost var g := cg.Graph();
    bc := map n | n in cg.allNodes && n !in cg.locations :: 0.0;
    var targetNodes := set n | n in cg.allNodes && cg.IsTarget(n);
    GraphNodes(cg);
    ghost var done: set<T> := {};
    var i := 0;
    while i < |cg.allNodes|
      invariant 0 <= i <= |cg.allNodes|
      invariant forall n :: n in done <==> n in cg.allNodes[..i] && n in cg.locations
      invariant forall v :: v in g ==> Score(bc, v) == Betweenness(g, done, v)
      invariant forall n :: n in cg.allNodes && n !in cg.locations ==> n in bc
    {
      var s := cg.allNodes[i];
      assert s in cg.allNodes;
      if s in cg.locations {
        assert s !in done;
        if s in cg.fanOut && cg.fanOut[s] == 0 {
          SilentGraphNode(cg, s);
        } else {
          var stack, pred, sigma, dist := SearchFrom(cg, s, targetNodes);
          bc := Accumulate(g, s, dist, stack, pred, sigma, cg.allNodes, bc);
        }
        AddSource(g, done, s);
        done := done + {s};
      }
      i := i + 1;
    }
    assert done == cg.Sources();
    forall v | v in cg.allNodes
      ensures Betweenness(g, done, v) == cg.CountedBetweenness(v)
    {
      FilteredBetweenness(cg, v);
    }
  }

  // ----- filtering the heads loses no counted path

  /** Only nodes with calls of their own can lie inside a path. */
  lemma SameWalks<T(!new)>(cg: CallGraph<T>, s: T, t: T, p: seq<T>)
    requires cg.Consistent() && s in cg.allNodes && t in cg.Counted()
    ensures Walk(cg.Calls(), s, t, p) ==> Walk(cg.Graph(), s, t, p)
    ensures Walk(cg.Graph(), s, t, p) ==> Walk(cg.Calls(), s, t, p)
  {
    var calls, g := cg.Calls(), cg.Graph();
    if Walk(calls, s, t, p) {
      forall i, j | 0 <= i < j < |p| && j == i + 1
        ensures Edge(g, p[i], p[j])
      {
        assert Edge(calls, p[i], p[j]);
        if j + 1 < |p| {
          assert Edge(calls, p[j], p[j + 1]);
        }
      }
    }
    if Walk(g, s, t, p) {
      forall i, j | 0 <= i < j < |p| && j == i + 1
        ensures Edge(calls, p[i], p[j])
      {
        assert Edge(g, p[i], p[j]);
      }
    }
  }

  lemma SameShortest<T(!new)>(cg: CallGraph<T>, s: T, t: T)
    requires cg.Consistent() && s in cg.allNodes && t in cg.Counted()
    ensures Shortest(cg.Graph(), s, t) == Shortest(cg.Calls(), s, t)
  {
    hide Shortest, Walk, CallGraph.Graph, CallGraph.Calls, CallGraph.Counted;
    forall p
      ensures Walk(cg.Graph(), s, t, p) <==> Walk(cg.Calls(), s, t, p)
    {
      SameWalks(cg, s, t, p);
    }
    forall p
      ensures p in Shortest(cg.Graph(), s, t) <==> p in Shortest(cg.Calls(), s, t)
    {
      ShortestMembers(cg.Graph(), s, t, p);
      ShortestMembers(cg.Calls(), s, t, p);
    }
  }

  /** No path of the filtered graph between different nodes ends outside. */
  lemma OutsideUnreached<T(!new)>(cg: CallGraph<T>, s: T, v: T, t: T)
    requires cg.Consistent() && s in cg.allNodes && t in cg.allNodes && t !in cg.Counted() && v != s
    ensures PairShare(cg.Graph(), s, v)(t) == 0.0
  {
    hide Shortest;
    forall p | p in Shortest(cg.Graph(), s, t)
      ensures v !in p
    {
      ShortestMembers(cg.Graph(), s, t, p);
      OnlyTrivialWalk(cg, s, t, p);
      assert p == [s];
    }
    assert (set p | p in Shortest(cg.Graph(), s, t) && v in p) == {};
  }

  lemma OnlyTrivialWalk<T(!new)>(cg: CallGraph<T>, s: T, t: T, p: seq<T>)
    requires Walk(cg.Graph(), s, t, p)
    ensures |p| == 1 || t in cg.Counted()
  {
    if |p| > 1 {
      assert Edge(cg.Graph(), p[|p| - 2], p[|p| - 1]);
    }
  }

  lemma FilteredShare<T(!new)>(cg: CallGraph<T>, s: T, v: T)
    requires cg.Consistent() && s in cg.allNodes && v != s
    ensures Dependency(cg.Graph(), s, v) == cg.CountedShare(v)(s)
  {
    hide Shortest, CallGraph.Calls;
    var all, counted := cg.Graph().Keys, cg.Counted();
    forall t | t in all - counted
      ensures PairShare(cg.Graph(), s, v)(t) == 0.0
    {
      OutsideUnreached(cg, s, v, t);
    }
    TotalSubset(all, counted, PairShare(cg.Graph(), s, v));
    forall t | t in counted
      ensures PairShare(cg.Graph(), s, v)(t) == PairShare(cg.Calls(), s, v)(t)
    {
      SameShortest(cg, s, t);
    }
    TotalCongruence(counted, PairShare(cg.Graph(), s, v), PairShare(cg.Calls(), s, v));
  }

  /** The betweenness that the filtered search computes is that of the whole call
      graph, with paths to counted nodes. */
  lemma FilteredBetweenness<T(!new)>(cg: CallGraph<T>, v: T)
    requires cg.Consistent()
    ensures Betweenness(cg.Graph(), cg.Sources(), v) == cg.CountedBetweenness(v)
  {
    hide Dependency, CallGraph.CountedShare, CallGraph.Graph;
    forall s | s in cg.Sources() - {v}
      ensures DependencyOn(cg.Graph(), v)(s) == cg.CountedShare(v)(s)
    {
      FilteredShare(cg, s, v);
    }
    TotalCongruence(cg.Sources() - {v}, DependencyOn(cg.Graph(), v), cg.CountedShare(v));
  }

  lemma GraphNodes<T(!new)>(cg: CallGraph<T>)
    requires cg.Consistent()
    ensures forall v :: v in cg.allNodes <==> v in cg.Graph()
    ensures forall v :: v in cg.Graph() ==> Betweenness(cg.Graph(), {}, v) == 0.0
  {
  }

  lemma SilentGraphNode<T(!new)>(cg: CallGraph<T>, s: T)
    requires cg.Consistent() && s in cg.allNodes && s in cg.fanOut && cg.fanOut[s] == 0
    ensures forall v :: v in cg.Graph() && v != s ==> Dependency(cg.Graph(), s, v) == 0.0
  {
    assert cg.Graph()[s] == {};
    forall v | v in cg.Graph() && v != s
      ensures Dependency(cg.Graph(), s, v) == 0.0
    {
      SilentSource(cg.Graph(), s, v);
    }
  }

  lemma AddSource<T(!new)>(g: Graph<T>, done: set<T>, s: T)
    requires s !in done
    ensures forall v ::
      Betweenness(g, done + {s}, v) == Betweenness(g, done, v) + (if v != s then Dependency(g, s, v) else 0.0)
  {
    forall v
      ensures Betweenness(g, done + {s}, v) == Betweenness(g, done, v) + (if v != s then Dependency(g, s, v) else 0.0)
    {
      if v == s {
        assert done + {s} - {v} == done - {v};
      } else {
        TotalPick(done + {s} - {v}, s, DependencyOn(g, v));
        assert done + {s} - {v} - {s} == done - {v};
      }
    }
  }
}
