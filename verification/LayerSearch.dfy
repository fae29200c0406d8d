/** The state of the breadth-first phase of Brandes' algorithm: layers, path
    counts and predecessor lists. */
module LayerSearch {
  import opened Collections
  import opened Digraphs
  import opened RealSums
  import opened WalkCounting
  import opened Centrality

  /** Nodes in discovery order; those before `done` have been expanded. */
  ghost predicate InLayers<T(!new)>(g: Graph<T>, s: T, dist: map<T, int>, seen: seq<T>, done: nat) {
    && s in g && dist.Keys == g.Keys && dist[s] == 0
    && done <= |seen| && seen != [] && seen[0] == s && Distinct(seen)
    && (forall k :: 0 <= k < |seen| ==> seen[k] in g && dist[seen[k]] >= 0)
    && (forall j, k :: 0 <= j <= k < |seen| ==> dist[seen[j]] <= dist[seen[k]])
    && (done < |seen| ==> forall k :: 0 <= k < |seen| ==> dist[seen[k]] <= dist[seen[done]] + 1)
    && (forall u :: u in g ==> (if u in seen then dist[u] >= 0 else dist[u] == -1))
  }

  ghost predicate Grown<T(!new)>(g: Graph<T>, s: T, dist: map<T, int>) {
    && dist.Keys == g.Keys
    && (forall w :: w in g && dist[w] == 0 ==> w == s)
    && (forall w :: w in g && dist[w] > 0 ==> HasParent(g, dist, w))
  }

  /** The edge u -> w has been followed: `u` was expanded, or is being expanded
      and `w` is among the heads met so far. */
  ghost predicate Followed<T(!new)>(g: Graph<T>, seen: seq<T>, done: nat, heads: set<T>, u: T, w: T) {
    done <= |seen| && ((u in seen[..done] && Edge(g, u, w)) || (done < |seen| && u == seen[done] && w in heads))
  }

  ghost predicate Spanned<T(!new)>(g: Graph<T>, dist: map<T, int>, seen: seq<T>, done: nat, heads: set<T>) {
    forall u, w :: Followed(g, seen, done, heads, u, w) && u in dist && w in dist ==> 0 <= dist[w] <= dist[u] + 1
  }

  function PathSum<T(==)>(sigma: map<T, nat>, ps: seq<T>): nat {
    if ps == [] then 0
    else
      var u := ps[|ps| - 1];
      PathSum(sigma, ps[..|ps| - 1]) + (if u in sigma then sigma[u] else 0)
  }

  /** `pred` lists the followed edges that climb one layer. */
  ghost predicate Listed<T(!new)>(g: Graph<T>, dist: map<T, int>, pred: map<T, seq<T>>,
                                  seen: seq<T>, done: nat, heads: set<T>) {
    && dist.Keys == g.Keys == pred.Keys
    && (forall w :: w in g ==> Distinct(pred[w]))
    && (forall u, w :: w in g && u in pred[w] ==>
          u in g && Followed(g, seen, done, heads, u, w) && dist[w] == dist[u] + 1)
    && (forall u, w :: w in g && u in g && Followed(g, seen, done, heads, u, w) && dist[w] == dist[u] + 1 ==>
          u in pred[w])
  }

  /** `sigma` adds up the counts of the listed predecessors. */
  ghost predicate Tallied<T(!new)>(g: Graph<T>, s: T, sigma: map<T, nat>, pred: map<T, seq<T>>) {
    && sigma.Keys == g.Keys == pred.Keys
    && forall w :: w in g ==> sigma[w] == (if w == s then 1 else 0) + PathSum(sigma, pred[w])
  }

  ghost predicate Searching<T(!new)>(g: Graph<T>, s: T, dist: map<T, int>, sigma: map<T, nat>, pred: map<T, seq<T>>,
                                     seen: seq<T>, done: nat, heads: set<T>) {
    && Closed(g)
    && InLayers(g, s, dist, seen, done) && Grown(g, s, dist)
    && Spanned(g, dist, seen, done, heads)
    && Listed(g, dist, pred, seen, done, heads)
    && Tallied(g, s, sigma, pred)
    && (heads != {} ==> done < |seen|)
  }

  lemma SearchFacts<T(!new)>(g: Graph<T>, s: T, dist: map<T, int>, sigma: map<T, nat>, pred: map<T, seq<T>>,
                             seen: seq<T>, done: nat, heads: set<T>)
    requires Searching(g, s, dist, sigma, pred, seen, done, heads)
    ensures dist.Keys == g.Keys == sigma.Keys == pred.Keys && |seen| <= |g|
    ensures done < |seen| ==> seen[done] in g && dist[seen[done]] >= 0
    ensures Distinct(seen)
  {
    SubsetLength(seen, g.Keys);
  }

  lemma SearchStarts<T(!new)>(g: Graph<T>, s: T, dist: map<T, int>, sigma: map<T, nat>, pred: map<T, seq<T>>)
    requires Closed(g) && s in g && dist.Keys == g.Keys == sigma.Keys == pred.Keys
    requires forall v :: v in g ==>
      dist[v] == (if v == s then 0 else -1) && sigma[v] == (if v == s then 1 else 0) && pred[v] == []
    ensures Searching(g, s, dist, sigma, pred, [s], 0, {})
  {
  }

  // ----- discovering a node

  lemma DiscoverLayers<T(!new)>(g: Graph<T>, s: T, dist: map<T, int>, seen: seq<T>, done: nat, w: T)
    requires InLayers(g, s, dist, seen, done) && done < |seen| && w in g && dist[w] < 0
    ensures InLayers(g, s, dist[w := dist[seen[done]] + 1], seen + [w], done)
  {
  }

  lemma DiscoverGrown<T(!new)>(g: Graph<T>, s: T, dist: map<T, int>, v: T, w: T)
    requires Grown(g, s, dist) && v in g && dist[v] >= 0 && w in g && dist[w] < 0 && Edge(g, v, w)
    ensures Grown(g, s, dist[w := dist[v] + 1])
  {
  }

  lemma DiscoverFollowed<T(!new)>(g: Graph<T>, seen: seq<T>, done: nat, heads: set<T>, w: T, u: T, x: T)
    requires done < |seen|
    ensures Followed(g, seen + [w], done, heads, u, x) <==> Followed(g, seen, done, heads, u, x)
  {
    assert (seen + [w])[..done] == seen[..done];
  }

  /** An undiscovered node has no followed edge, in or out. */
  lemma Untouched<T(!new)>(g: Graph<T>, s: T, dist: map<T, int>, seen: seq<T>, done: nat, heads: set<T>, w: T)
    requires InLayers(g, s, dist, seen, done) && Spanned(g, dist, seen, done, heads)
    requires w in g && dist[w] < 0
    ensures forall u :: u in g ==> !Followed(g, seen, done, heads, u, w) && !Followed(g, seen, done, heads, w, u)
  {
  }

  lemma DiscoverSpanned<T(!new)>(g: Graph<T>, s: T, dist: map<T, int>, seen: seq<T>, done: nat, heads: set<T>,
                                 w: T, d: nat)
    requires InLayers(g, s, dist, seen, done) && Spanned(g, dist, seen, done, heads)
    requires w in g && dist[w] < 0 && done < |seen|
    ensures Spanned(g, dist[w := d], seen + [w], done, heads)
  {
  }

  lemma DiscoverListed<T(!new)>(g: Graph<T>, s: T, dist: map<T, int>, pred: map<T, seq<T>>,
                                seen: seq<T>, done: nat, heads: set<T>, w: T, d: nat)
    requires InLayers(g, s, dist, seen, done) && Spanned(g, dist, seen, done, heads)
    requires Listed(g, dist, pred, seen, done, heads)
    requires w in g && dist[w] < 0 && done < |seen|
    ensures Listed(g, dist[w := d], pred, seen + [w], done, heads)
  {
    hide InLayers, Spanned, Followed;
    Untouched(g, s, dist, seen, done, heads, w);
    forall u, x
      ensures Followed(g, seen + [w], done, heads, u, x) <==> Followed(g, seen, done, heads, u, x)
    {
      DiscoverFollowed(g, seen, done, heads, w, u, x);
    }
  }

  lemma DiscoverFacts<T(!new)>(g: Graph<T>, s: T, dist: map<T, int>, seen: seq<T>, done: nat, w: T)
    requires Closed(g) && InLayers(g, s, dist, seen, done) && done < |seen| && Edge(g, seen[done], w)
    ensures seen[done] in g && seen[done] in dist && dist[seen[done]] >= 0 && w in g
  {
  }

  lemma Discover<T(!new)>(g: Graph<T>, s: T, dist: map<T, int>, sigma: map<T, nat>, pred: map<T, seq<T>>,
                          seen: seq<T>, done: nat, heads: set<T>, w: T)
    requires Searching(g, s, dist, sigma, pred, seen, done, heads) && done < |seen|
    requires Edge(g, seen[done], w) && w in dist && dist[w] < 0
    ensures seen[done] in dist
    ensures Searching(g, s, dist[w := dist[seen[done]] + 1], sigma, pred, seen + [w], done, heads)
  {
    hide Closed, InLayers, Grown, Spanned, Listed, Tallied, Edge;
    var v := seen[done];
    DiscoverFacts(g, s, dist, seen, done, w);
    DiscoverLayers(g, s, dist, seen, done, w);
    DiscoverGrown(g, s, dist, v, w);
    DiscoverSpanned(g, s, dist, seen, done, heads, w, dist[v] + 1);
    DiscoverListed(g, s, dist, pred, seen, done, heads, w, dist[v] + 1);
  }

  // ----- following an edge

  lemma FollowSpanned<T(!new)>(g: Graph<T>, s: T, dist: map<T, int>, seen: seq<T>, done: nat, heads: set<T>, w: T)
    requires InLayers(g, s, dist, seen, done) && Spanned(g, dist, seen, done, heads)
    requires done < |seen| && w in g && dist[w] >= 0
    ensures Spanned(g, dist, seen, done, heads + {w})
  {
  }

  lemma PathSumUnchanged<T>(sigma: map<T, nat>, sigma': map<T, nat>, ps: seq<T>, w: T)
    requires w !in ps && sigma'.Keys == sigma.Keys && forall x :: x in sigma && x != w ==> sigma'[x] == sigma[x]
    ensures PathSum(sigma', ps) == PathSum(sigma, ps)
  {
  }

  lemma CountTallied<T(!new)>(g: Graph<T>, s: T, sigma: map<T, nat>, pred: map<T, seq<T>>, v: T, w: T)
    requires Tallied(g, s, sigma, pred) && v in g && w in g && v != w
    requires forall x :: x in g ==> w !in pred[x]
    ensures Tallied(g, s, sigma[w := sigma[w] + sigma[v]], pred[w := pred[w] + [v]])
  {
    var sigma' := sigma[w := sigma[w] + sigma[v]];
    forall x | x in g
      ensures PathSum(sigma', pred[x]) == PathSum(sigma, pred[x])
    {
      PathSumUnchanged(sigma, sigma', pred[x], w);
    }
    assert (pred[w] + [v])[..|pred[w]|] == pred[w];
  }

  /** The head of a climbing edge has not been expanded, so it is nobody's predecessor. */
  lemma NobodysPredecessor<T(!new)>(g: Graph<T>, s: T, dist: map<T, int>, pred: map<T, seq<T>>,
                                    seen: seq<T>, done: nat, heads: set<T>, w: T)
    requires InLayers(g, s, dist, seen, done) && Listed(g, dist, pred, seen, done, heads)
    requires done < |seen| && w in g && dist[w] == dist[seen[done]] + 1
    ensures forall x :: x in g ==> w !in pred[x]
  {
  }

  lemma CountListed<T(!new)>(g: Graph<T>, dist: map<T, int>, pred: map<T, seq<T>>,
                             seen: seq<T>, done: nat, heads: set<T>, w: T)
    requires Listed(g, dist, pred, seen, done, heads) && Distinct(seen)
    requires done < |seen| && seen[done] in g && w in g && w !in heads && dist[w] == dist[seen[done]] + 1
    ensures Listed(g, dist, pred[w := pred[w] + [seen[done]]], seen, done, heads + {w})
  {
    var v := seen[done];
    FollowedMore(g, seen, done, heads, w);
    assert !Followed(g, seen, done, heads, v, w);
    assert v !in pred[w];
  }

  lemma FollowedMore<T(!new)>(g: Graph<T>, seen: seq<T>, done: nat, heads: set<T>, w: T)
    requires done < |seen| && Distinct(seen)
    ensures seen[done] !in seen[..done]
    ensures forall u, x ::
      Followed(g, seen, done, heads + {w}, u, x)
      <==> Followed(g, seen, done, heads, u, x) || (u == seen[done] && x == w)
  {
  }

  lemma SkipListed<T(!new)>(g: Graph<T>, dist: map<T, int>, pred: map<T, seq<T>>,
                            seen: seq<T>, done: nat, heads: set<T>, w: T)
    requires Listed(g, dist, pred, seen, done, heads) && Distinct(seen)
    requires done < |seen| && seen[done] in g && w in g && dist[w] != dist[seen[done]] + 1
    ensures Listed(g, dist, pred, seen, done, heads + {w})
  {
    FollowedMore(g, seen, done, heads, w);
  }

  lemma FollowCounts<T(!new)>(g: Graph<T>, s: T, dist: map<T, int>, sigma: map<T, nat>, pred: map<T, seq<T>>,
                              seen: seq<T>, done: nat, heads: set<T>, w: T)
    requires Searching(g, s, dist, sigma, pred, seen, done, heads) && done < |seen|
    requires Edge(g, seen[done], w) && w !in heads && w in dist && seen[done] in dist
    requires dist[w] == dist[seen[done]] + 1
    ensures seen[done] in sigma && w in sigma && w in pred
    ensures Searching(g, s, dist, sigma[w := sigma[w] + sigma[seen[done]]], pred[w := pred[w] + [seen[done]]],
                      seen, done, heads + {w})
  {
    hide Closed, InLayers, Grown, Spanned, Listed, Tallied, Followed;
    SearchFacts(g, s, dist, sigma, pred, seen, done, heads);
    FollowSpanned(g, s, dist, seen, done, heads, w);
    NobodysPredecessor(g, s, dist, pred, seen, done, heads, w);
    CountTallied(g, s, sigma, pred, seen[done], w);
    CountListed(g, dist, pred, seen, done, heads, w);
  }

  lemma FollowSkips<T(!new)>(g: Graph<T>, s: T, dist: map<T, int>, sigma: map<T, nat>, pred: map<T, seq<T>>,
                             seen: seq<T>, done: nat, heads: set<T>, w: T)
    requires Searching(g, s, dist, sigma, pred, seen, done, heads) && done < |seen|
    requires Edge(g, seen[done], w) && w in dist && seen[done] in dist
    requires dist[w] >= 0 && dist[w] != dist[seen[done]] + 1
    ensures Searching(g, s, dist, sigma, pred, seen, done, heads + {w})
  {
    hide Closed, InLayers, Grown, Spanned, Listed, Tallied, Followed;
    SearchFacts(g, s, dist, sigma, pred, seen, done, heads);
    FollowSpanned(g, s, dist, seen, done, heads, w);
    SkipListed(g, dist, pred, seen, done, heads, w);
  }

  // ----- finishing a node, finishing the search

  lemma AdvanceLayers<T(!new)>(g: Graph<T>, s: T, dist: map<T, int>, seen: seq<T>, done: nat)
    requires InLayers(g, s, dist, seen, done) && done < |seen|
    ensures InLayers(g, s, dist, seen, done + 1)
  {
  }

  lemma AdvanceFollowed<T(!new)>(g: Graph<T>, seen: seq<T>, done: nat, heads: set<T>)
    requires done < |seen| && seen[done] in g && heads == g[seen[done]]
    ensures forall u, w :: Followed(g, seen, done + 1, {}, u, w) <==> Followed(g, seen, done, heads, u, w)
  {
  }

  lemma AdvanceListed<T(!new)>(g: Graph<T>, dist: map<T, int>, pred: map<T, seq<T>>,
                               seen: seq<T>, done: nat, heads: set<T>, done': nat, heads': set<T>)
    requires Listed(g, dist, pred, seen, done, heads)
    requires forall u, w :: Followed(g, seen, done', heads', u, w) <==> Followed(g, seen, done, heads, u, w)
    ensures Listed(g, dist, pred, seen, done', heads')
  {
  }

  lemma Advance<T(!new)>(g: Graph<T>, s: T, dist: map<T, int>, sigma: map<T, nat>, pred: map<T, seq<T>>,
                         seen: seq<T>, done: nat, heads: set<T>)
    requires Searching(g, s, dist, sigma, pred, seen, done, heads) && done < |seen|
    requires seen[done] in g && heads == g[seen[done]]
    ensures Searching(g, s, dist, sigma, pred, seen, done + 1, {})
  {
    hide Closed, InLayers, Grown, Listed, Tallied, Followed;
    AdvanceLayers(g, s, dist, seen, done);
    AdvanceFollowed(g, seen, done, heads);
    AdvanceListed(g, dist, pred, seen, done, heads, done + 1, {});
  }

  /** `pred` lists each parent of `w` once. */
  ghost predicate ListsParents<T(!new)>(g: Graph<T>, dist: map<T, int>, pred: map<T, seq<T>>, w: T) {
    w in dist && w in pred && Distinct(pred[w]) && forall u :: u in pred[w] <==> u in Parents(g, dist, w)
  }

  /** The outcome of the search. */
  ghost predicate SearchResult<T(!new)>(g: Graph<T>, s: T, dist: map<T, int>, sigma: map<T, nat>,
                                        pred: map<T, seq<T>>, stack: seq<T>) {
    && Layered(g, s, dist)
    && sigma.Keys == pred.Keys == g.Keys
    && (forall w :: w in g ==> sigma[w] as real == Paths(g, s, dist, w))
    && (forall w :: w in g ==> ListsParents(g, dist, pred, w))
    && Distinct(stack)
    && (forall v :: v in stack <==> v in g && dist[v] >= 0)
    && (forall j, k :: 0 <= j <= k < |stack| ==>
          stack[j] in g && stack[k] in g && dist[stack[j]] <= dist[stack[k]])
  }

  ghost function Count<T>(sigma: map<T, nat>): T -> real {
    (u: T) => if u in sigma then sigma[u] as real else 0.0
  }

  lemma PathSumTotal<T>(sigma: map<T, nat>, ps: seq<T>, members: set<T>)
    requires Distinct(ps) && forall u :: u in members <==> u in ps
    ensures PathSum(sigma, ps) as real == Total(members, Count(sigma))
  {
    if ps == [] {
      assert members == {};
    } else {
      var u := ps[|ps| - 1];
      forall x | x in members - {u}
        ensures x in ps[..|ps| - 1]
      {
        var i :| 0 <= i < |ps| && ps[i] == x;
      }
      PathSumTotal(sigma, ps[..|ps| - 1], members - {u});
      TotalPick(members, u, Count(sigma));
    }
  }

  lemma SigmaByParents<T(!new)>(g: Graph<T>, s: T, dist: map<T, int>, sigma: map<T, nat>, pred: map<T, seq<T>>, w: T)
    requires Tallied(g, s, sigma, pred) && w in g && ListsParents(g, dist, pred, w)
    ensures w in sigma && w in dist
    ensures sigma[w] as real == (if w == s then 1.0 else 0.0) + Total(Parents(g, dist, w), Count(sigma))
  {
    PathSumTotal(sigma, pred[w], Parents(g, dist, w));
  }

  lemma ParentFacts<T(!new)>(g: Graph<T>, s: T, dist: map<T, int>, w: T, u: T)
    requires Layered(g, s, dist) && w in g && u in Parents(g, dist, w)
    ensures u in g && u in dist && w in dist && 0 <= dist[u] == dist[w] - 1
  {
  }

  /** Path counts are exact: each adds up those of the parents, layer by layer. */
  lemma SigmaCounts<T(!new)>(g: Graph<T>, s: T, dist: map<T, int>, sigma: map<T, nat>, pred: map<T, seq<T>>, w: T)
    requires Layered(g, s, dist) && Tallied(g, s, sigma, pred) && w in g && w in dist
    requires forall x :: x in g ==> ListsParents(g, dist, pred, x)
    ensures w in sigma && sigma[w] as real == Paths(g, s, dist, w)
    decreases dist[w]
  {
    hide Layered, Tallied, ListsParents, Parents;
    SigmaByParents(g, s, dist, sigma, pred, w);
    if dist[w] > 0 {
      NotSource(g, s, dist, w);
      WalksByParents(g, s, dist, w);
      forall u | u in Parents(g, dist, w)
        ensures Count(sigma)(u) == WalksFrom(g, s, dist[w] - 1)(u)
      {
        ParentFacts(g, s, dist, w, u);
        SigmaCounts(g, s, dist, sigma, pred, u);
      }
      TotalCongruence(Parents(g, dist, w), Count(sigma), WalksFrom(g, s, dist[w] - 1));
    } else {
      NoParents(g, s, dist, w);
      if dist[w] == 0 {
        SelfWalk(g, s);
      }
    }
  }

  lemma NotSource<T(!new)>(g: Graph<T>, s: T, dist: map<T, int>, w: T)
    requires Layered(g, s, dist) && w in g && dist[w] > 0
    ensures w != s
  {
  }

  lemma NoParents<T(!new)>(g: Graph<T>, s: T, dist: map<T, int>, w: T)
    requires Layered(g, s, dist) && w in g && dist[w] <= 0
    ensures Parents(g, dist, w) == {} && (dist[w] == 0 <==> w == s)
  {
  }

  lemma SearchEnds<T(!new)>(g: Graph<T>, s: T, dist: map<T, int>, sigma: map<T, nat>, pred: map<T, seq<T>>,
                            seen: seq<T>)
    requires Searching(g, s, dist, sigma, pred, seen, |seen|, {})
    ensures SearchResult(g, s, dist, sigma, pred, seen)
  {
    EndLayered(g, s, dist, sigma, pred, seen);
    EndParents(g, s, dist, sigma, pred, seen);
    forall w | w in g
      ensures sigma[w] as real == Paths(g, s, dist, w)
    {
      SigmaCounts(g, s, dist, sigma, pred, w);
    }
  }

  lemma AllFollowed<T(!new)>(g: Graph<T>, s: T, dist: map<T, int>, seen: seq<T>, u: T, w: T)
    requires InLayers(g, s, dist, seen, |seen|) && u in g
    ensures Followed(g, seen, |seen|, {}, u, w) <==> dist[u] >= 0 && Edge(g, u, w)
  {
  }

  lemma EndLayered<T(!new)>(g: Graph<T>, s: T, dist: map<T, int>, sigma: map<T, nat>, pred: map<T, seq<T>>,
                            seen: seq<T>)
    requires Searching(g, s, dist, sigma, pred, seen, |seen|, {})
    ensures Layered(g, s, dist)
  {
    forall u, w | Edge(g, u, w) && dist[u] >= 0
      ensures w in g && 0 <= dist[w] <= dist[u] + 1
    {
      AllFollowed(g, s, dist, seen, u, w);
    }
  }

  lemma EndParents<T(!new)>(g: Graph<T>, s: T, dist: map<T, int>, sigma: map<T, nat>, pred: map<T, seq<T>>,
                            seen: seq<T>)
    requires Searching(g, s, dist, sigma, pred, seen, |seen|, {})
    ensures forall w :: w in g ==> ListsParents(g, dist, pred, w)
  {
    forall w, u | w in g
      ensures u in pred[w] <==> u in Parents(g, dist, w)
    {
      if u in g {
        AllFollowed(g, s, dist, seen, u, w);
      }
    }
  }
}
