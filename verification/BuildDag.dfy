/** Building a graph from a store of nodes by following their references. */
module DagBuilding {
  import opened Collections
  import opened Digraphs
  import opened DepthFirst
  import opened Dags

  /** The lookups a build performs: a finite store, the references of a node and
      the identity of a node. */
  datatype Source<!TId(==), !TNode> = Source(store: map<TId, TNode>, refs: TNode -> seq<TId>, getId: TNode -> TId)
  {
    ghost predicate Consistent() {
      forall id :: id in store ==> getId(store[id]) == id
    }

    /** Edges to the references that the store resolves. */
    ghost function Resolved(): Graph<TId> {
      map id | id in store :: ResolvedRefs(id)
    }

    ghost function ResolvedRefs(id: TId): set<TId>
      requires id in store
    {
      set r | r in refs(store[id]) && r in store
    }
  }

  /** An error is genuine: the id is unresolved and is the root or referenced from
      a reached node, or the trail is a walk from the root that closes a cycle. */
  ghost predicate Justified<TId(!new), TNode>(src: Source<TId, TNode>, root: TId, e: BuildError<TId>) {
    match e
    case NodeNotFound(id) =>
      id !in src.store
      && (id == root || exists u :: u in src.store && Reaches(src.Resolved(), root, u) && id in src.refs(src.store[u]))
    case Circular(id, trail) =>
      && OnCycle(src.Resolved(), id)
      && |trail| >= 2 && Walk(src.Resolved(), root, id, trail) && id in trail[..|trail| - 1]
  }

  ghost predicate NoCircular<TId>(errors: seq<BuildError<TId>>) {
    forall i :: 0 <= i < |errors| ==> errors[i].NodeNotFound?
  }

  ghost predicate AllJustified<TId(!new), TNode>(src: Source<TId, TNode>, root: TId, errors: seq<BuildError<TId>>) {
    forall i :: 0 <= i < |errors| ==> Justified(src, root, errors[i])
  }

  /** Every unresolved reference of a finished node has been reported. */
  ghost predicate Reported<TId, TNode>(src: Source<TId, TNode>, order: seq<TId>, errors: seq<BuildError<TId>>) {
    forall v, r :: v in order && v in src.store && r in src.refs(src.store[v]) && r !in src.store ==>
      NodeNotFound(r) in errors
  }

  /** The error says that the edge from u to w closes a cycle. */
  ghost predicate Closing<TId>(e: BuildError<TId>, u: TId, w: TId) {
    && e.Circular? && e.id == w && |e.trail| >= 2
    && e.trail[|e.trail| - 2] == u && e.trail[|e.trail| - 1] == w
  }

  ghost predicate Closes<TId>(errors: seq<BuildError<TId>>, u: TId, w: TId) {
    exists i :: 0 <= i < |errors| && Closing(errors[i], u, w)
  }

  /** Every edge of the j-th finished node leads to an earlier one, or has been
      reported as closing a cycle. */
  ghost predicate BrokenAt<TId(!new)>(g: Graph<TId>, order: seq<TId>, errors: seq<BuildError<TId>>, j: int)
    requires 0 <= j < |order|
  {
    forall w :: Edge(g, order[j], w) ==> w in order[..j] || Closes(errors, order[j], w)
  }

  ghost predicate Broken<TId(!new)>(g: Graph<TId>, order: seq<TId>, errors: seq<BuildError<TId>>) {
    forall j :: 0 <= j < |order| ==> BrokenAt(g, order, errors, j)
  }

  /** The edges that have not been reported. */
  ghost function Unreported<TId>(edges: Graph<TId>, errors: seq<BuildError<TId>>): Graph<TId> {
    map v | v in edges :: set w | w in edges[v] && !Closes(errors, v, w)
  }

  lemma ClosesMore<TId>(errors: seq<BuildError<TId>>, errors': seq<BuildError<TId>>, u: TId, w: TId)
    requires errors <= errors' && Closes(errors, u, w)
    ensures Closes(errors', u, w)
  {
  }

  lemma BrokenMore<TId(!new)>(g: Graph<TId>, order: seq<TId>, errors: seq<BuildError<TId>>, e: BuildError<TId>)
    requires Broken(g, order, errors)
    ensures Broken(g, order, errors + [e])
  {
    hide Closes;
    forall j | 0 <= j < |order|
      ensures BrokenAt(g, order, errors + [e], j)
    {
      assert BrokenAt(g, order, errors, j);
      forall w | Edge(g, order[j], w) && Closes(errors, order[j], w)
        ensures Closes(errors + [e], order[j], w)
      {
        ClosesMore(errors, errors + [e], order[j], w);
      }
    }
  }

  lemma BrokenLeave<TId(!new)>(g: Graph<TId>, order: seq<TId>, errors: seq<BuildError<TId>>, id: TId)
    requires Broken(g, order, errors)
    requires forall w :: Edge(g, id, w) ==> w in order || Closes(errors, id, w)
    ensures Broken(g, order + [id], errors)
  {
    hide Closes;
    var more := order + [id];
    forall j | 0 <= j < |more|
      ensures BrokenAt(g, more, errors, j)
    {
      if j < |order| {
        assert BrokenAt(g, order, errors, j) && more[..j] == order[..j];
      } else {
        assert more[..j] == order;
      }
    }
  }

  /** Without the reported edges, what has been finished has no cycle. */
  lemma ReportsBreakCycles<TId(!new)>(g: Graph<TId>, edges: Graph<TId>, order: seq<TId>, errors: seq<BuildError<TId>>)
    requires Broken(g, order, errors) && Subgraph(edges, g) && forall v :: v in edges ==> v in order
    ensures Acyclic(Unreported(edges, errors))
  {
    hide Closes, Reaches;
    var h := Unreported(edges, errors);
    forall j, w | 0 <= j < |order| && Edge(h, order[j], w)
      ensures w in order[..j]
    {
      assert Edge(edges, order[j], w);
      assert BrokenAt(g, order, errors, j);
    }
    forall v | OnCycle(h, v)
      ensures false
    {
      assert v in h;
      var i :| 0 <= i < |order| && order[i] == v;
      OrderedNotAboveCycle(h, order, i);
    }
  }

  ghost predicate Building<TId(!new), TNode>(src: Source<TId, TNode>, root: TId, nodes: map<TId, TNode>,
                                             edges: Graph<TId>, path: seq<TId>, visited: set<TId>, order: seq<TId>,
                                             errors: seq<BuildError<TId>>) {
    && Search(src.Resolved(), root, path, visited, order, NoCircular(errors))
    && Copied(src.store, src.Resolved(), nodes, edges, visited, order)
    && AllJustified(src, root, errors)
    && Reported(src, order, errors)
    && Broken(src.Resolved(), order, errors)
    && Distinct(order)
  }

  // ----- every occurrence of an unresolved reference is reported once

  ghost function Count<T>(list: seq<T>, x: T): nat { multiset(list)[x] }

  /** How often the nodes of the list refer to `r`. */
  ghost function Occurrences<TId, TNode>(src: Source<TId, TNode>, nodes: seq<TId>, r: TId): nat {
    if nodes == [] then 0
    else
      var n := |nodes| - 1;
      Occurrences(src, nodes[..n], r) + (if nodes[n] in src.store then Count(src.refs(src.store[nodes[n]]), r) else 0)
  }

  /** Between two error lists, each unresolved id has been reported as often as the
      finished nodes refer to it, and as often as it occurs in `visits`. */
  ghost predicate Tally<TId(!new), TNode>(src: Source<TId, TNode>, errors: seq<BuildError<TId>>,
                                          errors': seq<BuildError<TId>>, finished: seq<TId>, visits: seq<TId>) {
    forall r :: r !in src.store ==>
      Count(errors', NodeNotFound(r))
      == Count(errors, NodeNotFound(r)) + Occurrences(src, finished, r) + Count(visits, r)
  }

  lemma CountConcat<T>(a: seq<T>, b: seq<T>, x: T)
    ensures Count(a + b, x) == Count(a, x) + Count(b, x)
  {
  }

  lemma CountOnly<T>(x: T, y: T)
    ensures Count([y], x) == (if x == y then 1 else 0) && Count([], x) == 0
  {
  }

  lemma OccurrencesLast<TId, TNode>(src: Source<TId, TNode>, nodes: seq<TId>, id: TId, r: TId)
    requires id in src.store
    ensures Occurrences(src, nodes + [id], r) == Occurrences(src, nodes, r) + Count(src.refs(src.store[id]), r)
  {
    hide Count;
    assert (nodes + [id])[..|nodes|] == nodes;
  }

  lemma {:induction false} OccurrencesConcat<TId, TNode>(src: Source<TId, TNode>, a: seq<TId>, b: seq<TId>, r: TId)
    ensures Occurrences(src, a + b, r) == Occurrences(src, a, r) + Occurrences(src, b, r)
  {
    hide Count;
    if b == [] {
      assert a + b == a;
    } else {
      var n := |b| - 1;
      OccurrencesConcat(src, a, b[..n], r);
      assert (a + b)[..|a + b| - 1] == a + b[..n];
    }
  }

  lemma TallyStart<TId(!new), TNode>(src: Source<TId, TNode>, errors: seq<BuildError<TId>>)
    ensures Tally(src, errors, errors, [], [])
  {
  }

  /** A visit that finds a known node, and what it may report about it. */
  lemma TallyKnown<TId(!new), TNode>(src: Source<TId, TNode>, errors: seq<BuildError<TId>>, more: seq<BuildError<TId>>,
                                     id: TId)
    requires id in src.store && NoMissing(more)
    ensures Tally(src, errors, errors + more, [], [id])
  {
    hide Count;
    forall r | r !in src.store
      ensures Count(errors + more, NodeNotFound(r)) == Count(errors, NodeNotFound(r)) && Count([id], r) == 0
    {
      CountConcat(errors, more, NodeNotFound(r));
      CountAbsent(more, NodeNotFound(r));
      CountOnly(r, id);
    }
  }

  ghost predicate NoMissing<TId>(errors: seq<BuildError<TId>>) {
    forall i :: 0 <= i < |errors| ==> errors[i].Circular?
  }

  lemma CountAbsent<T>(list: seq<T>, x: T)
    requires x !in list
    ensures Count(list, x) == 0
  {
  }

  lemma TallyMissing<TId(!new), TNode>(src: Source<TId, TNode>, errors: seq<BuildError<TId>>, id: TId)
    ensures Tally(src, errors, errors + [NodeNotFound(id)], [], [id])
  {
    hide Count;
    forall r | r !in src.store
      ensures Count(errors + [NodeNotFound(id)], NodeNotFound(r)) == Count(errors, NodeNotFound(r)) + Count([id], r)
    {
      CountConcat(errors, [NodeNotFound(id)], NodeNotFound(r));
      CountOnly(NodeNotFound(r), NodeNotFound(id));
      CountOnly(r, id);
    }
  }

  lemma TallyTrans<TId(!new), TNode>(src: Source<TId, TNode>, a: seq<BuildError<TId>>, b: seq<BuildError<TId>>,
                                     c: seq<BuildError<TId>>, f: seq<TId>, f': seq<TId>, x: seq<TId>, x': seq<TId>)
    requires Tally(src, a, b, f, x) && Tally(src, b, c, f', x')
    ensures Tally(src, a, c, f + f', x + x')
  {
    hide Count, Occurrences;
    forall r | r !in src.store
      ensures Count(c, NodeNotFound(r))
           == Count(a, NodeNotFound(r)) + Occurrences(src, f + f', r) + Count(x + x', r)
    {
      OccurrencesConcat(src, f, f', r);
      CountConcat(x, x', r);
    }
  }

  /** All references of a node visited: the node is finished. */
  lemma TallyFinish<TId(!new), TNode>(src: Source<TId, TNode>, a: seq<BuildError<TId>>, b: seq<BuildError<TId>>,
                                      f: seq<TId>, id: TId)
    requires id in src.store && Tally(src, a, b, f, src.refs(src.store[id]))
    ensures Tally(src, a, b, f + [id], [id])
  {
    hide Count, Occurrences;
    forall r | r !in src.store
      ensures Count(b, NodeNotFound(r))
           == Count(a, NodeNotFound(r)) + Occurrences(src, f + [id], r) + Count([id], r)
    {
      OccurrencesLast(src, f, id, r);
      CountOnly(r, id);
    }
  }

  /** What one visit of `id` does to the books of the search: they only grow, the id
      is finished, or reported as unresolved or as closing a cycle, and the tally adds up. */
  ghost predicate VisitDone<TId(!new), TNode>(src: Source<TId, TNode>, id: TId, path: seq<TId>,
                                              visited: set<TId>, order: seq<TId>, errors: seq<BuildError<TId>>,
                                              visited': set<TId>, order': seq<TId>, errors': seq<BuildError<TId>>) {
    && visited <= visited' && order <= order' && errors <= errors'
    && Tally(src, errors, errors', order'[|order|..], [id])
    && if id in src.store then
         && id in visited' && (NoCircular(errors') ==> id in order')
         && (id in order' || (path != [] && Closes(errors', path[|path| - 1], id)))
       else NodeNotFound(id) in errors'
  }

  /** The edges of the nodes on the path are left alone. */
  ghost predicate PathKept<TId>(path: seq<TId>, edges: Graph<TId>, edges': Graph<TId>) {
    forall v :: v in path ==> v in edges && v in edges' && edges'[v] == edges[v]
  }

  method BuildVisit<TId(==, !new), TNode>(id: TId, src: Source<TId, TNode>, dag: Dag<TId, TNode>,
                                          path: seq<TId>, visited: set<TId>, errors: seq<BuildError<TId>>,
                                          ghost root: TId, ghost order: seq<TId>)
    returns (visited': set<TId>, errors': seq<BuildError<TId>>, ghost order': seq<TId>)
    requires src.Consistent() && dag.Valid() && dag.getId == src.getId
    requires Building(src, root, dag.nodes, dag.outgoing, path, visited, order, errors)
    requires path == [] ==> id == root
    requires path != [] ==> path[|path| - 1] in src.store && id in src.refs(src.store[path[|path| - 1]])
    modifies dag
    ensures dag.Valid()
    ensures Building(src, root, dag.nodes, dag.outgoing, path, visited', order', errors')
    ensures VisitDone(src, id, path, visited, order, errors, visited', order', errors')
    ensures PathKept(path, old(dag.outgoing), dag.outgoing)
    decreases src.store.Keys - visited
  {
    hide Building, NoCircular, AboveCycle, AllJustified, Inverse, Closes, Tally, VisitDone, PathKept, RefsHandled,
         HeadsSoFar, Progress, Dag.Valid;
    visited', errors', order' := visited, errors, order;
    BuildingFacts(src, root, dag.nodes, dag.outgoing, path, visited, order, errors);
    PathSame(path, dag.outgoing);
    if id in path {
      errors' := errors + [Circular(id, path + [id])];
      ReportCircular(src, root, dag.nodes, dag.outgoing, path, visited, order, errors, id);
      return;
    }
    if id in visited {
      AlreadyVisited(src, root, dag.nodes, dag.outgoing, path, visited, order, errors, id);
      return;
    }
    if id !in src.store {
      errors' := errors + [NodeNotFound(id)];
      ReportMissing(src, root, dag.nodes, dag.outgoing, path, visited, order, errors, id);
      return;
    }
    var node := src.store[id];
    visited' := visited + {id};
    EnterNode(src, root, dag.nodes, dag.outgoing, path, visited, order, errors, id);
    PathBeside(path, dag.outgoing, dag.outgoing, id, {});
    dag.AddNode(node);
    var refs := src.refs(node);
    ghost var path' := path + [id];
    ProgressStart(src, id, refs, order, errors, visited');
    if |refs| > 0 {
      var i := 0;
      while i < |refs|
        invariant 0 <= i <= |refs| && dag.Valid() && visited + {id} <= visited'
        invariant Building(src, root, dag.nodes, dag.outgoing, path', visited', order', errors')
        invariant Progress(src, id, refs, i, order, errors, visited', order', errors')
        invariant id in dag.outgoing && dag.outgoing[id] == HeadsSoFar(src, refs, i)
        invariant PathKept(path, old(dag.outgoing), dag.outgoing)
      {
        var ref := refs[i];
        ghost var before, seen, done, known := dag.outgoing, visited', order', errors';
        assert path'[|path'| - 1] == id;
        visited', errors', order' := BuildVisit(ref, src, dag, path + [id], visited', errors', root, order');
        BuildingFacts(src, root, dag.nodes, dag.outgoing, path', visited', order', errors');
        PathLonger(path, id, old(dag.outgoing), before, dag.outgoing);
        ProgressStep(src, id, path', refs, i, order, errors, seen, done, known, visited', order', errors');
        if ref in dag.nodes {
          LinkRef(src, root, dag.nodes, dag.outgoing, path', visited', order', errors', id, dag.outgoing[id] + {ref});
          PathBeside(path, old(dag.outgoing), dag.outgoing, id, dag.outgoing[id] + {ref});
          var added := dag.AddEdge(id, ref);
        }
        i := i + 1;
      }
    }
    ProgressEnd(src, id, path, visited, order, errors, visited', order', errors');
    LeaveNode(src, root, dag.nodes, dag.outgoing, path, visited', order', errors', id);
    order' := order' + [id];
  }

  lemma PathSame<TId>(path: seq<TId>, edges: Graph<TId>)
    requires forall v :: v in path ==> v in edges
    ensures PathKept(path, edges, edges)
  {
  }

  lemma PathBeside<TId>(path: seq<TId>, before: Graph<TId>, edges: Graph<TId>, id: TId, heads: set<TId>)
    requires PathKept(path, before, edges) && id !in path
    ensures PathKept(path, before, edges[id := heads])
  {
  }

  lemma PathLonger<TId>(path: seq<TId>, id: TId, first: Graph<TId>, before: Graph<TId>, edges: Graph<TId>)
    requires PathKept(path, first, before) && PathKept(path + [id], before, edges)
    ensures PathKept(path, first, edges) && id in before && id in edges && edges[id] == before[id]
  {
    assert id in path + [id];
    assert forall v :: v in path ==> v in path + [id];
  }

  /** The state after the first i references of a node. */
  ghost predicate Progress<TId(!new), TNode>(src: Source<TId, TNode>, id: TId, refs: seq<TId>, i: nat,
                                             order: seq<TId>, errors: seq<BuildError<TId>>,
                                             visited': set<TId>, order': seq<TId>, errors': seq<BuildError<TId>>) {
    && i <= |refs| && order <= order' && errors <= errors'
    && Tally(src, errors, errors', order'[|order|..], refs[..i])
    && RefsHandled(src, id, refs, i, visited', order', errors')
  }

  lemma ProgressStart<TId(!new), TNode>(src: Source<TId, TNode>, id: TId, refs: seq<TId>, order: seq<TId>,
                                        errors: seq<BuildError<TId>>, visited: set<TId>)
    ensures Progress(src, id, refs, 0, order, errors, visited, order, errors) && HeadsSoFar(src, refs, 0) == {}
  {
    hide Tally;
    assert order[|order|..] == [] && refs[..0] == [];
    TallyStart(src, errors);
  }

  lemma ProgressStep<TId(!new), TNode>(src: Source<TId, TNode>, id: TId, path: seq<TId>, refs: seq<TId>, i: nat,
                                       order: seq<TId>, errors: seq<BuildError<TId>>,
                                       seen: set<TId>, done: seq<TId>, known: seq<BuildError<TId>>,
                                       visited': set<TId>, order': seq<TId>, errors': seq<BuildError<TId>>)
    requires Progress(src, id, refs, i, order, errors, seen, done, known) && i < |refs|
    requires path != [] && path[|path| - 1] == id
    requires VisitDone(src, refs[i], path, seen, done, known, visited', order', errors')
    ensures seen <= visited' && (refs[i] in src.store ==> refs[i] in visited')
    ensures Progress(src, id, refs, i + 1, order, errors, visited', order', errors')
    ensures HeadsSoFar(src, refs, i + 1)
         == if refs[i] in src.store then HeadsSoFar(src, refs, i) + {refs[i]} else HeadsSoFar(src, refs, i)
  {
    hide Tally, NoCircular, Closes, RefsHandled, HeadsSoFar;
    TallyTrans(src, errors, known, errors', done[|order|..], order'[|done|..], refs[..i], [refs[i]]);
    assert order'[|order|..] == done[|order|..] + order'[|done|..] && refs[..i + 1] == refs[..i] + [refs[i]];
    HandleRef(src, id, refs, i, seen, done, known, visited', order', errors');
  }

  lemma ProgressEnd<TId(!new), TNode>(src: Source<TId, TNode>, id: TId, path: seq<TId>, visited: set<TId>,
                                      order: seq<TId>, errors: seq<BuildError<TId>>,
                                      visited': set<TId>, order': seq<TId>, errors': seq<BuildError<TId>>)
    requires id in src.store && visited + {id} <= visited'
    requires var refs := src.refs(src.store[id]);
      Progress(src, id, refs, |refs|, order, errors, visited', order', errors')
    ensures var refs := src.refs(src.store[id]); RefsHandled(src, id, refs, |refs|, visited', order', errors')
    ensures VisitDone(src, id, path, visited, order, errors, visited', order' + [id], errors')
  {
    hide Tally, RefsHandled;
    var refs := src.refs(src.store[id]);
    assert refs[..|refs|] == refs;
    TallyFinish(src, errors, errors', order'[|order|..], id);
    assert (order' + [id])[|order|..] == order'[|order|..] + [id];
  }

  ghost function HeadsSoFar<TId, TNode>(src: Source<TId, TNode>, refs: seq<TId>, i: nat): set<TId>
    requires i <= |refs|
  {
    set r | r in refs[..i] && r in src.store
  }

  /** The first i references have been visited, or reported. */
  ghost predicate RefsHandled<TId, TNode>(src: Source<TId, TNode>, id: TId, refs: seq<TId>, i: nat,
                                          visited: set<TId>, order: seq<TId>, errors: seq<BuildError<TId>>) {
    && i <= |refs|
    && forall k :: 0 <= k < i ==>
         if refs[k] in src.store then
           && refs[k] in visited && (NoCircular(errors) ==> refs[k] in order)
           && (refs[k] in order || Closes(errors, id, refs[k]))
         else NodeNotFound(refs[k]) in errors
  }

  lemma BuildingFacts<TId(!new), TNode>(src: Source<TId, TNode>, root: TId, nodes: map<TId, TNode>, edges: Graph<TId>,
                                        path: seq<TId>, visited: set<TId>, order: seq<TId>,
                                        errors: seq<BuildError<TId>>)
    requires Building(src, root, nodes, edges, path, visited, order, errors)
    ensures nodes.Keys == visited == edges.Keys && visited <= src.store.Keys
    ensures forall v :: v in order <==> v in visited && v !in path
    ensures forall v :: v in path ==> v in visited
  {
  }

  lemma FollowRef<TId(!new), TNode>(src: Source<TId, TNode>, root: TId, path: seq<TId>, id: TId)
    requires path == [] ==> id == root
    requires path != [] ==> path[|path| - 1] in src.store && id in src.refs(src.store[path[|path| - 1]])
    requires id in src.store
    ensures Next(src.Resolved(), root, path, id)
  {
  }

  lemma ReportCircular<TId(!new), TNode>(src: Source<TId, TNode>, root: TId, nodes: map<TId, TNode>, edges: Graph<TId>,
                                         path: seq<TId>, visited: set<TId>, order: seq<TId>,
                                         errors: seq<BuildError<TId>>, id: TId)
    requires Building(src, root, nodes, edges, path, visited, order, errors) && id in path
    requires path[|path| - 1] in src.store && id in src.refs(src.store[path[|path| - 1]])
    ensures Building(src, root, nodes, edges, path, visited, order, errors + [Circular(id, path + [id])])
    ensures VisitDone(src, id, path, visited, order, errors, visited, order, errors + [Circular(id, path + [id])])
  {
    hide Tally, Reaches, Search, Copied, Broken, Distinct;
    var e := Circular(id, path + [id]);
    var errors' := errors + [e];
    assert errors'[|errors|] == e && Closing(e, path[|path| - 1], id);
    BuildingFacts(src, root, nodes, edges, path, visited, order, errors);
    assert id in visited;
    TallyKnown(src, errors, [e], id);
    assert order[|order|..] == [];
    BrokenMore(src.Resolved(), order, errors, e);
    FollowRef(src, root, path, id);
    MetOnPath(src.Resolved(), root, path, visited, order, NoCircular(errors), id);
    assert (path + [id])[..|path|] == path;
    Soil(src.Resolved(), root, path, visited, order, NoCircular(errors));
  }

  lemma ReportMissing<TId(!new), TNode>(src: Source<TId, TNode>, root: TId, nodes: map<TId, TNode>, edges: Graph<TId>,
                                        path: seq<TId>, visited: set<TId>, order: seq<TId>,
                                        errors: seq<BuildError<TId>>, id: TId)
    requires Building(src, root, nodes, edges, path, visited, order, errors)
    requires path == [] ==> id == root
    requires path != [] ==> path[|path| - 1] in src.store && id in src.refs(src.store[path[|path| - 1]])
    requires id !in src.store
    ensures Building(src, root, nodes, edges, path, visited, order, errors + [NodeNotFound(id)])
    ensures VisitDone(src, id, path, visited, order, errors, visited, order, errors + [NodeNotFound(id)])
  {
    var e := NodeNotFound(id);
    var errors' := errors + [e];
    assert errors'[|errors|] == e;
    TallyMissing(src, errors, id);
    assert order[|order|..] == [];
    BrokenMore(src.Resolved(), order, errors, e);
    assert NoCircular(errors') == NoCircular(errors) by {
      assert forall i :: 0 <= i < |errors| ==> errors'[i] == errors[i];
    }
    if path != [] {
      var u := path[|path| - 1];
      assert u in path && u in visited;
    }
  }

  lemma AlreadyVisited<TId(!new), TNode>(src: Source<TId, TNode>, root: TId, nodes: map<TId, TNode>, edges: Graph<TId>,
                                         path: seq<TId>, visited: set<TId>, order: seq<TId>,
                                         errors: seq<BuildError<TId>>, id: TId)
    requires Building(src, root, nodes, edges, path, visited, order, errors) && id in visited && id !in path
    ensures VisitDone(src, id, path, visited, order, errors, visited, order, errors)
  {
    BuildingFacts(src, root, nodes, edges, path, visited, order, errors);
    TallyKnown(src, errors, [], id);
    assert errors + [] == errors && order[|order|..] == [];
  }

  lemma EnterNode<TId(!new), TNode>(src: Source<TId, TNode>, root: TId, nodes: map<TId, TNode>, edges: Graph<TId>,
                                    path: seq<TId>, visited: set<TId>, order: seq<TId>,
                                    errors: seq<BuildError<TId>>, id: TId)
    requires Building(src, root, nodes, edges, path, visited, order, errors)
    requires path == [] ==> id == root
    requires path != [] ==> path[|path| - 1] in src.store && id in src.refs(src.store[path[|path| - 1]])
    requires id in src.store && id !in visited
    ensures Building(src, root, nodes[id := src.store[id]], edges[id := {}], path + [id], visited + {id}, order, errors)
  {
    FollowRef(src, root, path, id);
    Enter(src.Resolved(), root, path, visited, order, NoCircular(errors), id);
    CopyStart(src.store, src.Resolved(), nodes, edges, visited, order, id);
  }

  lemma HandleRef<TId(!new), TNode>(src: Source<TId, TNode>, id: TId, refs: seq<TId>, i: nat,
                                    visited: set<TId>, order: seq<TId>, errors: seq<BuildError<TId>>,
                                    visited': set<TId>, order': seq<TId>, errors': seq<BuildError<TId>>)
    requires RefsHandled(src, id, refs, i, visited, order, errors) && i < |refs|
    requires visited <= visited' && errors <= errors' && order <= order'
    requires refs[i] in src.store ==> refs[i] in visited' && (NoCircular(errors') ==> refs[i] in order')
    requires refs[i] in src.store ==> refs[i] in order' || Closes(errors', id, refs[i])
    requires refs[i] !in src.store ==> NodeNotFound(refs[i]) in errors'
    ensures RefsHandled(src, id, refs, i + 1, visited', order', errors')
    ensures HeadsSoFar(src, refs, i + 1)
         == if refs[i] in src.store then HeadsSoFar(src, refs, i) + {refs[i]} else HeadsSoFar(src, refs, i)
  {
  }

  lemma LinkRef<TId(!new), TNode>(src: Source<TId, TNode>, root: TId, nodes: map<TId, TNode>, edges: Graph<TId>,
                                  path: seq<TId>, visited: set<TId>, order: seq<TId>,
                                  errors: seq<BuildError<TId>>, id: TId, heads: set<TId>)
    requires Building(src, root, nodes, edges, path, visited, order, errors) && id in path
    ensures Building(src, root, nodes, edges[id := heads], path, visited, order, errors)
  {
  }

  lemma LeaveNode<TId(!new), TNode>(src: Source<TId, TNode>, root: TId, nodes: map<TId, TNode>, edges: Graph<TId>,
                                    path: seq<TId>, visited: set<TId>, order: seq<TId>,
                                    errors: seq<BuildError<TId>>, id: TId)
    requires Building(src, root, nodes, edges, path + [id], visited, order, errors) && id in src.store
    requires id in edges && edges[id] == HeadsSoFar(src, src.refs(src.store[id]), |src.refs(src.store[id])|)
    requires RefsHandled(src, id, src.refs(src.store[id]), |src.refs(src.store[id])|, visited, order, errors)
    ensures Building(src, root, nodes, edges, path, visited, order + [id], errors)
  {
    var refs := src.refs(src.store[id]);
    assert refs[..|refs|] == refs;
    assert edges[id] == src.Resolved()[id];
    forall w | Edge(src.Resolved(), id, w)
      ensures w in visited && (NoCircular(errors) ==> w in order) && (w in order || Closes(errors, id, w))
    {
      var k :| 0 <= k < |refs| && refs[k] == w;
    }
    BrokenLeave(src.Resolved(), order, errors, id);
    assert id in path + [id];
    Finish(src.Resolved(), root, path, visited, order, NoCircular(errors), id);
    CopyDone(src.store, src.Resolved(), nodes, edges, visited, order, id);
    forall v, r | v in order + [id] && v in src.store && r in src.refs(src.store[v]) && r !in src.store
      ensures NodeNotFound(r) in errors
    {
      if v == id {
        var k :| 0 <= k < |refs| && refs[k] == r;
      } else {
        assert v in order;
      }
    }
  }

  /** A reached node, or the root itself, is or references something unresolved. */
  ghost predicate Dangling<TId(!new), TNode>(src: Source<TId, TNode>, root: TId, r: TId) {
    r !in src.store
    && (r == root || exists u :: u in src.store && Reaches(src.Resolved(), root, u) && r in src.refs(src.store[u]))
  }

  /** Build the graph of everything the root reaches through resolved references. */
  method BuildDag<TId(==, !new), TNode>(rootId: TId, src: Source<TId, TNode>)
    returns (dag: Dag<TId, TNode>, errors: seq<BuildError<TId>>, ghost order: seq<TId>)
    requires src.Consistent()
    ensures fresh(dag) && dag.Valid()
    ensures rootId !in src.store ==> dag.nodes == map[]
    ensures rootId in src.store ==>
      Restricts(src.store, src.Resolved(), dag.nodes, dag.outgoing, ReachableSet(src.Resolved(), rootId))
    ensures forall r :: NodeNotFound(r) in errors <==> Dangling(src, rootId, r)
    // each node is looked at once, and each occurrence of an unresolved reference reported once
    ensures Distinct(order) && forall v :: v in order <==> v in dag.nodes
    ensures forall r :: r !in src.store ==>
      Count(errors, NodeNotFound(r)) == Occurrences(src, order, r) + (if r == rootId then 1 else 0)
    ensures AllJustified(src, rootId, errors)
    ensures NoCircular(errors) <==> !AboveCycle(src.Resolved(), rootId)
    ensures Acyclic(Unreported(dag.outgoing, errors))
    ensures errors == [] ==> Acyclic(dag.outgoing)
  {
    hide Building, AboveCycle, NoCircular, Restricts, Dangling, Inverse, Tally, Occurrences, Count;
    dag := new Dag(src.getId);
    BuildStart(src, rootId, dag.nodes, dag.outgoing);
    var visited: set<TId>;
    visited, errors, order := BuildVisit(rootId, src, dag, [], {}, [], rootId, []);
    assert order[0..] == order;
    TallyOutcome(src, errors, order, rootId);
    OrderIsNodes(src, rootId, dag.nodes, dag.outgoing, visited, order, errors);
    BuildOutcome(src, rootId, dag.nodes, dag.outgoing, visited, order, errors);
  }

  lemma TallyOutcome<TId(!new), TNode>(src: Source<TId, TNode>, errors: seq<BuildError<TId>>, order: seq<TId>,
                                       root: TId)
    requires Tally(src, [], errors, order, [root])
    ensures forall r :: r !in src.store ==>
      Count(errors, NodeNotFound(r)) == Occurrences(src, order, r) + (if r == root then 1 else 0)
  {
    hide Occurrences, Count;
    forall r | r !in src.store
      ensures Count(errors, NodeNotFound(r)) == Occurrences(src, order, r) + (if r == root then 1 else 0)
    {
      CountOnly(r, root);
      CountOnly(NodeNotFound(r), NodeNotFound(root));
    }
  }

  lemma OrderIsNodes<TId(!new), TNode>(src: Source<TId, TNode>, root: TId, nodes: map<TId, TNode>, edges: Graph<TId>,
                                       visited: set<TId>, order: seq<TId>, errors: seq<BuildError<TId>>)
    requires Building(src, root, nodes, edges, [], visited, order, errors)
    ensures Distinct(order) && forall v :: v in order <==> v in nodes
  {
  }

  lemma BuildStart<TId(!new), TNode>(src: Source<TId, TNode>, root: TId, nodes: map<TId, TNode>, edges: Graph<TId>)
    requires nodes == map[] && edges == map[]
    ensures Building(src, root, nodes, edges, [], {}, [], [])
  {
  }

  lemma BuildOutcome<TId(!new), TNode>(src: Source<TId, TNode>, root: TId, nodes: map<TId, TNode>, edges: Graph<TId>,
                                       visited: set<TId>, order: seq<TId>, errors: seq<BuildError<TId>>)
    requires Building(src, root, nodes, edges, [], visited, order, errors)
    requires root in src.store ==> root in visited
    requires root !in src.store ==> NodeNotFound(root) in errors
    ensures root !in src.store ==> nodes == map[]
    ensures root in src.store ==>
      Restricts(src.store, src.Resolved(), nodes, edges, ReachableSet(src.Resolved(), root))
    ensures forall r :: NodeNotFound(r) in errors <==> Dangling(src, root, r)
    ensures NoCircular(errors) <==> !AboveCycle(src.Resolved(), root)
    ensures Acyclic(Unreported(edges, errors))
    ensures errors == [] ==> Acyclic(edges)
    ensures AllJustified(src, root, errors)
  {
    var g := src.Resolved();
    var clean := NoCircular(errors);
    if root in src.store {
      CopyEnd(src.store, g, nodes, edges, root, visited, order, clean);
      SearchEnd(g, root, visited, order, clean);
    } else {
      NothingReached(g, root);
      assert visited == {};
    }
    EdgesWithin(src, nodes, edges, visited, order);
    ReportsBreakCycles(g, edges, order, errors);
    forall r | NodeNotFound(r) in errors
      ensures Dangling(src, root, r)
    {
      var i :| 0 <= i < |errors| && errors[i] == NodeNotFound(r);
      assert Justified(src, root, errors[i]);
    }
    forall r | Dangling(src, root, r)
      ensures NodeNotFound(r) in errors
    {
      if r != root {
        var u :| u in src.store && Reaches(g, root, u) && r in src.refs(src.store[u]);
        assert u in visited && u in order;
      }
    }
    forall i | 0 <= i < |errors| && errors[i].Circular?
      ensures AboveCycle(g, root)
    {
      assert Justified(src, root, errors[i]);
    }
    if errors == [] {
      NothingReported(edges);
    }
  }

  lemma NothingReported<TId(!new)>(edges: Graph<TId>)
    ensures Unreported(edges, []) == edges
  {
    forall v | v in edges
      ensures Unreported(edges, [])[v] == edges[v]
    {
      assert forall w :: !Closes([], v, w);
    }
  }

  lemma EdgesWithin<TId(!new), TNode>(src: Source<TId, TNode>, nodes: map<TId, TNode>, edges: Graph<TId>,
                                      visited: set<TId>, order: seq<TId>)
    requires Copied(src.store, src.Resolved(), nodes, edges, visited, order)
    requires forall v :: v in order <==> v in visited
    ensures Subgraph(edges, src.Resolved()) && forall v :: v in edges ==> v in order
  {
  }

  lemma NothingReached<TId(!new)>(g: Graph<TId>, root: TId)
    requires root !in g
    ensures forall v :: Reaches(g, root, v) ==> v == root
    ensures !AboveCycle(g, root)
  {
    forall v | Reaches(g, root, v)
      ensures v == root
    {
      if v != root {
        var w := FirstStep(g, root, v);
      }
    }
  }
}
