/** The generic directed graph: adjacency kept in both directions, Kahn's sort,
    extraction of a reachable subgraph, and building from a reference store.
    Map and set iteration picks elements in an arbitrary order. */
module Dags {
  import opened Collections
  import opened Digraphs
  import opened DepthFirst

  datatype EdgeOutcome<TId> = Added | SourceMissing(id: TId) | TargetMissing(id: TId)

  datatype TopoSortResult<TId, TNode> =
    | Sorted(sorted: seq<TNode>)
    | CycleDetected(sorted: seq<TNode>, remaining: set<TId>)

  datatype SubgraphResult<TId(==, !new), TNode> = Extracted(dag: Dag<TId, TNode>) | Failed(error: VisitError<TId>)

  datatype VisitError<TId> = NotFound(id: TId) | VisitedTwice(id: TId)

  datatype BuildError<TId> = NodeNotFound(id: TId) | Circular(id: TId, trail: seq<TId>)

  /** Both directions list the same edges. */
  ghost predicate Inverse<TId>(nodes: set<TId>, outgoing: Graph<TId>, incoming: Graph<TId>) {
    && outgoing.Keys == nodes && incoming.Keys == nodes
    && (forall u :: u in nodes ==> outgoing[u] <= nodes && incoming[u] <= nodes)
    && (forall u, v :: u in nodes && v in nodes ==> (v in outgoing[u] <==> u in incoming[v]))
  }

  /** Why a visit fails: its id is missing, or it reaches the id of a cycle. */
  ghost predicate VisitFails<TId(!new)>(nodes: set<TId>, g: Graph<TId>, id: TId, e: VisitError<TId>) {
    match e
    case NotFound(missing) => missing == id && id !in nodes
    case VisitedTwice(twice) => id in nodes && OnCycle(g, twice) && Reaches(g, id, twice)
  }

  lemma MissingFails<TId(!new)>(nodes: set<TId>, g: Graph<TId>, id: TId)
    requires id !in nodes
    ensures VisitFails(nodes, g, id, NotFound(id))
  {
  }

  lemma TwiceFails<TId(!new)>(nodes: set<TId>, g: Graph<TId>, id: TId)
    requires id in nodes && OnCycle(g, id)
    ensures VisitFails(nodes, g, id, VisitedTwice(id))
  {
    ReachesSelf(g, id);
  }

  lemma FailsUp<TId(!new)>(nodes: set<TId>, outgoing: Graph<TId>, incoming: Graph<TId>, id: TId, to: TId,
                           e: VisitError<TId>)
    requires Inverse(nodes, outgoing, incoming) && id in nodes && to in outgoing[id]
    requires VisitFails(nodes, outgoing, to, e)
    ensures VisitFails(nodes, outgoing, id, e)
  {
    if e.VisitedTwice? {
      StepReaches(outgoing, id, to, e.id);
    }
  }

  lemma FailureMeans<TId(!new)>(nodes: set<TId>, g: Graph<TId>, id: TId, e: VisitError<TId>)
    requires VisitFails(nodes, g, id, e)
    ensures e == NotFound(id) <==> id !in nodes
    ensures id in nodes ==> e.VisitedTwice? && OnCycle(g, e.id) && Reaches(g, id, e.id) && AboveCycle(g, id)
  {
  }

  class Dag<TId(==, !new), TNode> {
    const getId: TNode -> TId
    var nodes: map<TId, TNode>
    var outgoing: Graph<TId>
    var incoming: Graph<TId>

    ghost predicate Valid()
      reads this
    {
      && Inverse(nodes.Keys, outgoing, incoming)
      && (forall id :: id in nodes ==> getId(nodes[id]) == id)
    }

    constructor (getId: TNode -> TId)
      ensures Valid() && this.getId == getId
      ensures nodes == map[] && outgoing == map[]
    {
      this.getId := getId;
      nodes, outgoing, incoming := map[], map[], map[];
    }

    method AddNode(node: TNode)
      requires Valid()
      modifies this
      ensures Valid() && nodes == old(nodes)[getId(node) := node]
      ensures outgoing == if getId(node) in old(nodes) then old(outgoing) else old(outgoing)[getId(node) := {}]
    {
      var id := getId(node);
      nodes := nodes[id := node];
      if id !in outgoing {
        outgoing := outgoing[id := {}];
      }
      if id !in incoming {
        incoming := incoming[id := {}];
      }
    }

    method AddEdge(from: TId, to: TId) returns (r: EdgeOutcome<TId>)
      requires Valid()
      modifies this
      ensures Valid() && nodes == old(nodes)
      ensures r == if from !in old(nodes) then SourceMissing(from)
                   else if to !in old(nodes) then TargetMissing(to) else Added
      ensures outgoing == if r.Added? then old(outgoing)[from := old(outgoing)[from] + {to}] else old(outgoing)
    {
      if from !in nodes {
        return SourceMissing(from);
      }
      if to !in nodes {
        return TargetMissing(to);
      }
      outgoing := outgoing[from := outgoing[from] + {to}];
      incoming := incoming[to := incoming[to] + {from}];
      r := Added;
    }
  
    /** Kahn's algorithm. */
    method TopologicalSort() returns (r: TopoSortResult<TId, TNode>)
      requires Valid()
      ensures
        var order := Ids(r.sorted);
        && Distinct(order)
        && (forall i :: 0 <= i < |order| ==> order[i] in nodes && r.sorted[i] == nodes[order[i]])
        && (forall v :: v in order <==> v in nodes && !BelowCycle(outgoing, v))
        && PredecessorsFirst(outgoing, order)
        && (r.Sorted? <==> Acyclic(outgoing))
        && (r.CycleDetected? ==> r.remaining == set v | v in nodes && v !in order)
    {
      hide KahnState, Counted, Reaches, BelowCycle, Acyclic;
      var inDegree: map<TId, int> := CountInDegrees();
      var queue := ZeroDegree(inDegree);
      var sorted: seq<TNode> := [];
      ghost var order: seq<TId> := [];
      KahnStart(nodes.Keys, outgoing, incoming, inDegree, queue);
      while |queue| > 0
        invariant KahnState(nodes.Keys, outgoing, incoming, inDegree, order, queue, {})
        invariant Listed(sorted, order)
        decreases |nodes| - |order|
      {
        var id := queue[0];
        KahnEmit(nodes.Keys, outgoing, incoming, inDegree, order, queue);
        queue := queue[1..];
        sorted := sorted + [nodes[id]];
        order := order + [id];
        var todo := outgoing[id];
        while todo != {}
          invariant todo <= nodes.Keys
          invariant KahnState(nodes.Keys, outgoing, incoming, inDegree, order, queue, todo)
          decreases todo
        {
          var to :| to in todo;
          assert to in nodes;
          KahnRelax(nodes.Keys, outgoing, incoming, inDegree, order, queue, todo, to);
          var newDegree := inDegree[to] - 1;
          inDegree := inDegree[to := newDegree];
          if newDegree == 0 {
            queue := queue + [to];
          }
          todo := todo - {to};
        }
      }
      KahnEnd(nodes.Keys, outgoing, incoming, inDegree, order);
      assert Ids(sorted) == order;
      if |sorted| < |nodes| {
        var remaining := set v | v in nodes && inDegree[v] > 0;
        return CycleDetected(sorted, remaining);
      }
      return Sorted(sorted);
    }

    /** One step of the depth-first extraction; `path` and `visited` are the sets
        the traversal keeps, `order` the nodes it has finished. */
    method Visit(id: TId, sub: Dag<TId, TNode>, path: seq<TId>, visited: set<TId>,
                 ghost root: TId, ghost order: seq<TId>)
      returns (err: Option<VisitError<TId>>, visited': set<TId>, ghost order': seq<TId>)
      requires Valid() && sub.Valid() && sub != this && sub.getId == getId
      requires Search(outgoing, root, path, visited, order, true) && Next(outgoing, root, path, id)
      requires Copied(nodes, outgoing, sub.nodes, sub.outgoing, visited, order)
      modifies sub
      ensures sub.Valid()
      ensures err.Some? ==> VisitFails(nodes.Keys, outgoing, id, err.value)
      ensures err.None? ==>
        && Search(outgoing, root, path, visited', order', true) && id in order' && visited <= visited'
        && Copied(nodes, outgoing, sub.nodes, sub.outgoing, visited', order')
        && (forall v :: v in order ==> v in order')
        && (forall v :: v in path ==>
              v in old(sub.outgoing) && v in sub.outgoing && sub.outgoing[v] == old(sub.outgoing)[v])
      decreases nodes.Keys - visited
    {
      hide Search, Copied, Inverse, AboveCycle, OnCycle, VisitFails, Reaches;
      visited', order' := visited, order;
      ghost var kept := sub.outgoing;
      if id !in nodes {
        MissingFails(nodes.Keys, outgoing, id);
        return Some(NotFound(id)), visited', order';
      }
      SearchFacts(outgoing, root, path, visited, order, true);
      CopyFacts(nodes, outgoing, sub.nodes, sub.outgoing, visited, order);
      if id in path {
        MetOnPath(outgoing, root, path, visited, order, true, id);
        TwiceFails(nodes.Keys, outgoing, id);
        return Some(VisitedTwice(id)), visited', order';
      }
      if id in visited {
        return None, visited', order';
      }
      var path' := path + [id];
      visited' := visited + {id};
      CopyStart(nodes, outgoing, sub.nodes, sub.outgoing, visited, order, id);
      sub.AddNode(nodes[id]);
      HeadsAreNodes(nodes.Keys, outgoing, incoming, id);
      Enter(outgoing, root, path, visited, order, true, id);
      var todo := outgoing[id];
      while todo != {}
        invariant sub.Valid() && todo <= outgoing[id] && visited + {id} <= visited'
        invariant Search(outgoing, root, path', visited', order', true)
        invariant Copied(nodes, outgoing, sub.nodes, sub.outgoing, visited', order')
        invariant id in sub.outgoing && sub.outgoing[id] == outgoing[id] - todo
        invariant forall v :: v in outgoing[id] && v !in todo ==> v in order'
        invariant forall v :: v in order ==> v in order'
        invariant forall v :: v in path ==> v in kept && v in sub.outgoing && sub.outgoing[v] == kept[v]
        decreases todo
      {
        var to :| to in todo;
        ghost var before := sub.outgoing;
        err, visited', order' := Visit(to, sub, path', visited', root, order');
        if err.Some? {
          FailsUp(nodes.Keys, outgoing, incoming, id, to, err.value);
          return err, visited', order';
        }
        assert id in path' && sub.outgoing[id] == before[id];
        SearchFacts(outgoing, root, path', visited', order', true);
        CopyFacts(nodes, outgoing, sub.nodes, sub.outgoing, visited', order');
        CopyEdge(nodes, outgoing, sub.nodes, sub.outgoing, visited', order', id, sub.outgoing[id] + {to});
        var added := sub.AddEdge(id, to);
        todo := todo - {to};
      }
      SearchFacts(outgoing, root, path', visited', order', true);
      CopyFacts(nodes, outgoing, sub.nodes, sub.outgoing, visited', order');
      CopyDone(nodes, outgoing, sub.nodes, sub.outgoing, visited', order', id);
      Finish(outgoing, root, path, visited', order', true, id);
      order' := order' + [id];
      err := None;
    }

    /** The subgraph reachable from `root`. */
    method ReachableSubgraph(root: TId) returns (r: SubgraphResult<TId, TNode>)
      requires Valid()
      ensures r.Extracted? <==> root in nodes && !AboveCycle(outgoing, root)
      ensures r == Failed(NotFound(root)) <==> root !in nodes
      ensures r.Failed? && root in nodes ==>
        r.error.VisitedTwice? && OnCycle(outgoing, r.error.id) && Reaches(outgoing, root, r.error.id)
      ensures r.Extracted? ==>
        && fresh(r.dag) && r.dag.Valid()
        && Restricts(nodes, outgoing, r.dag.nodes, r.dag.outgoing, ReachableSet(outgoing, root))
    {
      hide Search, Inverse, AboveCycle, OnCycle, Restricts, VisitFails;
      var sub := new Dag(getId);
      SearchStart(outgoing, root);
      InverseKeys(nodes.Keys, outgoing, incoming);
      var err, visited, order := Visit(root, sub, [], {}, root, []);
      if err.Some? {
        FailureMeans(nodes.Keys, outgoing, root, err.value);
        return Failed(err.value);
      }
      SearchFacts(outgoing, root, [], visited, order, true);
      CopyEnd(nodes, outgoing, sub.nodes, sub.outgoing, root, visited, order, true);
      return Extracted(sub);
    }

    function Ids(sorted: seq<TNode>): (ids: seq<TId>)
      ensures |ids| == |sorted| && forall i :: 0 <= i < |ids| ==> ids[i] == getId(sorted[i])
    {
      seq(|sorted|, i requires 0 <= i < |sorted| => getId(sorted[i]))
    }

    ghost predicate Listed(sorted: seq<TNode>, order: seq<TId>)
      reads this
    {
      && |sorted| == |order|
      && forall i :: 0 <= i < |order| ==> order[i] in nodes && sorted[i] == nodes[order[i]]
    }

    method CountTargets(u: TId, inDegree: map<TId, int>, ghost counted: set<TId>) returns (r: map<TId, int>)
      requires Valid() && u in nodes
      requires Counted(nodes.Keys, incoming, inDegree, counted, {})
      ensures Counted(nodes.Keys, incoming, r, counted, outgoing[u])
    {
      hide Inverse, Counted;
      HeadsAreNodes(nodes.Keys, outgoing, incoming, u);
      r := inDegree;
      var targets := outgoing[u];
      ghost var heads: set<TId> := {};
      while targets != {}
        invariant targets <= outgoing[u] && heads == outgoing[u] - targets
        invariant Counted(nodes.Keys, incoming, r, counted, heads)
        decreases targets
      {
        var to :| to in targets;
        CountHead(nodes.Keys, incoming, r, counted, heads, to);
        r := r[to := r[to] + 1];
        heads := heads + {to};
        targets := targets - {to};
      }
      assert heads == outgoing[u];
    }

    method CountInDegrees() returns (inDegree: map<TId, int>)
      requires Valid()
      ensures Counted(nodes.Keys, incoming, inDegree, nodes.Keys, {})
    {
      hide Inverse, Counted;
      InverseKeys(nodes.Keys, outgoing, incoming);
      inDegree := map id | id in nodes :: 0;
      CountNothing(nodes.Keys, incoming, inDegree);
      var sources := nodes.Keys;
      ghost var counted: set<TId> := {};
      while sources != {}
        invariant sources <= nodes.Keys
        invariant forall v :: v in nodes ==> (v in counted <==> v !in sources)
        invariant counted <= nodes.Keys
        invariant Counted(nodes.Keys, incoming, inDegree, counted, {})
        decreases sources
      {
        var u :| u in sources;
        inDegree := CountTargets(u, inDegree, counted);
        CountSource(nodes.Keys, outgoing, incoming, inDegree, counted, u);
        counted := counted + {u};
        sources := sources - {u};
      }
      assert counted == nodes.Keys;
    }

    method ZeroDegree(inDegree: map<TId, int>) returns (queue: seq<TId>)
      ensures Distinct(queue)
      ensures forall v :: v in queue <==> v in inDegree && inDegree[v] == 0
    {
      queue := [];
      var ids := inDegree.Keys;
      while ids != {}
        invariant Distinct(queue) && ids <= inDegree.Keys
        invariant forall v :: v in queue <==> v in inDegree && v !in ids && inDegree[v] == 0
        decreases ids
      {
        var id :| id in ids;
        if inDegree[id] == 0 {
          queue := queue + [id];
        }
        ids := ids - {id};
      }
    }
  }

  // ----- copying the reachable part

  /** `part` holds the visited nodes; finished ones already have all their edges. */
  ghost predicate Copied<TId, TNode>(nodes: map<TId, TNode>, g: Graph<TId>, part: map<TId, TNode>, partOut: Graph<TId>,
                                     visited: set<TId>, order: seq<TId>) {
    && part.Keys == visited == partOut.Keys && visited <= nodes.Keys && nodes.Keys <= g.Keys
    && (forall v :: v in visited ==> part[v] == nodes[v])
    && (forall v :: v in order ==> v in visited && partOut[v] == g[v])
  }

  /** The graph cut down to a set of nodes. */
  ghost predicate Restricts<TId(!new), TNode>(nodes: map<TId, TNode>, g: Graph<TId>, part: map<TId, TNode>,
                                              partOut: Graph<TId>, keep: iset<TId>) {
    && (forall v :: v in part <==> v in keep) && part.Keys == partOut.Keys
    && (forall v :: v in part ==> v in nodes && v in g && part[v] == nodes[v] && partOut[v] == g[v])
  }

  ghost function ReachableSet<TId(!new)>(g: Graph<TId>, root: TId): iset<TId> {
    iset v | Reaches(g, root, v)
  }

  lemma CopyFacts<TId, TNode>(nodes: map<TId, TNode>, g: Graph<TId>, part: map<TId, TNode>, partOut: Graph<TId>,
                              visited: set<TId>, order: seq<TId>)
    requires Copied(nodes, g, part, partOut, visited, order)
    ensures part.Keys == visited == partOut.Keys && visited <= nodes.Keys
  {
  }

  lemma CopyStart<TId, TNode>(nodes: map<TId, TNode>, g: Graph<TId>, part: map<TId, TNode>, partOut: Graph<TId>,
                              visited: set<TId>, order: seq<TId>, id: TId)
    requires Copied(nodes, g, part, partOut, visited, order) && id in nodes && id !in visited
    ensures Copied(nodes, g, part[id := nodes[id]], partOut[id := {}], visited + {id}, order)
  {
  }

  lemma CopyEdge<TId, TNode>(nodes: map<TId, TNode>, g: Graph<TId>, part: map<TId, TNode>, partOut: Graph<TId>,
                             visited: set<TId>, order: seq<TId>, id: TId, heads: set<TId>)
    requires Copied(nodes, g, part, partOut, visited, order) && id in visited && id !in order
    ensures Copied(nodes, g, part, partOut[id := heads], visited, order)
  {
  }

  lemma CopyDone<TId, TNode>(nodes: map<TId, TNode>, g: Graph<TId>, part: map<TId, TNode>, partOut: Graph<TId>,
                             visited: set<TId>, order: seq<TId>, id: TId)
    requires Copied(nodes, g, part, partOut, visited, order) && id in visited && partOut[id] == g[id]
    ensures Copied(nodes, g, part, partOut, visited, order + [id])
  {
  }

  lemma CopyEnd<TId(!new), TNode>(nodes: map<TId, TNode>, g: Graph<TId>, part: map<TId, TNode>, partOut: Graph<TId>,
                                  root: TId, visited: set<TId>, order: seq<TId>, clean: bool)
    requires Copied(nodes, g, part, partOut, visited, order)
    requires Search(g, root, [], visited, order, clean) && root in visited
    ensures Restricts(nodes, g, part, partOut, ReachableSet(g, root))
    ensures clean ==> !AboveCycle(g, root)
  {
    SearchEnd(g, root, visited, order, clean);
  }

  lemma InverseKeys<TId>(nodes: set<TId>, outgoing: Graph<TId>, incoming: Graph<TId>)
    requires Inverse(nodes, outgoing, incoming)
    ensures outgoing.Keys == nodes == incoming.Keys
  {
  }

  lemma HeadsAreNodes<TId>(nodes: set<TId>, outgoing: Graph<TId>, incoming: Graph<TId>, u: TId)
    requires Inverse(nodes, outgoing, incoming) && u in nodes
    ensures u in outgoing && outgoing[u] <= nodes
  {
  }

  // ----- Kahn's sort

  /** Predecessors of `v` that have not been emitted. */
  ghost function Waiting<TId>(incoming: Graph<TId>, v: TId, order: seq<TId>): set<TId>
    requires v in incoming
  {
    incoming[v] - Members(order)
  }

  /** Position j of the list is preceded by every source of an edge into it. */
  ghost predicate SourcesBefore<TId(!new)>(g: Graph<TId>, order: seq<TId>, j: int)
    requires 0 <= j < |order|
  {
    forall u :: Edge(g, u, order[j]) ==> u in order[..j]
  }

  ghost predicate PredecessorsFirst<TId(!new)>(g: Graph<TId>, order: seq<TId>) {
    forall j :: 0 <= j < |order| ==> SourcesBefore(g, order, j)
  }

  /** In-degrees while the edges of `counted` sources, and of one more source into
      `heads`, have been counted. */
  ghost predicate Counted<TId>(nodes: set<TId>, incoming: Graph<TId>, inDegree: map<TId, int>,
                               counted: set<TId>, heads: set<TId>) {
    && inDegree.Keys == nodes == incoming.Keys
    && forall v :: v in nodes ==> inDegree[v] == |incoming[v] * counted| + (if v in heads then 1 else 0)
  }

  lemma CountOne<TId>(from: set<TId>, counted: set<TId>, u: TId)
    requires u !in counted
    ensures |from * (counted + {u})| == |from * counted| + (if u in from then 1 else 0)
  {
    if u in from {
      assert from * (counted + {u}) == from * counted + {u};
    } else {
      assert from * (counted + {u}) == from * counted;
    }
  }

  lemma CountSource<TId>(nodes: set<TId>, outgoing: Graph<TId>, incoming: Graph<TId>,
                         inDegree: map<TId, int>, counted: set<TId>, u: TId)
    requires Inverse(nodes, outgoing, incoming) && u in nodes && u !in counted
    requires Counted(nodes, incoming, inDegree, counted, outgoing[u])
    ensures Counted(nodes, incoming, inDegree, counted + {u}, {})
  {
    forall v | v in nodes
      ensures |incoming[v] * (counted + {u})| == |incoming[v] * counted| + (if v in outgoing[u] then 1 else 0)
    {
      CountOne(incoming[v], counted, u);
    }
  }

  lemma CountNothing<TId>(nodes: set<TId>, incoming: Graph<TId>, inDegree: map<TId, int>)
    requires inDegree.Keys == nodes == incoming.Keys && forall v :: v in nodes ==> inDegree[v] == 0
    ensures Counted(nodes, incoming, inDegree, {}, {})
  {
  }

  lemma CountHead<TId>(nodes: set<TId>, incoming: Graph<TId>, inDegree: map<TId, int>,
                       counted: set<TId>, heads: set<TId>, to: TId)
    requires Counted(nodes, incoming, inDegree, counted, heads) && to in nodes && to !in heads
    ensures to in inDegree && Counted(nodes, incoming, inDegree[to := inDegree[to] + 1], counted, heads + {to})
  {
  }

  /** Every in-degree counts the predecessors still waited for, plus one for each
      edge of the last emitted node that is still to be relaxed (`todo`). */
  ghost predicate Degrees<TId>(nodes: set<TId>, incoming: Graph<TId>, inDegree: map<TId, int>,
                               order: seq<TId>, todo: set<TId>) {
    && inDegree.Keys == nodes == incoming.Keys
    && forall v :: v in nodes ==> inDegree[v] == |Waiting(incoming, v, order)| + (if v in todo then 1 else 0)
  }

  /** Emitted and queued nodes, without repetition, are exactly those of in-degree 0. */
  ghost predicate Ready<TId>(nodes: set<TId>, inDegree: map<TId, int>, order: seq<TId>, queue: seq<TId>) {
    && inDegree.Keys == nodes
    && Distinct(order) && Distinct(queue)
    && (forall v :: v in order ==> v in nodes && v !in queue)
    && (forall v :: v in queue ==> v in nodes)
    && (forall v :: v in nodes ==> (inDegree[v] == 0 <==> v in order || v in queue))
  }

  ghost predicate KahnState<TId(!new)>(nodes: set<TId>, outgoing: Graph<TId>, incoming: Graph<TId>,
                                       inDegree: map<TId, int>, order: seq<TId>, queue: seq<TId>, todo: set<TId>) {
    && Degrees(nodes, incoming, inDegree, order, todo)
    && Ready(nodes, inDegree, order, queue)
    && PredecessorsFirst(outgoing, order)
  }

  lemma KahnStart<TId(!new)>(nodes: set<TId>, outgoing: Graph<TId>, incoming: Graph<TId>,
                             inDegree: map<TId, int>, queue: seq<TId>)
    requires Inverse(nodes, outgoing, incoming) && Counted(nodes, incoming, inDegree, nodes, {})
    requires Distinct(queue) && forall v :: v in queue <==> v in inDegree && inDegree[v] == 0
    ensures KahnState(nodes, outgoing, incoming, inDegree, [], queue, {})
  {
    forall v | v in nodes
      ensures Waiting(incoming, v, []) == incoming[v] * nodes
    {
    }
  }

  lemma WaitingLess<TId>(incoming: Graph<TId>, v: TId, order: seq<TId>, id: TId)
    requires v in incoming && id !in order
    ensures |Waiting(incoming, v, order)|
         == |Waiting(incoming, v, order + [id])| + (if id in incoming[v] then 1 else 0)
  {
    if id in incoming[v] {
      assert Waiting(incoming, v, order) == Waiting(incoming, v, order + [id]) + {id};
    } else {
      assert Waiting(incoming, v, order) == Waiting(incoming, v, order + [id]);
    }
  }

  lemma EmitDegrees<TId>(nodes: set<TId>, outgoing: Graph<TId>, incoming: Graph<TId>,
                         inDegree: map<TId, int>, order: seq<TId>, id: TId)
    requires Inverse(nodes, outgoing, incoming) && id in nodes && id !in order
    requires Degrees(nodes, incoming, inDegree, order, {})
    ensures Degrees(nodes, incoming, inDegree, order + [id], outgoing[id])
  {
    forall v | v in nodes
      ensures |Waiting(incoming, v, order)|
           == |Waiting(incoming, v, order + [id])| + (if v in outgoing[id] then 1 else 0)
    {
      WaitingLess(incoming, v, order, id);
    }
  }

  /** At in-degree 0 every predecessor has been emitted. */
  lemma NoneWaiting<TId(!new)>(nodes: set<TId>, outgoing: Graph<TId>, incoming: Graph<TId>,
                               inDegree: map<TId, int>, order: seq<TId>, id: TId)
    requires Inverse(nodes, outgoing, incoming) && id in nodes && id in inDegree
    requires Degrees(nodes, incoming, inDegree, order, {}) && inDegree[id] == 0
    ensures forall u :: Edge(outgoing, u, id) ==> u in order
  {
    assert Waiting(incoming, id, order) == {};
    forall u | Edge(outgoing, u, id)
      ensures u in order
    {
      assert u in incoming[id] && u !in Waiting(incoming, id, order);
    }
  }

  lemma EmitFirst<TId(!new)>(nodes: set<TId>, outgoing: Graph<TId>, incoming: Graph<TId>,
                             inDegree: map<TId, int>, order: seq<TId>, id: TId)
    requires Inverse(nodes, outgoing, incoming) && id in nodes && id in inDegree
    requires Degrees(nodes, incoming, inDegree, order, {}) && inDegree[id] == 0
    requires PredecessorsFirst(outgoing, order)
    ensures PredecessorsFirst(outgoing, order + [id])
  {
    hide Degrees, Inverse;
    NoneWaiting(nodes, outgoing, incoming, inDegree, order, id);
    var order' := order + [id];
    forall j | 0 <= j < |order'|
      ensures SourcesBefore(outgoing, order', j)
    {
      if j < |order| {
        assert SourcesBefore(outgoing, order, j);
        assert order'[..j] == order[..j];
      } else {
        assert order'[..j] == order;
      }
    }
  }

  lemma KahnEmit<TId(!new)>(nodes: set<TId>, outgoing: Graph<TId>, incoming: Graph<TId>,
                            inDegree: map<TId, int>, order: seq<TId>, queue: seq<TId>)
    requires Inverse(nodes, outgoing, incoming)
    requires KahnState(nodes, outgoing, incoming, inDegree, order, queue, {}) && queue != []
    ensures queue[0] in nodes && queue[0] !in order
    ensures KahnState(nodes, outgoing, incoming, inDegree, order + [queue[0]], queue[1..], outgoing[queue[0]])
    ensures |order| < |nodes|
  {
    hide Degrees, PredecessorsFirst, Inverse;
    var id := queue[0];
    assert id in queue;
    EmitDegrees(nodes, outgoing, incoming, inDegree, order, id);
    EmitFirst(nodes, outgoing, incoming, inDegree, order, id);
    EmitReady(nodes, inDegree, order, queue);
    SubsetLength(order + [id], nodes);
  }

  lemma EmitReady<TId>(nodes: set<TId>, inDegree: map<TId, int>, order: seq<TId>, queue: seq<TId>)
    requires Ready(nodes, inDegree, order, queue) && queue != []
    ensures Ready(nodes, inDegree, order + [queue[0]], queue[1..])
  {
    assert queue[0] in queue;
    assert queue[0] !in order;
    forall v | v in queue
      ensures v == queue[0] || v in queue[1..]
    {
      var i :| 0 <= i < |queue| && queue[i] == v;
      if i > 0 {
        assert queue[1..][i - 1] == v;
      }
    }
  }

  lemma KahnRelax<TId(!new)>(nodes: set<TId>, outgoing: Graph<TId>, incoming: Graph<TId>,
                             inDegree: map<TId, int>, order: seq<TId>, queue: seq<TId>, todo: set<TId>, to: TId)
    requires KahnState(nodes, outgoing, incoming, inDegree, order, queue, todo) && to in todo && to in nodes
    ensures to in inDegree
    ensures KahnState(nodes, outgoing, incoming, inDegree[to := inDegree[to] - 1], order,
                      if inDegree[to] == 1 then queue + [to] else queue, todo - {to})
  {
    assert inDegree[to] > 0;
    RelaxReady(nodes, inDegree, order, queue, to);
  }

  lemma RelaxReady<TId>(nodes: set<TId>, inDegree: map<TId, int>, order: seq<TId>, queue: seq<TId>, to: TId)
    requires Ready(nodes, inDegree, order, queue) && to in nodes && inDegree[to] > 0
    ensures Ready(nodes, inDegree[to := inDegree[to] - 1], order, if inDegree[to] == 1 then queue + [to] else queue)
  {
  }

  lemma EmittedOrFed<TId>(nodes: set<TId>, outgoing: Graph<TId>, incoming: Graph<TId>,
                          inDegree: map<TId, int>, order: seq<TId>, v: TId)
    requires Inverse(nodes, outgoing, incoming)
    requires Degrees(nodes, incoming, inDegree, order, {}) && Ready(nodes, inDegree, order, [])
    requires v in nodes && v !in order
    ensures FedFrom(outgoing, nodes - Members(order), v)
  {
    assert |Waiting(incoming, v, order)| > 0;
    var u :| u in Waiting(incoming, v, order);
    assert Edge(outgoing, u, v);
  }

  lemma ReadyFacts<TId>(nodes: set<TId>, outgoing: Graph<TId>, incoming: Graph<TId>,
                        inDegree: map<TId, int>, order: seq<TId>)
    requires Inverse(nodes, outgoing, incoming)
    requires Degrees(nodes, incoming, inDegree, order, {}) && Ready(nodes, inDegree, order, [])
    ensures Distinct(order) && inDegree.Keys == nodes == outgoing.Keys
    ensures forall v :: v in order ==> v in nodes
    ensures forall v :: v in nodes ==> (inDegree[v] > 0 <==> v !in order)
  {
  }

  lemma EmittedIffNotBelowCycle<TId(!new)>(nodes: set<TId>, outgoing: Graph<TId>, incoming: Graph<TId>,
                                           inDegree: map<TId, int>, order: seq<TId>, v: TId)
    requires Inverse(nodes, outgoing, incoming) && v in nodes
    requires KahnState(nodes, outgoing, incoming, inDegree, order, [], {})
    ensures v in order <==> !BelowCycle(outgoing, v)
  {
    hide Degrees, Ready, Inverse;
    if v in order {
      NotBelowCycle(outgoing, order, v);
    } else {
      var rest := nodes - Members(order);
      forall u | u in rest
        ensures FedFrom(outgoing, rest, u)
      {
        EmittedOrFed(nodes, outgoing, incoming, inDegree, order, u);
      }
      BackwardCycle(outgoing, rest, [v]);
    }
  }

  lemma NotBelowCycle<TId(!new)>(g: Graph<TId>, order: seq<TId>, v: TId)
    requires PredecessorsFirst(g, order) && v in order
    ensures !BelowCycle(g, v)
  {
    forall j, u | 0 <= j < |order| && Edge(g, u, order[j])
      ensures u in order[..j]
    {
      assert SourcesBefore(g, order, j);
    }
    if c :| OnCycle(g, c) && Reaches(g, c, v) {
      OrderedNotBelowCycle(g, order, c, v);
    }
  }

  /** When the queue runs dry, the emitted nodes are those no cycle leads to. */
  lemma KahnEnd<TId(!new)>(nodes: set<TId>, outgoing: Graph<TId>, incoming: Graph<TId>,
                           inDegree: map<TId, int>, order: seq<TId>)
    requires Inverse(nodes, outgoing, incoming)
    requires KahnState(nodes, outgoing, incoming, inDegree, order, [], {})
    ensures Distinct(order) && PredecessorsFirst(outgoing, order)
    ensures forall v :: v in order <==> v in nodes && !BelowCycle(outgoing, v)
    ensures inDegree.Keys == nodes && forall v :: v in nodes ==> (inDegree[v] > 0 <==> v !in order)
    ensures Acyclic(outgoing) <==> |order| == |nodes|
    ensures |order| <= |nodes|
  {
    hide Degrees, Ready, BelowCycle, Acyclic, Inverse, PredecessorsFirst;
    ReadyFacts(nodes, outgoing, incoming, inDegree, order);
    forall v | v in nodes
      ensures v in order <==> !BelowCycle(outgoing, v)
    {
      EmittedIffNotBelowCycle(nodes, outgoing, incoming, inDegree, order, v);
    }
    AllEmittedIffAcyclic(nodes, outgoing, order);
  }

  lemma CycleNodesExcluded<TId(!new)>(nodes: set<TId>, g: Graph<TId>, v: TId)
    requires OnCycle(g, v) && g.Keys == nodes
    ensures v in nodes && BelowCycle(g, v)
  {
    ReachesSelf(g, v);
  }

  lemma AllEmittedIffAcyclic<TId(!new)>(nodes: set<TId>, g: Graph<TId>, order: seq<TId>)
    requires Distinct(order) && g.Keys == nodes
    requires forall v :: v in order ==> v in nodes
    requires forall v :: v in nodes ==> (v in order <==> !BelowCycle(g, v))
    ensures |order| <= |nodes|
    ensures Acyclic(g) <==> |order| == |nodes|
  {
    DistinctMembers(order);
    SubsetSize(Members(order), nodes);
    if Acyclic(g) {
      assert Members(order) == nodes;
    } else {
      var v :| OnCycle(g, v);
      CycleNodesExcluded(nodes, g, v);
      SubsetSize(Members(order), nodes - {v});
    }
  }
}
