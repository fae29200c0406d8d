/** The state of a depth-first search with path tracking, and what it proves
    about reachability and cycles when it ends. */
module DepthFirst {
  import opened Collections
  import opened Digraphs

  ghost predicate SuccessorsBefore<T(!new)>(g: Graph<T>, order: seq<T>, j: int)
    requires 0 <= j < |order|
  {
    forall w :: Edge(g, order[j], w) ==> w in order[..j]
  }

  /** `order` lists nodes after all their successors. */
  ghost predicate SuccessorsFirst<T(!new)>(g: Graph<T>, order: seq<T>) {
    forall j :: 0 <= j < |order| ==> SuccessorsBefore(g, order, j)
  }

  /** `path` is the walk from the root to the node in progress, `order` the
      finished nodes; `clean` says that no back edge has been met. */
  ghost predicate Search<T(!new)>(g: Graph<T>, root: T, path: seq<T>, visited: set<T>, order: seq<T>, clean: bool) {
    && Distinct(path)
    && (forall v :: v in path ==> v in visited)
    && (path != [] ==> IsPath(g, path) && path[0] == root)
    && (forall v :: v in order <==> v in visited && v !in path)
    && (forall v :: v in visited ==> v in g && Reaches(g, root, v))
    && (forall v, w :: v in order && Edge(g, v, w) ==> w in visited)
    && (clean ==> SuccessorsFirst(g, order))
  }

  /** The node to be visited next is the root or a successor of the path's end. */
  ghost predicate Next<T>(g: Graph<T>, root: T, path: seq<T>, id: T) {
    if path == [] then id == root else Edge(g, path[|path| - 1], id)
  }

  lemma SearchStart<T(!new)>(g: Graph<T>, root: T)
    ensures Search(g, root, [], {}, [], true) && Next(g, root, [], root)
  {
  }

  lemma SearchFacts<T(!new)>(g: Graph<T>, root: T, path: seq<T>, visited: set<T>, order: seq<T>, clean: bool)
    requires Search(g, root, path, visited, order, clean)
    ensures forall v :: v in order <==> v in visited && v !in path
    ensures forall v :: v in path ==> v in visited
  {
  }

  lemma Enter<T(!new)>(g: Graph<T>, root: T, path: seq<T>, visited: set<T>, order: seq<T>, clean: bool, id: T)
    requires Search(g, root, path, visited, order, clean) && Next(g, root, path, id)
    requires id in g && id !in visited
    ensures Search(g, root, path + [id], visited + {id}, order, clean)
  {
    if path == [] {
      ReachesSelf(g, root);
    } else {
      var last := path[|path| - 1];
      assert last in path;
      ReachesStep(g, root, last, id);
    }
  }

  lemma ReachesNext<T(!new)>(g: Graph<T>, root: T, path: seq<T>, visited: set<T>, order: seq<T>, clean: bool, id: T)
    requires Search(g, root, path, visited, order, clean) && Next(g, root, path, id)
    ensures Reaches(g, root, id)
  {
    if path == [] {
      ReachesSelf(g, root);
    } else {
      assert path[|path| - 1] in path;
      ReachesStep(g, root, path[|path| - 1], id);
    }
  }

  lemma Finish<T(!new)>(g: Graph<T>, root: T, path: seq<T>, visited: set<T>, order: seq<T>, clean: bool, id: T)
    requires Search(g, root, path + [id], visited, order, clean)
    requires forall w :: Edge(g, id, w) ==> w in visited && (clean ==> w in order)
    ensures Search(g, root, path, visited, order + [id], clean)
  {
    var path' := path + [id];
    assert forall v :: v in path' <==> v in path || v == id;
    forall i | 0 <= i < |path|
      ensures path[i] != id
    {
      assert path'[i] != path'[|path|];
    }
    if path != [] {
      assert path == path'[..|path|];
    }
    var order' := order + [id];
    if clean {
      forall j | 0 <= j < |order'|
        ensures SuccessorsBefore(g, order', j)
      {
        if j < |order| {
          assert SuccessorsBefore(g, order, j);
          assert order'[..j] == order[..j];
        } else {
          assert order'[..j] == order;
        }
      }
    }
  }

  /** Forgetting the flag. */
  lemma Soil<T(!new)>(g: Graph<T>, root: T, path: seq<T>, visited: set<T>, order: seq<T>, clean: bool)
    requires Search(g, root, path, visited, order, clean)
    ensures Search(g, root, path, visited, order, false)
  {
  }

  lemma MetOnPath<T(!new)>(g: Graph<T>, root: T, path: seq<T>, visited: set<T>, order: seq<T>, clean: bool, id: T)
    requires Search(g, root, path, visited, order, clean) && Next(g, root, path, id) && id in path
    ensures OnCycle(g, id) && IsPath(g, path + [id]) && path[0] == root && Reaches(g, root, id)
  {
    BackEdge(g, path, id);
    WalkExtend(g, root, path[|path| - 1], id, path);
    ReachesNext(g, root, path, visited, order, clean, id);
  }

  /** A finished search has visited exactly what the root reaches, and without a
      back edge no cycle is in reach. */
  lemma SearchEnd<T(!new)>(g: Graph<T>, root: T, visited: set<T>, order: seq<T>, clean: bool)
    requires Search(g, root, [], visited, order, clean) && root in visited
    ensures forall v :: v in visited <==> Reaches(g, root, v)
    ensures clean ==> !AboveCycle(g, root)
  {
    forall v | Reaches(g, root, v)
      ensures v in visited
    {
      ClosedSetReaches(g, visited, root, v);
    }
    if clean {
      forall j, w | 0 <= j < |order| && Edge(g, order[j], w)
        ensures w in order[..j]
      {
        assert SuccessorsBefore(g, order, j);
      }
      OrderedSetSafe(g, order, root);
    }
  }
}
