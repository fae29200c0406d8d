/** Running a set of dependent tasks batch by batch. */
module Orchestration {
  import opened Collections
  import opened Digraphs
  import opened Dags

  datatype Task<Id> = Task(id: Id, dependsOn: seq<Id>)

  datatype Verdict = Succeeded | ExecutorFailed | Unsatisfied | InCycle

  datatype TaskResult<Id> = TaskResult(id: Id, verdict: Verdict)

  /** `Rejected` is the exception raised for a dependency on an unknown id. */
  datatype Outcome<Id> =
    | Completed(success: bool, results: seq<TaskResult<Id>>)
    | Rejected(id: Id)

  // ----- what the task list means

  /** The task kept for every id: the last one given. */
  ghost function TaskMap<Id>(tasks: seq<Task<Id>>): map<Id, Task<Id>> {
    if tasks == [] then map[]
    else
      var t := tasks[|tasks| - 1];
      TaskMap(tasks[..|tasks| - 1])[t.id := t]
  }

  /** Edges from every task to its dependencies, over all tasks with that id. */
  ghost function AllDeps<Id>(tasks: seq<Task<Id>>, ids: set<Id>): Graph<Id> {
    map id | id in ids :: DepsOf(tasks, id)
  }

  ghost function DepsOf<Id>(tasks: seq<Task<Id>>, id: Id): set<Id> {
    set t, d | t in tasks && t.id == id && d in t.dependsOn :: d
  }

  /** Edges from the kept task of every id to its dependencies. */
  ghost function KeptDeps<Id>(kept: map<Id, Task<Id>>): Graph<Id> {
    map id | id in kept :: Members(kept[id].dependsOn)
  }

  /** Everything the task depends on, directly or not, would run successfully. */
  ghost predicate WillRun<Id(!new)>(kept: map<Id, Task<Id>>, runs: Task<Id> -> bool, id: Id) {
    forall d :: Reaches(KeptDeps(kept), id, d) && d != id && d in kept ==> runs(kept[d])
  }

  ghost predicate WillSucceed<Id(!new)>(kept: map<Id, Task<Id>>, runs: Task<Id> -> bool, id: Id) {
    forall d :: Reaches(KeptDeps(kept), id, d) && d in kept ==> runs(kept[d])
  }

  /** Every dependency chain from `id` has at most k tasks. */
  ghost predicate ChainsWithin<Id(!new)>(g: Graph<Id>, id: Id, k: nat) {
    forall p :: IsPath(g, p) && p[0] == id ==> |p| <= k
  }

  /** The longest dependency chain below `id` has k edges. */
  ghost predicate LongestChain<Id(!new)>(g: Graph<Id>, id: Id, k: nat) {
    ChainsWithin(g, id, k + 1) && !ChainsWithin(g, id, k)
  }

  // ----- one step of the schedule

  lemma WillRunByDeps<Id(!new)>(kept: map<Id, Task<Id>>, runs: Task<Id> -> bool, id: Id)
    requires id in kept && Acyclic(KeptDeps(kept))
    ensures WillRun(kept, runs, id) <==>
      forall d :: d in kept[id].dependsOn && d in kept ==> WillSucceed(kept, runs, d)
    ensures WillSucceed(kept, runs, id) <==> WillRun(kept, runs, id) && runs(kept[id])
  {
    var g := KeptDeps(kept);
    ReachesSelf(g, id);
    if forall d :: d in kept[id].dependsOn && d in kept ==> WillSucceed(kept, runs, d) {
      forall e | Reaches(g, id, e) && e != id && e in kept
        ensures runs(kept[e])
      {
        var d := FirstStep(g, id, e);
        if d !in kept {
          Stuck(g, d, e);
        }
      }
    }
    if WillRun(kept, runs, id) {
      forall d, e | d in kept[id].dependsOn && d in kept && Reaches(g, d, e) && e in kept
        ensures runs(kept[e])
      {
        StepReaches(g, id, d, e);
        assert e != id by {
          assert !OnCycle(g, id);
        }
      }
    }
  }

  lemma Stuck<T(!new)>(g: Graph<T>, u: T, v: T)
    requires u !in g && Reaches(g, u, v)
    ensures u == v
  {
    if u != v {
      var w := FirstStep(g, u, v);
    }
  }

  lemma ChainsByDeps<T(!new)>(g: Graph<T>, id: T, k: nat)
    requires id in g
    ensures ChainsWithin(g, id, k + 1) <==> forall d :: d in g[id] ==> ChainsWithin(g, d, k)
  {
    if ChainsWithin(g, id, k + 1) {
      forall d, p | d in g[id] && IsPath(g, p) && p[0] == d
        ensures |p| <= k
      {
        PrependEdge(g, id, p);
        assert ([id] + p)[0] == id;
      }
    }
    if forall d :: d in g[id] ==> ChainsWithin(g, d, k) {
      forall p | IsPath(g, p) && p[0] == id
        ensures |p| <= k + 1
      {
        if |p| > 1 {
          assert Edge(g, p[0], p[1]);
          assert IsPath(g, p[1..]);
          assert ChainsWithin(g, p[1], k);
        }
      }
    }
  }

  lemma NoEmptyChain<T(!new)>(g: Graph<T>, id: T)
    ensures !ChainsWithin(g, id, 0)
  {
    assert IsPath(g, [id]) && [id][0] == id;
  }

  // ----- the state between batches

  ghost function ResultIds<Id>(results: seq<TaskResult<Id>>): seq<Id> {
    seq(|results|, i requires 0 <= i < |results| => results[i].id)
  }

  /** Already run after k batches: everything below it succeeds and its chains are short enough. */
  ghost predicate Ran<Id(!new)>(kept: map<Id, Task<Id>>, runs: Task<Id> -> bool, k: nat, id: Id) {
    id in kept && WillRun(kept, runs, id) && ChainsWithin(KeptDeps(kept), id, k)
  }

  ghost function VerdictOf<Id(!new)>(kept: map<Id, Task<Id>>, runs: Task<Id> -> bool, id: Id): Verdict
    requires id in kept
  {
    if !WillRun(kept, runs, id) then Unsatisfied else if runs(kept[id]) then Succeeded else ExecutorFailed
  }

  /** One correct result for each id in the given set, and no other. */
  ghost predicate Answers<Id(!new)>(kept: map<Id, Task<Id>>, runs: Task<Id> -> bool, results: seq<TaskResult<Id>>) {
    && Distinct(ResultIds(results))
    && forall i :: 0 <= i < |results| ==>
         results[i].id in kept && results[i].verdict == VerdictOf(kept, runs, results[i].id)
  }

  /** Batch j ran exactly tasks whose longest dependency chain has j edges. */
  ghost predicate BatchesByDepth<Id(!new)>(kept: map<Id, Task<Id>>, runs: Task<Id> -> bool, batches: seq<seq<Id>>) {
    forall j, id :: 0 <= j < |batches| && id in batches[j] ==>
      id in kept && WillRun(kept, runs, id) && LongestChain(KeptDeps(kept), id, j)
  }

  ghost predicate Scheduled<Id(!new)>(kept: map<Id, Task<Id>>, runs: Task<Id> -> bool, results: seq<TaskResult<Id>>,
                                      completed: set<Id>, pending: seq<Id>, batches: seq<seq<Id>>) {
    && Distinct(pending)
    && (forall id :: id in pending <==> id in kept && !Ran(kept, runs, |batches|, id))
    && (forall id :: id in completed <==> Ran(kept, runs, |batches|, id) && runs(kept[id]))
    && Answers(kept, runs, results)
    && ResultIds(results) == Flatten(batches)
    && (forall id :: id in ResultIds(results) <==> Ran(kept, runs, |batches|, id))
    && BatchesByDepth(kept, runs, batches)
  }

  lemma ScheduleStarts<Id(!new)>(kept: map<Id, Task<Id>>, runs: Task<Id> -> bool, pending: seq<Id>)
    requires Distinct(pending) && forall id :: id in pending <==> id in kept
    ensures Scheduled(kept, runs, [], {}, pending, [])
  {
    forall id
      ensures !Ran(kept, runs, 0, id)
    {
      NoEmptyChain(KeptDeps(kept), id);
    }
  }

  /** A pending task is ready exactly when it runs in the next batch. */
  lemma ReadyIff<Id(!new)>(kept: map<Id, Task<Id>>, runs: Task<Id> -> bool, results: seq<TaskResult<Id>>,
                           completed: set<Id>, pending: seq<Id>, batches: seq<seq<Id>>, id: Id)
    requires Acyclic(KeptDeps(kept)) && Closed(KeptDeps(kept))
    requires Scheduled(kept, runs, results, completed, pending, batches) && id in kept
    ensures (forall d :: d in kept[id].dependsOn ==> d in completed) <==> Ran(kept, runs, |batches| + 1, id)
  {
    var g := KeptDeps(kept);
    var k := |batches|;
    WillRunByDeps(kept, runs, id);
    ChainsByDeps(g, id, k);
    assert forall d :: d in g[id] <==> d in kept[id].dependsOn;
    hide WillRun, WillSucceed, ChainsWithin, Acyclic, Answers, BatchesByDepth;
    forall d | d in g[id]
      ensures d in kept && (d in completed <==> WillSucceed(kept, runs, d) && ChainsWithin(g, d, k))
    {
      assert d in g;
      WillRunByDeps(kept, runs, d);
    }
  }

  lemma ChainsGrow<Id(!new)>(kept: map<Id, Task<Id>>, runs: Task<Id> -> bool, k: nat)
    ensures forall id :: Ran(kept, runs, k, id) ==> Ran(kept, runs, k + 1, id)
  {
  }

  /** The pending tasks whose dependencies are all completed, in their order. */
  method ReadyTasks<Id(==, !new)>(kept: map<Id, Task<Id>>, completed: set<Id>, pending: seq<Id>)
    returns (batch: seq<Id>)
    requires Distinct(pending) && forall id :: id in pending ==> id in kept
    ensures Distinct(batch) && Ordered(pending, batch)
    ensures forall id :: id in batch <==>
      id in pending && id in kept && forall d :: d in kept[id].dependsOn ==> d in completed
  {
    hide Ordered;
    batch := [];
    OrderedSelf(pending);
    for i := 0 to |pending|
      invariant Distinct(batch) && Ordered(pending, batch)
      invariant forall id :: id in batch <==>
        id in pending[..i] && id in kept && forall d :: d in kept[id].dependsOn ==> d in completed
    {
      var id := pending[i];
      assert id in pending;
      assert pending[..i + 1] == pending[..i] + [id];
      if forall d :: d in kept[id].dependsOn ==> d in completed {
        assert id !in batch;
        OrderedAppend(pending, batch, i);
        batch := batch + [id];
      }
    }
    assert pending[..|pending|] == pending;
  }

  /** Await the executors of one batch, which finish in any order. */
  method SettleAll<Id(==, !new)>(kept: map<Id, Task<Id>>, runs: Task<Id> -> bool, batch: seq<Id>)
    returns (settled: map<Id, TaskResult<Id>>)
    requires forall id :: id in batch ==> id in kept
    ensures forall id :: id in batch ==>
      id in settled && settled[id] == TaskResult(id, if runs(kept[id]) then Succeeded else ExecutorFailed)
  {
    settled := map[];
    var running := set id | id in batch;
    while running != {}
      invariant forall id :: id in running ==> id in batch
      invariant forall id :: id in batch && id !in running ==>
        id in settled && settled[id] == TaskResult(id, if runs(kept[id]) then Succeeded else ExecutorFailed)
    {
      var id :| id in running;
      settled := settled[id := TaskResult(id, if runs(kept[id]) then Succeeded else ExecutorFailed)];
      running := running - {id};
    }
  }

  /** Run one batch: whatever the order of finishing, record the results in batch
      order, keep the successes, drop all from pending. */
  method RunBatch<Id(==, !new)>(kept: map<Id, Task<Id>>, runs: Task<Id> -> bool, batch: seq<Id>,
                                results: seq<TaskResult<Id>>, completed: set<Id>, pending: seq<Id>)
    returns (results': seq<TaskResult<Id>>, completed': set<Id>, pending': seq<Id>)
    requires Distinct(pending) && forall id :: id in batch ==> id in kept
    ensures Distinct(pending') && Ordered(pending, pending')
    ensures forall id :: id in pending' <==> id in pending && id !in batch
    ensures forall id :: id in completed' <==> id in completed || (id in batch && runs(kept[id]))
    ensures results' == results + BatchResults(kept, runs, batch)
  {
    hide Ordered;
    results', completed', pending' := results, completed, pending;
    OrderedSelf(pending);
    var settled := SettleAll(kept, runs, batch);
    for i := 0 to |batch|
      invariant Distinct(pending') && Ordered(pending, pending')
      invariant forall id :: id in pending' <==> id in pending && id !in batch[..i]
      invariant forall id :: id in completed' <==> id in completed || (id in batch[..i] && runs(kept[id]))
      invariant results' == results + BatchResults(kept, runs, batch)[..i]
    {
      var id := batch[i];
      assert id in batch;
      assert batch[..i + 1] == batch[..i] + [id];
      var result := settled[id];
      results' := results' + [result];
      if result.verdict.Succeeded? {
        completed' := completed' + {result.id};
      }
      WithoutOrdered(pending', result.id);
      OrderedTrans(pending, pending', Without(pending', result.id));
      pending' := Without(pending', result.id);
    }
    assert batch[..|batch|] == batch;
  }

  ghost function BatchResults<Id>(kept: map<Id, Task<Id>>, runs: Task<Id> -> bool, batch: seq<Id>): seq<TaskResult<Id>>
    requires forall id :: id in batch ==> id in kept
  {
    seq(|batch|, i requires 0 <= i < |batch| =>
      TaskResult(batch[i], if runs(kept[batch[i]]) then Succeeded else ExecutorFailed))
  }

  lemma AppendBatch<Id(!new)>(kept: map<Id, Task<Id>>, runs: Task<Id> -> bool, results: seq<TaskResult<Id>>,
                              batch: seq<Id>)
    requires Answers(kept, runs, results) && Distinct(batch)
    requires forall id :: id in batch ==> id in kept && WillRun(kept, runs, id) && id !in ResultIds(results)
    ensures Answers(kept, runs, results + BatchResults(kept, runs, batch))
    ensures ResultIds(results + BatchResults(kept, runs, batch)) == ResultIds(results) + batch
  {
    var more := results + BatchResults(kept, runs, batch);
    assert ResultIds(more) == ResultIds(results) + batch;
    forall i, j | 0 <= i < j < |more|
      ensures ResultIds(more)[i] != ResultIds(more)[j]
    {
      if i < |results| <= j {
        assert ResultIds(results)[i] in ResultIds(results) && batch[j - |results|] in batch;
      }
    }
    forall i | |results| <= i < |more|
      ensures more[i].id in kept && more[i].verdict == VerdictOf(kept, runs, more[i].id)
    {
      assert batch[i - |results|] in batch;
    }
  }

  lemma NextBatch<Id(!new)>(kept: map<Id, Task<Id>>, runs: Task<Id> -> bool, results: seq<TaskResult<Id>>,
                            completed: set<Id>, pending: seq<Id>, batches: seq<seq<Id>>, batch: seq<Id>)
    requires Acyclic(KeptDeps(kept)) && Closed(KeptDeps(kept))
    requires Scheduled(kept, runs, results, completed, pending, batches)
    requires forall id :: id in batch <==>
      id in pending && id in kept && forall d :: d in kept[id].dependsOn ==> d in completed
    ensures forall id :: id in batch <==> Ran(kept, runs, |batches| + 1, id) && !Ran(kept, runs, |batches|, id)
  {
    forall id | id in kept
      ensures id in batch <==> Ran(kept, runs, |batches| + 1, id) && !Ran(kept, runs, |batches|, id)
    {
      ReadyIff(kept, runs, results, completed, pending, batches, id);
    }
  }

  lemma BatchDepth<Id(!new)>(kept: map<Id, Task<Id>>, runs: Task<Id> -> bool, batches: seq<seq<Id>>, batch: seq<Id>)
    requires BatchesByDepth(kept, runs, batches)
    requires forall id :: id in batch <==> Ran(kept, runs, |batches| + 1, id) && !Ran(kept, runs, |batches|, id)
    ensures BatchesByDepth(kept, runs, batches + [batch])
  {
  }

  lemma ScheduleStep<Id(!new)>(kept: map<Id, Task<Id>>, runs: Task<Id> -> bool, results: seq<TaskResult<Id>>,
                               completed: set<Id>, pending: seq<Id>, batches: seq<seq<Id>>, batch: seq<Id>,
                               results': seq<TaskResult<Id>>, completed': set<Id>, pending': seq<Id>)
    requires Scheduled(kept, runs, results, completed, pending, batches) && Distinct(batch) && Distinct(pending')
    requires forall id :: id in batch ==> id in kept
    requires forall id :: id in batch <==> Ran(kept, runs, |batches| + 1, id) && !Ran(kept, runs, |batches|, id)
    requires forall id :: id in pending' <==> id in pending && id !in batch
    requires forall id :: id in completed' <==> id in completed || (id in batch && runs(kept[id]))
    requires results' == results + BatchResults(kept, runs, batch)
    ensures Scheduled(kept, runs, results', completed', pending', batches + [batch])
  {
    hide Distinct, WillRun, ChainsWithin, BatchesByDepth;
    ChainsGrow(kept, runs, |batches|);
    BatchDepth(kept, runs, batches, batch);
    FlattenAppend(batches, batch);
    AppendBatch(kept, runs, results, batch);
  }

  /** Walking the order backwards, every task that will run has run. */
  lemma NothingLeftToRun<Id(!new)>(kept: map<Id, Task<Id>>, runs: Task<Id> -> bool, results: seq<TaskResult<Id>>,
                                   completed: set<Id>, pending: seq<Id>, batches: seq<seq<Id>>,
                                   order: seq<Id>, i: nat)
    requires Acyclic(KeptDeps(kept)) && Closed(KeptDeps(kept))
    requires Scheduled(kept, runs, results, completed, pending, batches)
    requires forall id :: Ran(kept, runs, |batches| + 1, id) ==> Ran(kept, runs, |batches|, id)
    requires PredecessorsFirst(KeptDeps(kept), order) && Distinct(order) && forall id :: id in order <==> id in kept
    requires i < |order| && WillRun(kept, runs, order[i])
    ensures Ran(kept, runs, |batches|, order[i])
    decreases |order| - i
  {
    var id := order[i];
    assert id in order;
    var g := KeptDeps(kept);
    WillRunByDeps(kept, runs, id);
    forall d | d in kept[id].dependsOn
      ensures d in completed
    {
      assert Edge(g, id, d) && d in g;
      assert d in order;
      var j :| 0 <= j < |order| && order[j] == d;
      assert SourcesBefore(g, order, j);
      WillRunByDeps(kept, runs, d);
      NothingLeftToRun(kept, runs, results, completed, pending, batches, order, j);
    }
    ReadyIff(kept, runs, results, completed, pending, batches, id);
  }

  /** Once nothing more can run, the pending tasks are the unsatisfied ones. */
  ghost predicate Finished<Id(!new)>(kept: map<Id, Task<Id>>, runs: Task<Id> -> bool, results: seq<TaskResult<Id>>,
                                     batches: seq<seq<Id>>) {
    && Answers(kept, runs, results)
    && (forall id :: id in ResultIds(results) <==> id in kept)
    && BatchesByDepth(kept, runs, batches)
    && Distinct(Flatten(batches))
    && (forall id :: id in Flatten(batches) <==> id in kept && WillRun(kept, runs, id))
    && Flatten(batches) <= ResultIds(results)
  }

  /** Within a batch, and among the tasks never run, the sorted order is kept. */
  ghost predicate SortedWithin<Id(!new)>(order: seq<Id>, results: seq<TaskResult<Id>>, batches: seq<seq<Id>>) {
    && (forall k :: 0 <= k < |batches| ==> Ordered(order, batches[k]))
    && var ran := |Flatten(batches)|;
    && ran <= |results| && Ordered(order, ResultIds(results)[ran..])
  }

  lemma SortedWithinEnds<Id(!new)>(order: seq<Id>, results: seq<TaskResult<Id>>, batches: seq<seq<Id>>,
                                   pending: seq<Id>)
    requires forall k :: 0 <= k < |batches| ==> Ordered(order, batches[k])
    requires ResultIds(results) == Flatten(batches) && Ordered(order, pending)
    ensures SortedWithin(order, results + UnsatisfiedResults(pending), batches)
  {
    hide Ordered, Flatten;
    var ids := ResultIds(results + UnsatisfiedResults(pending));
    assert ids == ResultIds(results) + pending;
    assert ids[|results|..] == pending;
  }

  lemma ScheduleEnds<Id(!new)>(kept: map<Id, Task<Id>>, runs: Task<Id> -> bool, results: seq<TaskResult<Id>>,
                               completed: set<Id>, pending: seq<Id>, batches: seq<seq<Id>>, order: seq<Id>)
    requires Acyclic(KeptDeps(kept)) && Closed(KeptDeps(kept))
    requires Scheduled(kept, runs, results, completed, pending, batches)
    requires forall id :: Ran(kept, runs, |batches| + 1, id) ==> Ran(kept, runs, |batches|, id)
    requires PredecessorsFirst(KeptDeps(kept), order) && Distinct(order) && forall id :: id in order <==> id in kept
    ensures forall id :: Ran(kept, runs, |batches|, id) <==> id in kept && WillRun(kept, runs, id)
    ensures Finished(kept, runs, results + UnsatisfiedResults(pending), batches)
  {
    forall id | id in kept && WillRun(kept, runs, id)
      ensures Ran(kept, runs, |batches|, id)
    {
      var i :| 0 <= i < |order| && order[i] == id;
      NothingLeftToRun(kept, runs, results, completed, pending, batches, order, i);
    }
    var all := results + UnsatisfiedResults(pending);
    assert ResultIds(all) == ResultIds(results) + pending;
    forall i | 0 <= i < |all|
      ensures all[i].id in kept && all[i].verdict == VerdictOf(kept, runs, all[i].id)
    {
      if i >= |results| {
        assert pending[i - |results|] in pending;
      }
    }
    forall i, j | 0 <= i < j < |all|
      ensures ResultIds(all)[i] != ResultIds(all)[j]
    {
      if i < |results| <= j {
        assert ResultIds(results)[i] in ResultIds(results) && pending[j - |results|] in pending;
      }
    }
  }

  function UnsatisfiedResults<Id>(pending: seq<Id>): seq<TaskResult<Id>> {
    seq(|pending|, i requires 0 <= i < |pending| => TaskResult(pending[i], Unsatisfied))
  }

  // ----- building the graph

  lemma EdgesOfKept<Id(!new)>(tasks: seq<Task<Id>>, id: Id)
    requires id in TaskMap(tasks)
    ensures TaskMap(tasks)[id] in tasks && TaskMap(tasks)[id].id == id
    ensures Members(TaskMap(tasks)[id].dependsOn) <= DepsOf(tasks, id)
  {
  }

  ghost predicate KnownDeps<Id>(tasks: seq<Task<Id>>, kept: map<Id, Task<Id>>) {
    forall t, d :: t in tasks && d in t.dependsOn ==> d in kept
  }

  lemma TakeAll<T>(s: seq<T>)
    ensures s[..|s|] == s
  {
  }

  method AddTasks<Id(==, !new)>(tasks: seq<Task<Id>>) returns (dag: Dag<Id, Task<Id>>)
    ensures fresh(dag) && dag.Valid() && dag.nodes == TaskMap(tasks)
    ensures forall t: Task<Id> :: dag.getId(t) == t.id
    ensures dag.outgoing == AllDeps([], TaskMap(tasks).Keys)
  {
    hide Inverse;
    dag := new Dag((t: Task<Id>) => t.id);
    NoDeps(dag.nodes, dag.outgoing);
    assert forall t: Task<Id> :: dag.getId(t) == t.id;
    var i := 0;
    while i < |tasks|
      invariant 0 <= i <= |tasks| && fresh(dag) && dag.Valid() && dag.nodes == TaskMap(tasks[..i])
      invariant dag.outgoing == AllDeps([], dag.nodes.Keys)
    {
      assert tasks[..i + 1][..i] == tasks[..i];
      NewIdHasNoDeps(dag.nodes.Keys, tasks[i]);
      dag.AddNode(tasks[i]);
      i := i + 1;
    }
    TakeAll(tasks);
  }

  lemma NoDeps<Id(!new)>(nodes: map<Id, Task<Id>>, g: Graph<Id>)
    requires nodes == map[] && g == map[]
    ensures g == AllDeps([], nodes.Keys)
  {
  }

  lemma NewIdHasNoDeps<Id(!new)>(ids: set<Id>, t: Task<Id>)
    ensures AllDeps([], ids + {t.id})
         == if t.id in ids then AllDeps([], ids) else AllDeps([], ids)[t.id := {}]
  {
    assert DepsOf<Id>([], t.id) == {};
    if t.id in ids {
      assert ids + {t.id} == ids;
    }
  }

  /** Add the dependencies of one task; stops at the first unknown id. */
  method AddDependencies<Id(==, !new)>(dag: Dag<Id, Task<Id>>, task: Task<Id>, ghost done: seq<Task<Id>>)
    returns (unknown: Option<Id>)
    requires dag.Valid() && task.id in dag.nodes && dag.outgoing == AllDeps(done, dag.nodes.Keys)
    modifies dag
    ensures dag.Valid() && dag.nodes == old(dag.nodes)
    ensures unknown.None? ==>
      dag.outgoing == AllDeps(done + [task], dag.nodes.Keys) && forall d :: d in task.dependsOn ==> d in dag.nodes
    ensures unknown.Some? ==> unknown.value in task.dependsOn && unknown.value !in dag.nodes
  {
    hide Inverse;
    DepsWithNone(done, task, dag.nodes.Keys);
    var j := 0;
    while j < |task.dependsOn|
      invariant 0 <= j <= |task.dependsOn| && dag.Valid() && dag.nodes == old(dag.nodes)
      invariant dag.outgoing == DepsWith(done, task, j, dag.nodes.Keys)
      invariant forall d :: d in task.dependsOn[..j] ==> d in dag.nodes
    {
      var dep := task.dependsOn[j];
      DepsWithMore(done, task, j, dag.nodes.Keys);
      var r := dag.AddEdge(task.id, dep);
      if !r.Added? {
        return Some(dep);
      }
      assert task.dependsOn[..j + 1] == task.dependsOn[..j] + [dep];
      j := j + 1;
    }
    DepsWithAll(done, task, dag.nodes.Keys);
    unknown := None;
  }

  /** Some task depends on the id. */
  ghost predicate NamedBy<Id>(tasks: seq<Task<Id>>, id: Id) {
    exists t :: t in tasks && id in t.dependsOn
  }

  /** Build the dependency graph; stops at the first dependency on an unknown id. */
  method BuildGraph<Id(==, !new)>(tasks: seq<Task<Id>>) returns (dag: Dag<Id, Task<Id>>, unknown: Option<Id>)
    ensures fresh(dag) && dag.Valid() && dag.nodes == TaskMap(tasks)
    ensures forall t: Task<Id> :: dag.getId(t) == t.id
    ensures unknown.None? <==> KnownDeps(tasks, TaskMap(tasks))
    ensures unknown.Some? ==> unknown.value !in TaskMap(tasks) && NamedBy(tasks, unknown.value)
    ensures unknown.None? ==> dag.outgoing == AllDeps(tasks, TaskMap(tasks).Keys)
  {
    hide Inverse, AllDeps;
    dag := AddTasks(tasks);
    var i := 0;
    while i < |tasks|
      invariant 0 <= i <= |tasks| && fresh(dag) && dag.Valid() && dag.nodes == TaskMap(tasks)
      invariant forall t: Task<Id> :: dag.getId(t) == t.id
      invariant dag.outgoing == AllDeps(tasks[..i], dag.nodes.Keys)
      invariant KnownDeps(tasks[..i], dag.nodes)
    {
      KeptId(tasks, i);
      assert tasks[..i + 1] == tasks[..i] + [tasks[i]];
      unknown := AddDependencies(dag, tasks[i], tasks[..i]);
      if unknown.Some? {
        assert tasks[i] in tasks;
        return;
      }
      i := i + 1;
    }
    TakeAll(tasks);
    unknown := None;
  }

  lemma KeptId<Id>(tasks: seq<Task<Id>>, i: nat)
    requires i < |tasks|
    ensures tasks[i].id in TaskMap(tasks)
  {
  }

  /** The graph while the first j dependencies of one more task have been added. */
  ghost function DepsWith<Id>(done: seq<Task<Id>>, task: Task<Id>, j: nat, ids: set<Id>): Graph<Id>
    requires j <= |task.dependsOn|
  {
    map id | id in ids :: DepsOf(done, id) + (if id == task.id then Members(task.dependsOn[..j]) else {})
  }

  lemma DepsWithNone<Id(!new)>(done: seq<Task<Id>>, task: Task<Id>, ids: set<Id>)
    ensures DepsWith(done, task, 0, ids) == AllDeps(done, ids)
  {
    forall id | id in ids
      ensures DepsWith(done, task, 0, ids)[id] == DepsOf(done, id)
    {
    }
  }

  lemma DepsWithMore<Id(!new)>(done: seq<Task<Id>>, task: Task<Id>, j: nat, ids: set<Id>)
    requires j < |task.dependsOn| && task.id in ids
    ensures
      var g := DepsWith(done, task, j, ids);
      DepsWith(done, task, j + 1, ids) == g[task.id := g[task.id] + {task.dependsOn[j]}]
  {
    assert task.dependsOn[..j + 1] == task.dependsOn[..j] + [task.dependsOn[j]];
    assert Members(task.dependsOn[..j + 1]) == Members(task.dependsOn[..j]) + {task.dependsOn[j]};
    var g, next := DepsWith(done, task, j, ids), DepsWith(done, task, j + 1, ids);
    forall id | id in ids
      ensures next[id] == if id == task.id then g[id] + {task.dependsOn[j]} else g[id]
    {
    }
  }

  lemma DepsWithAll<Id(!new)>(done: seq<Task<Id>>, task: Task<Id>, ids: set<Id>)
    ensures DepsWith(done, task, |task.dependsOn|, ids) == AllDeps(done + [task], ids)
    ensures task.dependsOn[..|task.dependsOn|] == task.dependsOn
  {
    TakeAll(task.dependsOn);
    forall id | id in ids
      ensures DepsOf(done + [task], id) == DepsOf(done, id) + (if id == task.id then Members(task.dependsOn) else {})
    {
    }
  }

  /** The kept dependencies inherit acyclicity and the order from all of them. */
  lemma KeptGraph<Id(!new)>(tasks: seq<Task<Id>>, order: seq<Id>)
    requires KnownDeps(tasks, TaskMap(tasks))
    requires Acyclic(AllDeps(tasks, TaskMap(tasks).Keys))
    requires PredecessorsFirst(AllDeps(tasks, TaskMap(tasks).Keys), order)
    ensures Acyclic(KeptDeps(TaskMap(tasks))) && Closed(KeptDeps(TaskMap(tasks)))
    ensures PredecessorsFirst(KeptDeps(TaskMap(tasks)), order)
  {
    var kept := TaskMap(tasks);
    var all, g := AllDeps(tasks, kept.Keys), KeptDeps(kept);
    forall u, v | Edge(g, u, v)
      ensures Edge(all, u, v) && v in kept
    {
      EdgesOfKept(tasks, u);
    }
    SubgraphAcyclic(g, all);
    forall u, v | u in g && v in g[u]
      ensures v in g
    {
      assert Edge(g, u, v);
    }
    forall j | 0 <= j < |order|
      ensures SourcesBefore(g, order, j)
    {
      assert SourcesBefore(all, order, j);
    }
  }

  /** Batch after batch until nothing is ready. */
  method RunBatches<Id(==, !new)>(kept: map<Id, Task<Id>>, runs: Task<Id> -> bool, order: seq<Id>)
    returns (results: seq<TaskResult<Id>>, ghost batches: seq<seq<Id>>)
    requires Acyclic(KeptDeps(kept)) && Closed(KeptDeps(kept))
    requires PredecessorsFirst(KeptDeps(kept), order) && Distinct(order) && forall id :: id in order <==> id in kept
    ensures Answers(kept, runs, results) && forall id :: id in ResultIds(results) <==> id in kept
    ensures Finished(kept, runs, results, batches) && SortedWithin(order, results, batches)
  {
    hide Scheduled, Acyclic, Closed, PredecessorsFirst, Ran, Answers, BatchesByDepth, Distinct, WillRun, Ordered,
         SortedWithin, Flatten, Finished, ResultIds;
    results, batches := [], [];
    var completed: set<Id> := {};
    var pending := order;
    ScheduleStarts(kept, runs, pending);
    OrderedSelf(order);
    while |pending| > 0
      invariant Scheduled(kept, runs, results, completed, pending, batches)
      invariant Ordered(order, pending) && forall k :: 0 <= k < |batches| ==> Ordered(order, batches[k])
      decreases |pending|
    {
      ScheduleFacts(kept, runs, results, completed, pending, batches);
      var batch := ReadyTasks(kept, completed, pending);
      NextBatch(kept, runs, results, completed, pending, batches, batch);
      OrderedTrans(order, pending, batch);
      if |batch| == 0 {
        ScheduleEnds(kept, runs, results, completed, pending, batches, order);
        SortedWithinEnds(order, results, batches, pending);
        results := results + UnsatisfiedResults(pending);
        return;
      }
      ghost var before, results0, completed0 := pending, results, completed;
      results, completed, pending := RunBatch(kept, runs, batch, results, completed, pending);
      ScheduleStep(kept, runs, results0, completed0, before, batches, batch, results, completed, pending);
      FewerPending(before, pending, batch);
      OrderedTrans(order, before, pending);
      batches := batches + [batch];
    }
    ScheduleFacts(kept, runs, results, completed, pending, batches);
    NothingPending(kept, runs, results, completed, pending, batches);
    ScheduleEnds(kept, runs, results, completed, pending, batches, order);
    SortedWithinEnds(order, results, batches, pending);
    assert results + UnsatisfiedResults(pending) == results;
  }

  lemma ScheduleFacts<Id(!new)>(kept: map<Id, Task<Id>>, runs: Task<Id> -> bool, results: seq<TaskResult<Id>>,
                                completed: set<Id>, pending: seq<Id>, batches: seq<seq<Id>>)
    requires Scheduled(kept, runs, results, completed, pending, batches)
    ensures Distinct(pending) && forall id :: id in pending ==> id in kept
    ensures ResultIds(results) == Flatten(batches)
  {
  }

  lemma NothingPending<Id(!new)>(kept: map<Id, Task<Id>>, runs: Task<Id> -> bool, results: seq<TaskResult<Id>>,
                                 completed: set<Id>, pending: seq<Id>, batches: seq<seq<Id>>)
    requires Scheduled(kept, runs, results, completed, pending, batches) && pending == []
    ensures forall id :: Ran(kept, runs, |batches| + 1, id) ==> Ran(kept, runs, |batches|, id)
  {
  }

  lemma FewerPending<T(!new)>(before: seq<T>, after: seq<T>, batch: seq<T>)
    requires Distinct(before) && Distinct(after) && batch != []
    requires forall x :: x in after <==> x in before && x !in batch
    requires forall x :: x in batch ==> x in before
    ensures |after| < |before|
  {
    DistinctMembers(before);
    DistinctMembers(after);
    assert batch[0] in Members(before) && batch[0] !in Members(after);
    SubsetSize(Members(after), Members(before) - {batch[0]});
  }

  lemma NothingBelowCycle<T(!new)>(g: Graph<T>)
    requires Acyclic(g)
    ensures forall v :: !BelowCycle(g, v)
  {
  }

  /** Every result is a success exactly when every task runs successfully. */
  lemma SuccessIff<Id(!new)>(kept: map<Id, Task<Id>>, runs: Task<Id> -> bool, results: seq<TaskResult<Id>>,
                             batches: seq<seq<Id>>)
    requires Finished(kept, runs, results, batches)
    ensures (forall i :: 0 <= i < |results| ==> results[i].verdict.Succeeded?)
      <==> forall id :: id in kept ==> runs(kept[id])
  {
  }

  lemma NoTasks<Id(!new)>(tasks: seq<Task<Id>>, runs: Task<Id> -> bool)
    requires tasks == []
    ensures KnownDeps(tasks, TaskMap(tasks)) && Acyclic(AllDeps(tasks, TaskMap(tasks).Keys))
    ensures Finished(TaskMap(tasks), runs, [], []) && SortedWithin<Id>([], [], [])
    ensures PredecessorsFirst(AllDeps(tasks, TaskMap(tasks).Keys), [])
  {
  }

  // ----- the whole run

  /** Run all tasks; `batches` records which executors were started together, and
      `order` the sorted ids. */
  method Execute<Id(==, !new)>(tasks: seq<Task<Id>>, runs: Task<Id> -> bool)
    returns (r: Outcome<Id>, ghost batches: seq<seq<Id>>, ghost order: seq<Id>)
    ensures r.Rejected? <==> !KnownDeps(tasks, TaskMap(tasks))
    ensures r.Rejected? ==> batches == [] && r.id !in TaskMap(tasks) && NamedBy(tasks, r.id)
    ensures r.Completed? && Acyclic(AllDeps(tasks, TaskMap(tasks).Keys)) ==>
      && Finished(TaskMap(tasks), runs, r.results, batches)
      && Distinct(order) && (forall id :: id in order <==> id in TaskMap(tasks))
      && PredecessorsFirst(AllDeps(tasks, TaskMap(tasks).Keys), order) && SortedWithin(order, r.results, batches)
      && (r.success <==> forall id :: id in TaskMap(tasks) ==> runs(TaskMap(tasks)[id]))
    ensures r.Completed? && !Acyclic(AllDeps(tasks, TaskMap(tasks).Keys)) ==>
      && batches == [] && !r.success && Distinct(ResultIds(r.results))
      && (forall i :: 0 <= i < |r.results| ==> r.results[i].verdict.InCycle?)
      && (forall id :: id in ResultIds(r.results) <==>
            id in TaskMap(tasks) && !BelowCycle(AllDeps(tasks, TaskMap(tasks).Keys), id))
  {
    hide Inverse, AllDeps, Acyclic, KnownDeps, PredecessorsFirst, BelowCycle, Finished, SortedWithin;
    batches, order := [], [];
    if |tasks| == 0 {
      NoTasks(tasks, runs);
      return Completed(true, []), batches, order;
    }
    var dag, unknown := BuildGraph(tasks);
    if unknown.Some? {
      return Rejected(unknown.value), batches, order;
    }
    var sorted := dag.TopologicalSort();
    if sorted.CycleDetected? {
      var failures := seq(|sorted.sorted|, i requires 0 <= i < |sorted.sorted| =>
        TaskResult(sorted.sorted[i].id, InCycle));
      assert ResultIds(failures) == dag.Ids(sorted.sorted);
      return Completed(false, failures), batches, order;
    }
    ghost var kept := dag.nodes;
    order := dag.Ids(sorted.sorted);
    KeptGraph(tasks, order);
    NothingBelowCycle(dag.outgoing);
    var results;
    results, batches := RunBatches(dag.nodes, runs, dag.Ids(sorted.sorted));
    SuccessIff(kept, runs, results, batches);
    var success := forall i :: 0 <= i < |results| ==> results[i].verdict.Succeeded?;
    return Completed(success, results), batches, order;
  }
}
