# Verified models of the algorithmic cores

This project models, in Dafny 4.11, the parts of the repository whose correctness
rests on an argument rather than on reading a branch, and proves that argument.
`dafny verify dfyconfig.toml` checks all files.

| Source | Files | Main result |
|---|---|---|
| `scripts/maxflow.ts` | `FlowNetwork`, `Residual`, `Dinic` | `maxFlow` returns a maximum flow and a minimum cut after at most N - 1 phases |
| `src/core/dag/graph.ts` | `Digraphs`, `DepthFirst`, `Dag`, `BuildDag` | the sort, the subgraph extraction and the graph builder decide acyclicity exactly, and say exactly what they return |
| `scripts/bottleneck.ts` | `WalkCounting`, `Centrality`, `LayerSearch`, `Brandes` | the computed score is betweenness as defined by counting shortest paths |
| `src/core/dag/orchestrator.ts` | `Orchestrator` | a task runs exactly once, in the batch of its longest dependency chain, if and only if all it depends on succeeds |
| `src/core/auth/credential.ts` | `CredentialIndex`, `CredentialClient` | in every interleaving the shared index is the committed operations in commit order |
| `src/core/circular-queue/queue.ts` | `CircularQueue` | the ring buffer is a plain sequence, through wrap-around and growth |
| `src/core/audit/` | `Words`, `Cursors`, `Checksum`, `AuditLog`, `Tail`, `TailClient`, `Rotation` | cursors round-trip; the checksum covers all five fields; `pollTail` hands every matching entry out once, exactly under a stated condition on overlapping polls; eviction takes the shortest sufficient prefix |
| `scripts/arch-doc.ts` | `Cycles` | the reported lists are exactly the simple cycles of at most eight nodes |

`Collections`, `Sums` and `RealSums` hold the lists, sets and finite sums these share.

Code that changes state step by step is modelled by methods and classes over the same
fields, with their loops; its meaning is a specification on values (a network and its
feasible flows, a graph and its walks, a sequence, a history of commits), and the
theorems are about that specification. Concurrent clients and tail sessions are state
machines, and the methods of the code are shown to take the machine's steps: an awaited
call is split where it waits, and what others do to the shared state falls in between.

## How the arguments go

**Maximum flow.** A residual network is a value `net`; the class keeps the mutable
`Edge` objects equal to it. Every augmentation along an arc keeps forward and reverse
capacities adding up to the original, none negative, and moves value only from s to t
(`AugmentResidual`, `DeliverThroughArc`). Within a phase, arcs before the current arc of
a node are dead: no admissible walk to t goes through them, and augmentations keep them
dead (`DeadStaysDead`), so a `dfs` that returns 0 from s proves that no admissible walk
is left. Then the next search puts t strictly further away (`PhaseRaisesSink`): a
residual arc of the new network that was not there before runs down a level of the old
one. Distances stay below N, so the phases stop. At the end the reached side is a
saturated cut, its capacity is the value sent, and weak duality makes both optimal, also
against flows that are not integral. An added arc is stated by its entries and by its
effect (`ArcAddedCapacity`): the capacity from u to v grows, and no other does.
Self-loops are allowed. With s and t the same known node the search always succeeds and
`dfs` returns 1e9 forever, so the model asks for different names. The script prints the
residual capacity of cut edges, which is always 0 after a run (part of `MaxFlow`); the
original capacities are what adds up to the flow.

**Betweenness.** Shortest paths are sets of node lists. The share of v in the paths from
s to t is a quotient of set sizes, and the score is the sum over sources and targets.
Brandes' recurrence is derived from the bijection between shortest walks through v and
pairs of a walk to v and a walk on from v (`ThroughCount`), summed by children and by
targets. The search's `sigma` is proved to be the number of shortest paths, its `pred`
the last-but-one nodes, and the pop order of the stack to feed a node only complete
dependencies. The search enters target nodes only; what is scored is stated on the whole
call graph, with paths counted to methods that call something or are called more than
once (`FilteredBetweenness`): any other method has no calls, so it is inside no path.

**Building a graph.** What `buildDag` reports is fixed in both directions. Each
unresolved reference is reported once for every time a visited node makes it. Circular
references are reported on every closing edge that the search meets, so that the graph
without the reported edges is acyclic (`ReportsBreakCycles`).

**Cycles in task sets.** When the task graph has a cycle, the failure results list only
the tasks no cycle leads to: the ids on a cycle get no result at all (`Execute`). With a
repeated id the last task is kept, but the edges of all of them count for the cycle test.
An unknown dependency raises, which the model returns as `Rejected`.

**The shared index.** A write commits only when the version it expects is current. The
machine interleaves any number of calls; the invariant says that a call holds the entry
as it was after some number of commits, so a write is accepted exactly when nothing was
committed in between. A call that loses three times returns without an error and its id
is in no index: `AddCanBeDropped` exhibits the run, `GivesUpOnlyOvertaken` says that
three commits by other calls are needed for it, and `DroppedIffThreeCommits` that from
every reachable state three are enough.
What a commit does to the list is stated apart from the replay (`CommitEffect`): an add
appends, and a remove leaves the other ids their order and multiplicity.

**Tail sessions.** `pollTail` reads the cursor, awaits the query, and only then moves the
cursor and calls the subscribers. The machine therefore has two steps for a poll, with
any writes, prunes and other polls between them. Two polls back to back on one session
hand the same page out twice (`BackToBackRepeats`). Where polls settle in the order of
their starts, as with a logger that answers from memory, the exact condition is
`OnceIffStartsClear`: nothing is handed out twice if and only if every poll starts while
no entry of a waiting page is still in memory. (Overlapping alone is not enough for a
repeat: a prune may have removed the waiting page from memory.) If polls may settle in
any order, they must not overlap: then deliveries are strictly increasing
(`TailDelivery`), and otherwise they can come out of order (`OverlapDisorders`).
Each matching entry is handed out exactly if it is still in memory when its turn comes
(`ClaimedIffReached`).

**Paging for a prune pass.** The paging loop is such a session that polls one after the
other, with other writers between the pages. It stops at the first page that is not full,
and a page is full exactly while 500 entries are pending, so writers that keep up keep it
going (`ShortPageIff`); `CollectAll` is given a bound on what they write. It collects in
order, each entry once, exactly those still in memory when a page reaches them, and all
that is in memory when the last page is read. Exactly the selected ids are deleted. The
report is about the collected entries; it gives the size of the log exactly when as many
uncollected entries have come as unselected ones have gone (`PruneBackend`), and on a log
that nobody touches what is collected is the log (`UndisturbedCollects`).

**Cursors.** `encodeCursor` does not escape. `RoundTrip` is the exact condition: the text
fields contain neither `;` nor `=`. The one caller sets the boot id to a random UUID, so
minted cursors qualify; the tail and paging results name this as `Clean(bootId)`, which is
sufficient. That something is needed is shown by one boot id, `=`: no cursor minted under
it validates, and a reader starts over from the oldest entry (`SeparatorBootRepeats`).
Other separators need not break validation. The checksum is fixed byte by byte
(`ChecksumBytes`) as an exclusive or of character codes of the five printed fields, and a
minted cursor in which one character of one field is replaced no longer validates
(`MachineChangesHash`, `SequenceChangesHash`, `BootChangesHash`, `MonotonicChangesHash`,
`TimeChangesHash`).

**Unused options.** The `minLevel` option of a tail and `maxFileBytes` of a rotation
configuration are read by nothing in the code, so the model has neither.

**Cycle enumeration.** The `visiting` set is always the set of nodes on the path, so its
test never decides anything (asserted in `Dfs`). Up to eight modules an empty report
means an acyclic graph (`SmallGraphSilentIffAcyclic`); from nine on it does not
(`LongRingSilent`).

## Model

| member | source | states |
|---|---|---|
| FlowNetwork.CutCarriesValue | scripts/maxflow.ts:150-169 | for any node set that holds s and not t, the net outflow of s is what a feasible flow carries across its border, outwards minus inwards |
| FlowNetwork.WeakDuality | scripts/maxflow.ts:133-172 | no feasible s-t flow, integral or not, has a larger value than the capacity of any cut |
| FlowNetwork.PartnerSum | scripts/maxflow.ts:122-127 | a quantity written on the arcs from u to w, and the same quantity written on their partners, have the same sum |
| FlowNetwork.PushedFeasible | scripts/maxflow.ts:122-146 | the amounts taken off the original capacities form a feasible flow whose value is the amount transferred |
| FlowNetwork.SaturatedCutValue | scripts/maxflow.ts:150-169 | when no capacity is left on arcs leaving the source side, the amount transferred equals the original capacity of that cut |
| FlowNetwork.MaxFlowCertificate | scripts/maxflow.ts:150-172 | a saturated cut proves that the amount transferred is a maximum and equals the cut capacity |
| Residual.AugmentResidual | scripts/maxflow.ts:122-127 | moving d from an arc to its partner keeps well-formedness, non-negative capacities and every pair's sum |
| Residual.ResidualTrans | scripts/maxflow.ts:122-127 | those properties compose over successive augmentations |
| Residual.AugmentOut | scripts/maxflow.ts:122-127 | one augmentation lowers the outgoing capacity of its tail by d, raises that of its head by d and leaves all others |
| Residual.LevelIsDistance | scripts/maxflow.ts:100-114 | after the search a level is the length of a shortest residual walk from s, and negative exactly for unreachable nodes |
| Residual.WalkPace | scripts/maxflow.ts:141-148 | while no residual arc climbs more than one level, a walk from s climbs at most one level an arc, and one that climbs at every arc is admissible |
| Residual.PhaseRaisesSink | scripts/maxflow.ts:141-148 | if no admissible walk to t is left and the next search reaches t, the level of t has strictly increased |
| Residual.DeadStaysDead | scripts/maxflow.ts:116-131 | augmenting an admissible arc revives none of the arcs passed by the current-arc index |
| Residual.AllArcsDead | scripts/maxflow.ts:116-131 | a node all of whose arcs are dead has no admissible walk to t |
| Residual.DeliverThroughArc | scripts/maxflow.ts:122-127 | a delivery from the head of an admissible arc, settled on the arc, is a delivery of the same amount from its tail: conserved elsewhere, and no new admissible arc |
| Residual.NextPhase | scripts/maxflow.ts:141-148 | two successive successful searches raise the level of t, which stays below N |
| Residual.ReachableSaturated | scripts/maxflow.ts:150-163 | the nodes reached in the residual network form a saturated side |
| DinicFlow.WithArcWellFormed | scripts/maxflow.ts:92-98 | adding an arc and its partner keeps every arc and partner mutual inverses and all capacities non-negative, self-loops included |
| DinicFlow.ArcAddedCapacity | scripts/maxflow.ts:92-98 | an added arc raises the total capacity from its tail to its head by its own, and changes it between no other two nodes in either direction |
| DinicFlow.SpreadFinished | scripts/maxflow.ts:150-163 | the list built after the last phase is, without repetition, exactly what s reaches in the residual network |
| DinicFlow.FrontierFinished | scripts/maxflow.ts:100-114 | when the queue is empty the levels are those of the residual graph from s |
| DinicFlow.Dinic.constructor | scripts/maxflow.ts:86-90 | an empty network over the given names |
| DinicFlow.Dinic.AddEdge | scripts/maxflow.ts:92-98 | row u gains the arc to v with the given capacity and text `from→to`, row v its unlabelled partner without capacity, all earlier arcs stay; capacity from u to v grows by the given amount and from no other node to another; a self-loop enters both in its row; unknown names change nothing |
| DinicFlow.Dinic.Bfs | scripts/maxflow.ts:100-114 | computes residual levels from s and tells whether t was reached |
| DinicFlow.Dinic.Spend | scripts/maxflow.ts:123-126 | updates the two edge objects so that the network is the augmented one and nothing else changes |
| DinicFlow.Dinic.Dfs | scripts/maxflow.ts:116-131 | returns more than 0 exactly when an admissible walk to t exists, delivers that amount, changes nothing when 0 or when v = t, and keeps all arcs before the current arcs dead |
| DinicFlow.Dinic.Phase | scripts/maxflow.ts:141-148 | terminates having sent a positive amount and left no admissible walk to t |
| DinicFlow.Dinic.ResidualSide | scripts/maxflow.ts:150-163 | the distinct nodes that s reaches in the residual network |
| DinicFlow.Dinic.CutEdges | scripts/maxflow.ts:164-169 | collects exactly the labelled edges leaving the side, each once, and their original capacities add up to the cut capacity |
| DinicFlow.Dinic.CutSpent | scripts/maxflow.ts:164-169 | edges that leave a saturated side have no capacity left |
| DinicFlow.Dinic.RunPhases | scripts/maxflow.ts:138-148 | terminates within N - 1 phases with no residual walk from s to t left |
| DinicFlow.Dinic.MaxFlow | scripts/maxflow.ts:133-172 | the returned value is feasible, not exceeded by any feasible real-valued flow, equal to the capacity of a cut, and, on a network straight from `addEdge`, equal to the original capacities of the returned edges, which are exactly those crossing the cut |
| Digraphs.BackwardCycle | src/core/dag/graph.ts:175-182 | in a finite set whose members all have a predecessor in the set, every member is below a cycle |
| Digraphs.OrderedNotBelowCycle | src/core/dag/graph.ts:139-185 | no cycle leads to a node listed after all its predecessors |
| Digraphs.OrderedSetSafe | src/core/dag/graph.ts:195-229 | no cycle can be reached from a node listed after all its successors |
| DepthFirst.MetOnPath | src/core/dag/graph.ts:202-205 | meeting a node of the current path proves a cycle through it |
| DepthFirst.Finish | src/core/dag/graph.ts:207-219 | leaving a node whose successors are all finished keeps the search state |
| DepthFirst.SearchEnd | src/core/dag/graph.ts:195-229 | a finished search has visited exactly the reachable nodes, and met no path node exactly when no cycle is in reach |
| Dags.Dag.AddNode | src/core/dag/graph.ts:46-51 | inserts or replaces the node, keeps its edges, keeps both edge maps inverse |
| Dags.Dag.AddEdge | src/core/dag/graph.ts:57-63 | adds the edge in both maps, or reports which end is missing and changes nothing |
| Dags.KahnStart | src/core/dag/graph.ts:140-158 | counted in-degrees and the queue of zero-degree nodes satisfy the invariant of the sort |
| Dags.KahnEmit | src/core/dag/graph.ts:161-166 | emitting the head of the queue keeps the order and the degree accounting |
| Dags.KahnRelax | src/core/dag/graph.ts:168-172 | lowering a successor's degree, queueing it at 0, keeps the accounting |
| Dags.EmittedIffNotBelowCycle | src/core/dag/graph.ts:139-185 | when the queue is empty a node has been emitted exactly when no cycle leads to it |
| Dags.KahnEnd | src/core/dag/graph.ts:175-184 | all nodes are emitted exactly when the graph is acyclic; those left over are exactly the ones with positive degree |
| Dags.Dag.CountInDegrees | src/core/dag/graph.ts:142-152 | every in-degree is the number of predecessors |
| Dags.Dag.TopologicalSort | src/core/dag/graph.ts:139-185 | succeeds exactly on acyclic graphs; lists exactly the nodes no cycle leads to, once each, predecessors first; the remaining ids are all others |
| Dags.Dag.Visit | src/core/dag/graph.ts:202-220 | the recursive visit finishes the node with everything it reaches copied, or reports a missing node or a cycle in reach |
| Dags.Dag.ReachableSubgraph | src/core/dag/graph.ts:195-229 | succeeds exactly when the root exists and reaches no cycle; the result has exactly the reachable nodes and exactly the edges among them; fails with not-found exactly for a missing root, otherwise with an id in reach that is on a cycle |
| DagBuilding.BuildVisit | src/core/dag/graph.ts:259-286 | one visit of the builder: terminates, keeps the partial copy and the justified errors, and leaves the id finished, reported as unresolved, or reported with the edge that closes a cycle; unresolved ids are counted |
| DagBuilding.ReportsBreakCycles | src/core/dag/graph.ts:259-263 | when every edge of a finished node leads to an earlier finished one or has been reported, the graph without the reported edges is acyclic |
| DagBuilding.BuildOutcome | src/core/dag/graph.ts:248-290 | what the finished search state says about nodes, edges, errors and cycles |
| DagBuilding.BuildDag | src/core/dag/graph.ts:248-290 | nodes are exactly the resolvable ids in reach and edges exactly their resolvable references; not-found errors are exactly the dangling references, each as often as the visited nodes make it; circular errors carry a genuine closing trail, occur exactly when a cycle is in reach, and without their closing edges the result is acyclic; no errors means an acyclic result |
| WalkCounting.WalksByLastEdge | scripts/bottleneck.ts:112-115 | the walks of k + 1 edges are counted by their last edge |
| WalkCounting.WalksByFirstEdge | scripts/bottleneck.ts:119-128 | the walks of k + 1 edges are counted by their first edge |
| WalkCounting.ThroughCount | scripts/bottleneck.ts:119-128 | the shortest walks from s to t through v are as many as shortest walks to v times walks on from v, or none if v is too far |
| Centrality.LayersAreDistances | scripts/bottleneck.ts:88-117 | layers in which edges climb at most one step and every node has a parent are shortest-path distances |
| Centrality.WalksByParents | scripts/bottleneck.ts:112-115 | shortest paths to a node add up those to its parents |
| Centrality.WalksByChildren | scripts/bottleneck.ts:119-128 | shortest paths onwards from a node add up those from its children |
| Centrality.PathsPositive | scripts/bottleneck.ts:122 | a reached node has at least one shortest path, so no division by zero |
| Centrality.ShareByLayers | scripts/bottleneck.ts:119-128 | the share of v in the shortest paths to t, written with path counts by layers |
| Centrality.DependencyRecurrence | scripts/bottleneck.ts:119-128 | the dependency on a node, defined over all targets, is the sum passed up by its children |
| Centrality.UnreachedDependency | scripts/bottleneck.ts:119-128 | nothing depends on an unreached node |
| LayerSearch.Discover | scripts/bottleneck.ts:107-111 | entering a new node at the next layer keeps the search state |
| LayerSearch.FollowCounts | scripts/bottleneck.ts:112-115 | an edge into the next layer adds the path count and lists the predecessor |
| LayerSearch.SigmaCounts | scripts/bottleneck.ts:112-115 | `sigma` is the number of shortest paths |
| LayerSearch.SearchEnds | scripts/bottleneck.ts:79-117 | at the end: distances, path counts, exact predecessor lists, and a stack of the reached nodes in non-decreasing distance |
| Brandes.Expand | scripts/bottleneck.ts:102-116 | following the calls of one node keeps the search state |
| Brandes.SearchFrom | scripts/bottleneck.ts:82-117 | the search establishes the result above for the graph filtered to target nodes |
| Brandes.ChildrenPopped | scripts/bottleneck.ts:119-128 | when a node is popped all its children have been |
| Brandes.CollectPop | scripts/bottleneck.ts:119-128 | feeding all predecessors of the popped node completes its contribution |
| Brandes.FeedParents | scripts/bottleneck.ts:120-124 | passes exactly the popped node's share to each predecessor |
| Brandes.Accumulate | scripts/bottleneck.ts:119-128 | every score grows by the dependency of the source on that node, that of the source itself by nothing |
| Brandes.FilteredBetweenness | scripts/bottleneck.ts:77-106 | betweenness in the filtered graph is the sum, over the other located sources and the nodes with calls or more than one caller, of the share of the node in the shortest paths of the unfiltered call graph |
| Brandes.ComputeBetweenness | scripts/bottleneck.ts:71-132 | every node is scored the sum of its shares in the shortest paths of the unfiltered call graph, from the other located nodes to the nodes with calls or more than one caller |
| Orchestration.WillRunByDeps | src/core/dag/orchestrator.ts:82-85 | a task will run exactly when all its direct dependencies will succeed |
| Orchestration.ChainsByDeps | src/core/dag/orchestrator.ts:77-116 | chain lengths by direct dependencies |
| Orchestration.ReadyIff | src/core/dag/orchestrator.ts:82-85 | after k batches a pending task is ready exactly when it will run and its chains fit in k + 1 batches |
| Orchestration.ScheduleStep | src/core/dag/orchestrator.ts:96-115 | one batch keeps the schedule invariant |
| Orchestration.NothingLeftToRun | src/core/dag/orchestrator.ts:87-94 | an empty batch means that no pending task can ever run |
| Orchestration.ScheduleEnds | src/core/dag/orchestrator.ts:87-121 | the results after the last batch are complete and correct |
| Orchestration.ReadyTasks | src/core/dag/orchestrator.ts:82-85 | the pending tasks whose dependencies are all completed, each once and in pending order |
| Orchestration.SettleAll | src/core/dag/orchestrator.ts:96-104 | executors finish in any order; every task of the batch ends with its own outcome |
| Orchestration.RunBatch | src/core/dag/orchestrator.ts:96-115 | whatever the order of finishing, one result for each task in batch order, successes completed, all no longer pending and the others pending in the same order |
| Orchestration.RunBatches | src/core/dag/orchestrator.ts:77-116 | terminates with one result for each id and the batches by longest chain |
| Orchestration.BuildGraph | src/core/dag/orchestrator.ts:55-62 | the graph of the kept tasks with the dependencies of all tasks, or an unknown id that some task depends on |
| Orchestration.SuccessIff | src/core/dag/orchestrator.ts:118-121 | all results are successes exactly when every task succeeds |
| Orchestration.Execute | src/core/dag/orchestrator.ts:49-122 | rejects exactly unknown dependencies, naming one; on acyclic tasks every id gets one result with the right verdict, the results begin with the tasks run, batch by batch, and those of one batch, like those never run, are in sorted order; tasks run exactly when all they depend on succeeds, each once and in the batch of its longest chain; on cycles nothing runs and the results are exactly the ids no cycle leads to, each once |
| CredentialIndex.AcceptsIffCurrent | src/core/auth/credential.ts:265-280 | a compare-and-set is accepted exactly when nothing has been committed since the read |
| CredentialIndex.CommitInv | src/core/auth/credential.ts:265-280 | a committing write keeps the invariant of all calls |
| CredentialIndex.NextInv | src/core/auth/credential.ts:265-280 | every step of every client keeps the invariant |
| CredentialIndex.RunInv | src/core/auth/credential.ts:265-280 | the invariant holds in every state of every run |
| CredentialIndex.IndexIsReplay | src/core/auth/credential.ts:265-280 | in every run the index is the initial list with the committed operations applied in commit order, and history is only extended |
| CredentialIndex.CommitEffect | src/core/auth/credential.ts:265-280 | in every run the commit of an add appends the id, and the commit of a remove drops every occurrence of its id and keeps the number and the relative order of all others |
| CredentialIndex.ReplayMembers | src/core/auth/credential.ts:265-280 | an id is listed exactly when it was there or committed and no committed remove came after |
| CredentialIndex.CommitsAtMostOnce | src/core/auth/credential.ts:265-280 | no call commits twice, and it is marked committed exactly when it has |
| CredentialIndex.WritesIffNotOvertaken | src/core/auth/credential.ts:269-278 | in every run a write goes through exactly when no commit came after its read |
| CredentialIndex.GivesUpOnlyOvertaken | src/core/auth/credential.ts:265-271 | a call gives up only after three commits since it began, none of them its own |
| CredentialIndex.DroppedIffThreeCommits | src/core/auth/credential.ts:265-271 | from every reachable state a new add can end without error and without its id in the index after n commits by others if and only if n is at least three |
| CredentialIndex.AddCanBeDropped | src/core/auth/credential.ts:265-271 | so an add on an empty index can be lost |
| Collections.WithoutCounts | src/core/auth/credential.ts:277 | filtering an id out keeps every other id as often as it was |
| Collections.WithoutKeepsOrder | src/core/auth/credential.ts:277 | of two other ids one stands before the other after the filter exactly when it did before |
| Collections.WithoutConcat | src/core/auth/credential.ts:277 | filtering a list is filtering its parts |
| CredentialClients.SharedIndex.CompareAndSet | src/core/auth/credential.ts:268-279 | writing the derived list under the expected version is the machine's write step |
| CredentialClients.SharedIndex.Get | src/core/auth/credential.ts:267-276 | reading the index is the machine's read step |
| CredentialClients.SharedIndex.AddToIndex | src/core/auth/credential.ts:265-271 | with any steps of others between the store calls, the loop is a run of the machine: it ends committed, or given up after three foreign commits, and the index is the replay of the history |
| CredentialClients.SharedIndex.RemoveFromIndex | src/core/auth/credential.ts:273-280 | the same for removal, which may also find no index |
| CircularQueues.CircularQueue.constructor | src/core/circular-queue/queue.ts:43-48 | an empty queue; a positive capacity is fixed, otherwise 16 and growing |
| CircularQueues.CircularQueue.Enqueue | src/core/circular-queue/queue.ts:56-65 | appends; refused exactly when full and fixed; grows only when full |
| CircularQueues.CircularQueue.Dequeue | src/core/circular-queue/queue.ts:71-78 | drops and returns the first value, nothing when empty |
| CircularQueues.CircularQueue.Peek | src/core/circular-queue/queue.ts:84-86 | the first value, nothing when empty (dead slots are blank) |
| CircularQueues.CircularQueue.Rotate | src/core/circular-queue/queue.ts:107-112 | rotates left by one in the same buffer and returns the new head |
| CircularQueues.CircularQueue.DequeueTail | src/core/circular-queue/queue.ts:118-125 | drops and returns the last value, nothing when empty |
| CircularQueues.CircularQueue.Clear | src/core/circular-queue/queue.ts:128-133 | empties the queue and blanks every slot |
| CircularQueues.CircularQueue.At | src/core/circular-queue/queue.ts:142-146 | the value at a logical index, from the end when negative, nothing out of range |
| CircularQueues.CircularQueue.ToArray | src/core/circular-queue/queue.ts:157-163 | the queued values in order |
| CircularQueues.CircularQueue.Resize | src/core/circular-queue/queue.ts:216-226 | a fresh buffer of twice the capacity with the same contents |
| CircularQueues.RotatedIs | src/core/circular-queue/queue.ts:107-112 | k rotations move the first k values to the end |
| CircularQueues.FullRound | src/core/circular-queue/queue.ts:107-112 | as many rotations as values restore the order, each position current exactly once |
| Cursors.RoundTrip | src/core/audit/types.ts:89-104 | parsing a printed cursor gives it back if and only if its text fields contain no separator |
| Cursors.DecodedClean | src/core/audit/types.ts:94-104 | parsed text fields never contain a separator |
| Cursors.ComputeXorHash | src/core/audit/types.ts:117-122 | the nested loops compute the checksum over the printed fields |
| Cursors.FoldPartsDiffer | src/core/audit/types.ts:117-122 | field lists of equal lengths that differ in one character below code 256 fold to different values |
| Cursors.HexTextInjective | src/core/audit/types.ts:121 | different 32-bit values print differently |
| Cursors.OneCharChangesHash | src/core/audit/types.ts:117-122 | changing one such character changes the checksum |
| Checksums.ChecksumBytes | src/core/audit/types.ts:117-122 | byte k of the checksum is the exclusive or of the character codes at positions k modulo 4 of machine hash, sequence number, boot id, monotonic time and time as printed, for codes below 256 |
| Checksums.HexTextReads | src/core/audit/types.ts:121 | a 32-bit value is printed as eight hexadecimal digits that read as that value |
| Checksums.MachineChangesHash | src/core/audit/types.ts:117-122 | replacing one character of the machine hash, codes below 256, changes the checksum, and a minted cursor so altered does not validate |
| Checksums.SequenceChangesHash | src/core/audit/types.ts:117-122 | the same for one digit of the sequence number |
| Checksums.BootChangesHash | src/core/audit/types.ts:117-122 | the same for one character of the boot id |
| Checksums.MonotonicChangesHash | src/core/audit/types.ts:117-122 | the same for one digit of the monotonic time |
| Checksums.TimeChangesHash | src/core/audit/types.ts:117-122 | the same for one digit of the time |
| Checksums.PrintedExample | src/core/audit/types.ts:89-91 | the printed form of a cursor with every field different |
| Checksums.ParsedNumbers | src/core/audit/types.ts:94-104 | an absent number is not a number, empty text is zero, leading zeros are skipped, other text is not a number |
| Checksums.ParsedTexts | src/core/audit/types.ts:94-104 | the last of two equal keys wins, a second equals sign cuts the value short, other keys are skipped |
| Cursors.MintedCursor | src/core/audit/hybrid-logger.ts:57-61 | a minted cursor survives printing and parsing exactly when machine hash and boot id have no separator, and then passes validation |
| Cursors.SeparatorBootInvalid | src/core/audit/hybrid-logger.ts:115-118 | under the boot id `=` no minted cursor passes validation |
| AuditLog.FiltersCombine | src/core/audit/hybrid-logger.ts:129-136 | the successive filters select by their conjunction |
| AuditLog.FilterAfter | src/core/audit/hybrid-logger.ts:96-105 | filtering a log in sequence by a cursor position is dropping a prefix |
| AuditLog.HybridAuditLogger.Store | src/core/audit/hybrid-logger.ts:48-73 | appends under the next sequence number and lets the oldest go when full; the printed cursor, parsed, has that number, the machine hash, the boot id, the monotonic reading and the time |
| AuditLog.KeptIsNewest | src/core/audit/hybrid-logger.ts:71-72 | writing keeps the memory the newest part, up to the limit, of everything written |
| AuditLog.SelectedMembers | src/core/audit/hybrid-logger.ts:88-105 | an entry of a log in sequence is selected exactly when it is in memory, matches facility and times, and lies after the cursor when one is given and valid |
| AuditLog.SliceIsPage | src/core/audit/hybrid-logger.ts:107-108 | entry k of the page is entry offset + k of the selection, as many as the limit allows, all when there is none |
| AuditLog.HybridAuditLogger.Query | src/core/audit/hybrid-logger.ts:88-112 | entry k of the page is entry offset + k of the selection, cut at the limit; the total is the count before slicing, and the next cursor that of the last entry |
| AuditLog.HybridAuditLogger.Prune | src/core/audit/hybrid-logger.ts:179-183 | keeps exactly the entries from the given time on, in order |
| AuditLog.HybridAuditLogger.PruneByIds | src/core/audit/hybrid-logger.ts:206-210 | keeps exactly the entries with other ids, in order |
| Tail.PollIsBatch | src/core/audit/tail.ts:52-58 | the query of a poll returns the oldest matching entries after the cursor |
| Tail.ClearRunInv | src/core/audit/tail.ts:47-72 | the invariant of a tail session over every run of writes, prunes, starts and settlings in turn whose polls start clear |
| Tail.OnceIffStartsClear | src/core/audit/tail.ts:47-72 | when polls settle in the order of their starts, nothing is handed out twice if and only if every poll starts while no entry of a waiting page is still in memory |
| Tail.TailDelivery | src/core/audit/tail.ts:47-72 | when polls do not overlap, whatever the order of settling, deliveries are matching written entries in strictly increasing sequence order; an entry in memory has been claimed exactly when it matches and lies at or before the last claim |
| Tail.OverlapDisorders | src/core/audit/tail.ts:58-63 | wherever a poll with something to deliver starts while another one waits, the newer may settle first and deliveries come out of order |
| Tail.BackToBackRepeats | src/core/audit/tail.ts:52-64 | two polls before the first settles hand the same page out twice, whenever anything is pending |
| Tail.ClaimedIffReached | src/core/audit/tail.ts:47-72 | each matching entry is handed out exactly if it is still in memory when a page reaches it |
| Tail.PollProgress | src/core/audit/tail.ts:52-58 | a poll that starts clear takes the oldest of what is pending: at least one if any, all if the batch allows; what stays pending is the rest |
| Tail.SeparatorBootRepeats | src/core/audit/hybrid-logger.ts:96-105 | under the boot id `=` a poll from any minted cursor returns what a poll from the start returns |
| TailClients.TailSession.Write | src/core/audit/hybrid-logger.ts:48-73 | storing an entry is the machine's write step |
| TailClients.TailSession.Prune | src/core/audit/hybrid-logger.ts:179-183 | pruning by time is the machine's prune step |
| TailClients.TailSession.PruneByIds | src/core/audit/hybrid-logger.ts:206-210 | pruning by ids is the machine's prune step |
| TailClients.TailSession.PollTail | src/core/audit/tail.ts:47-72 | a poll is the machine's start step, any steps of others and of other polls while the query is awaited, and the settling of its own page |
| Tail.ShortPageIff | src/core/audit/rotation.ts:126-131 | a page is short exactly when fewer entries than a full page are pending, and then it takes all that is in memory |
| TailClients.CollectAll | src/core/audit/rotation.ts:126-131 | with others writing and pruning between the pages, the loop is a run of the machine without overlapping polls; it stops at the first short page and has then collected all that page found in memory |
| TailClients.CollectedIffReached | src/core/audit/rotation.ts:126-131 | collected are exactly the entries still in memory when a page reached them |
| TailClients.UndisturbedCollects | src/core/audit/rotation.ts:126-131 | on a log that nobody touches, the whole log in order |
| Rotation.SortFacts | src/core/audit/rotation.ts:63 | the sort by time is a permutation in ascending order |
| Rotation.SortStable | src/core/audit/rotation.ts:63 | entries of the same time keep their order |
| Rotation.SizeOfList | src/core/audit/rotation.ts:97-106 | the size of a list adds up, for each entry, message length, metadata length and 200 |
| Rotation.SelectEntriesToPrune | src/core/audit/rotation.ts:56-94 | selects the shortest oldest-first prefix after which only `minEntries` remain or the age and size limits hold |
| Rotation.TrimToSize | src/core/audit/rotation.ts:83-91 | the size pass stops as soon as the rest is settled |
| Rotation.AgedIds | src/core/audit/rotation.ts:69-77 | the age pass removes a prefix and stops at `minEntries` |
| Rotation.KeepsMinimum | src/core/audit/rotation.ts:56-94 | never leaves fewer than `minEntries`, or than were given |
| Rotation.SelectionUnique | src/core/audit/rotation.ts:56-94 | entries, limits and instant determine the selection |
| Rotation.SecondPassIdle | src/core/audit/rotation.ts:56-94 | a second pass at the same instant removes nothing |
| Rotation.SelectionAddsUp | src/core/audit/rotation.ts:139-146 | removed and remaining counts and bytes add up to those before |
| Rotation.ReportAgrees | src/core/audit/rotation.ts:138-146 | after the deletion the log holds what was reported, less unselected entries that have gone, plus entries that were not collected |
| Rotation.PruneBackend | src/core/audit/rotation.ts:116-147 | with others writing and pruning meanwhile: selects from what was collected, deletes exactly the selected ids, reports counts and bytes of what was collected, and agrees with the log exactly when as many entries came as went |
| CycleSearch.ClosedTrail | scripts/arch-doc.ts:98-102 | the reported slice is a simple cycle |
| CycleSearch.Dfs | scripts/arch-doc.ts:97-110 | terminates; reports only short simple cycles, and every one that begins with the current trail |
| CycleSearch.FindCycles | scripts/arch-doc.ts:94-113 | a list is reported if and only if it is a simple cycle of at most eight nodes |
| CycleSearch.SmallGraphSilentIffAcyclic | scripts/arch-doc.ts:94-113 | with at most eight modules nothing is reported exactly when the graph is acyclic |
| CycleSearch.ShortRingReported | scripts/arch-doc.ts:101 | the ring of up to eight modules is a cycle that is reported |
| CycleSearch.LongRingSilent | scripts/arch-doc.ts:101 | a ring of more than eight modules is a cycle and nothing is reported |

## Left out

- HTTP assembly, middleware, routing, configuration, schemas, generated clients and export scripts.
- Web Crypto users, storage back ends other than the in-memory log, queue workers: their meaning sits in code outside the repository.
- The store-backed path of the audit logger: its merged results are newest first and do not page forward.
- Small queries that only read a field or a set (`predecessorsOf`, `sources`, `sinks`, `includes`, `values`, `entries`, sizes).
- Iteration order of JavaScript maps and sets where a result depends on it only in order: the model picks any order, so the results hold for the actual one.
- Machine numbers: levels, capacities and counts are unbounded integers, and capacities given to `addEdge` are non-negative integers.
- Brandes.ComputeBetweenness: uses exact reals where the script uses floating point; the guarantees of the graph builder (callees without repetition, fan-out their number) are assumed; a located node that no search reaches has no entry in the returned map and reads as 0.
- DinicFlow.Dinic.MaxFlow: asks for different names, because with s and t the same known node the loop never ends: `Dinic.Dfs` states that a call with v = t returns its bound and changes nothing. The order in which the cut edges are listed is not stated.
- DagBuilding.BuildDag: the lookup is a finite store whose nodes carry the id they are found under; failures of the lookup itself are not modelled. The order of the errors is not stated, nor how often a circular error is repeated when a node lists the same reference twice.
- Dags.Dag.TopologicalSort: of nodes with no path between them either may come first.
- Orchestration.Execute: the executor is an answer for each task; error texts are not modelled, only their kinds.
- CredentialClients.SharedIndex.Others: stands for all other clients; the atomic store itself is assumed to accept a write exactly when the expected version is current, null meaning absent, and to give every commit a new, truthy version.
- Credential records besides the index: encryption and the reads and writes of single records.
- Cursors.Decode: `Number()` of text that is not a plain decimal numeral is kept as "other number", and such a cursor counts as invalid in the model; character codes are 16-bit units.
- AuditLog.HybridAuditLogger.Store: entry fields that nothing here reads (level, priority, actor, trusted), metadata sanitising, console output and random ids are not modelled; clock readings are parameters.
- TailClients.TailSession.PollTail: subscribers are one list of received entries, and a session keeps one facility; timers and `stopTail` are not modelled. The boot id is assumed free of separators.
- The WebSocket handler: it also sends the first non-empty batch itself after its subscriber has sent it, so each connection receives that batch twice; the results above are about `pollTail`.
- AuditLog.HybridAuditLogger.Query: a cursor whose numbers are not plain decimals counts as invalid here, while the code evaluates such text.
- TailClients.CollectAll: takes a bound on what others write while it pages, without which it need not end.
- Rotation.PruneBackend: log ids are assumed unique, as generated; deletion from a durable store is not modelled.
- CycleSearch.FindCycles: names inherited by every JavaScript object, for which `in` also answers true, are assumed not to occur as module paths; the order of the reports, and how often a cycle is repeated, are not stated.
