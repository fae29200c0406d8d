/** The shared credential index: any number of clients running read / compare-
    and-set retry loops against one versioned key, as interleaved steps. */
module CredentialIndex {
  import opened Collections

  type Version = nat
  type Client = nat

  const ATTEMPTS: nat := 3

  datatype Entry<Id> = Entry(ids: seq<Id>, version: Version)

  datatype Operation<Id> = Add(id: Id) | Remove(id: Id)

  /** Where a call stands.  `Reading` is about to read for the given attempt;
      `Writing` holds the entry it read, and how many commits preceded the read. */
  datatype Phase<Id> =
    | Reading(attempt: nat)
    | Writing(attempt: nat, snapshot: Option<Entry<Id>>, readAt: nat)
    | Committed
    | NothingToRemove
    | GaveUp

  /** A call, and how many commits preceded its start. */
  datatype Call<Id> = Call(op: Operation<Id>, phase: Phase<Id>, startedAt: nat)

  datatype Commit<Id> = Commit(client: Client, op: Operation<Id>, version: Version)

  /** The stored entry, the calls made so far, and the history of commits. */
  datatype State<Id> = State(entry: Option<Entry<Id>>, calls: map<Client, Call<Id>>,
                             initial: Option<Entry<Id>>, log: seq<Commit<Id>>)

  /** The list a call writes, given the list it read. */
  function Updated<Id(==)>(ids: seq<Id>, op: Operation<Id>): seq<Id> {
    match op
    case Add(id) => ids + [id]
    case Remove(id) => Without(ids, id)
  }

  function IdsOf<Id>(entry: Option<Entry<Id>>): seq<Id> {
    match entry
    case None => []
    case Some(e) => e.ids
  }

  /** The store accepts a write when the expected version is the current one,
      null meaning that the key is absent. */
  predicate Accepts<Id>(entry: Option<Entry<Id>>, snapshot: Option<Entry<Id>>) {
    match (entry, snapshot)
    case (None, None) => true
    case (Some(e), Some(s)) => e.version == s.version
    case _ => false
  }

  // ----- steps

  ghost predicate Init<Id>(s: State<Id>) {
    s.calls == map[] && s.log == [] && s.entry == s.initial
  }

  ghost predicate Begin<Id>(s: State<Id>, s': State<Id>, c: Client, op: Operation<Id>) {
    c !in s.calls && s' == s.(calls := s.calls[c := Call(op, Reading(0), |s.log|)])
  }

  ghost predicate Read<Id>(s: State<Id>, s': State<Id>, c: Client) {
    c in s.calls && s.calls[c].phase.Reading? && s' == AfterRead(s, c)
  }

  /** A remove that finds no index ends there; otherwise the call goes on to write. */
  function AfterRead<Id>(s: State<Id>, c: Client): State<Id>
    requires c in s.calls && s.calls[c].phase.Reading?
  {
    var call := s.calls[c];
    var phase := if s.entry.None? && call.op.Remove? then NothingToRemove
                 else Writing(call.phase.attempt, s.entry, |s.log|);
    s.(calls := s.calls[c := call.(phase := phase)])
  }

  /** The versions that have been seen: the initial one and one for each commit. */
  predicate Issued<Id>(s: State<Id>, v: Version) {
    (s.initial.Some? && s.initial.value.version == v) || exists i :: 0 <= i < |s.log| && s.log[i].version == v
  }

  ghost predicate Write<Id>(s: State<Id>, s': State<Id>, c: Client, fresh': Version) {
    && c in s.calls && s.calls[c].phase.Writing?
    && (Accepts(s.entry, s.calls[c].phase.snapshot) ==> !Issued(s, fresh'))
    && s' == AfterWrite(s, c, fresh')
  }

  /** A compare-and-set commits what the call derived from its snapshot, or sends
      the call to its next attempt; the third failure ends it. */
  function AfterWrite<Id(==)>(s: State<Id>, c: Client, fresh': Version): State<Id>
    requires c in s.calls && s.calls[c].phase.Writing?
  {
    var call := s.calls[c];
    if Accepts(s.entry, call.phase.snapshot) then
      s.(entry := Some(Entry(Updated(IdsOf(call.phase.snapshot), call.op), fresh')),
         calls := s.calls[c := call.(phase := Committed)],
         log := s.log + [Commit(c, call.op, fresh')])
    else
      var next := call.phase.attempt + 1;
      s.(calls := s.calls[c := call.(phase := if next < ATTEMPTS then Reading(next) else GaveUp)])
  }

  ghost predicate Next<Id(!new)>(s: State<Id>, s': State<Id>) {
    || (exists c, op :: Begin(s, s', c, op))
    || (exists c :: Read(s, s', c))
    || (exists c, v :: Write(s, s', c, v))
  }

  ghost predicate Run<Id(!new)>(run: seq<State<Id>>) {
    run != [] && Init(run[0]) && forall i, j :: 0 <= i < j < |run| && j == i + 1 ==> Next(run[i], run[j])
  }

  // ----- what the history means

  /** The operations applied one after the other. */
  function Replay<Id(==)>(ids: seq<Id>, log: seq<Commit<Id>>): seq<Id> {
    if log == [] then ids else Updated(Replay(ids, log[..|log| - 1]), log[|log| - 1].op)
  }

  /** The entry after the first n commits. */
  function EntryAfter<Id(==)>(s: State<Id>, n: nat): Option<Entry<Id>>
    requires n <= |s.log|
  {
    if n == 0 then s.initial
    else Some(Entry(Replay(IdsOf(s.initial), s.log[..n]), s.log[n - 1].version))
  }

  ghost predicate FreshVersions<Id>(s: State<Id>) {
    && (forall i, j :: 0 <= i < j < |s.log| ==> s.log[i].version != s.log[j].version)
    && (s.initial.Some? ==> forall i :: 0 <= i < |s.log| ==> s.log[i].version != s.initial.value.version)
  }

  /** A call in progress read an entry that was current then, and each of its
      failed attempts was overtaken by another commit. */
  ghost predicate CallOk<Id>(s: State<Id>, c: Client)
    requires c in s.calls
  {
    var call := s.calls[c];
    && call.startedAt <= |s.log|
    && (match call.phase
        case Reading(a) => a < ATTEMPTS && call.startedAt + a <= |s.log|
        case Writing(a, snap, at) =>
          a < ATTEMPTS && call.startedAt + a <= at <= |s.log| && snap == EntryAfter(s, at)
          && (call.op.Remove? ==> snap.Some?)
        case GaveUp => call.startedAt + ATTEMPTS <= |s.log|
        case _ => true)
    && (forall i :: 0 <= i < |s.log| && s.log[i].client == c ==>
          call.phase.Committed? && s.log[i].op == call.op && call.startedAt <= i)
    && (call.phase.Committed? ==> exists i :: 0 <= i < |s.log| && s.log[i].client == c)
  }

  ghost predicate Inv<Id>(s: State<Id>) {
    && s.entry == EntryAfter(s, |s.log|)
    && FreshVersions(s)
    && (forall c :: c in s.calls ==> CallOk(s, c))
    && (forall i :: 0 <= i < |s.log| ==> s.log[i].client in s.calls)
    && (forall i, j :: 0 <= i < j < |s.log| ==> s.log[i].client != s.log[j].client)
  }

  /** A compare-and-set succeeds exactly when nothing was committed since the read. */
  lemma AcceptsIffCurrent<Id>(s: State<Id>, at: nat)
    requires s.entry == EntryAfter(s, |s.log|) && FreshVersions(s) && at <= |s.log|
    ensures Accepts(s.entry, EntryAfter(s, at)) <==> at == |s.log|
  {
  }

  lemma InitInv<Id>(s: State<Id>)
    requires Init(s)
    ensures Inv(s)
  {
  }

  lemma BeginInv<Id>(s: State<Id>, s': State<Id>, c: Client, op: Operation<Id>)
    requires Inv(s) && Begin(s, s', c, op)
    ensures Inv(s')
  {
    forall d | d in s'.calls
      ensures CallOk(s', d)
    {
      if d != c {
        assert CallOk(s, d);
      }
    }
  }

  lemma ReadInv<Id>(s: State<Id>, s': State<Id>, c: Client)
    requires Inv(s) && Read(s, s', c)
    ensures Inv(s')
  {
    forall d | d in s'.calls
      ensures CallOk(s', d)
    {
      assert CallOk(s, d);
    }
  }

  lemma FailedWriteInv<Id>(s: State<Id>, s': State<Id>, c: Client, v: Version)
    requires Inv(s) && Write(s, s', c, v) && !Accepts(s.entry, s.calls[c].phase.snapshot)
    ensures Inv(s')
  {
    assert CallOk(s, c);
    AcceptsIffCurrent(s, s.calls[c].phase.readAt);
    forall d | d in s'.calls
      ensures CallOk(s', d)
    {
      assert CallOk(s, d);
    }
  }

  lemma EntryStays<Id>(s: State<Id>, s': State<Id>, n: nat)
    requires n <= |s.log| && s'.initial == s.initial && s.log <= s'.log
    ensures EntryAfter(s', n) == EntryAfter(s, n)
  {
    assert s'.log[..n] == s.log[..n];
  }

  lemma CommitFresh<Id>(s: State<Id>, s': State<Id>, c: Client, v: Version)
    requires FreshVersions(s) && Write(s, s', c, v) && Accepts(s.entry, s.calls[c].phase.snapshot)
    ensures FreshVersions(s')
  {
  }

  /** The calls other than the committing one stand where they stood. */
  lemma OthersStay<Id>(s: State<Id>, s': State<Id>, c: Client, d: Client)
    requires d in s.calls && CallOk(s, d) && d != c
    requires d in s'.calls && s'.calls[d] == s.calls[d] && s'.initial == s.initial
    requires s.log <= s'.log && forall i :: |s.log| <= i < |s'.log| ==> s'.log[i].client == c
    ensures CallOk(s', d)
  {
    hide EntryAfter;
    if s.calls[d].phase.Writing? {
      EntryStays(s, s', s.calls[d].phase.readAt);
    }
  }

  /** A committing write extends the history by its own commit. */
  ghost predicate Committing<Id>(s: State<Id>, s': State<Id>, c: Client, v: Version) {
    && c in s.calls && s.calls[c].phase.Writing?
    && s'.initial == s.initial && s'.log == s.log + [Commit(c, s.calls[c].op, v)]
    && s'.calls == s.calls[c := s.calls[c].(phase := Committed)]
    && s'.entry == Some(Entry(Updated(IdsOf(s.calls[c].phase.snapshot), s.calls[c].op), v))
  }

  lemma WriteCommits<Id>(s: State<Id>, s': State<Id>, c: Client, v: Version)
    requires Write(s, s', c, v) && Accepts(s.entry, s.calls[c].phase.snapshot)
    ensures Committing(s, s', c, v)
  {
  }

  /** The stored list is the replay including the new commit. */
  lemma CommitEntry<Id>(s: State<Id>, s': State<Id>, c: Client, v: Version)
    requires Committing(s, s', c, v) && s.calls[c].phase.snapshot == EntryAfter(s, |s.log|)
    ensures s'.entry == EntryAfter(s', |s'.log|)
  {
    hide Updated, Replay, EntryAfter;
    EntryNow(s);
    EntryNow(s');
    ReplayAppend(IdsOf(s.initial), s.log, Commit(c, s.calls[c].op, v));
  }

  lemma ReplayAppend<Id>(ids: seq<Id>, log: seq<Commit<Id>>, commit: Commit<Id>)
    ensures Replay(ids, log + [commit]) == Updated(Replay(ids, log), commit.op)
  {
    hide Updated;
    assert (log + [commit])[..|log|] == log;
  }

  /** The entry after all commits. */
  lemma EntryNow<Id>(s: State<Id>)
    ensures IdsOf(EntryAfter(s, |s.log|)) == Replay(IdsOf(s.initial), s.log)
    ensures s.log != [] ==>
      EntryAfter(s, |s.log|) == Some(Entry(Replay(IdsOf(s.initial), s.log), s.log[|s.log| - 1].version))
  {
    hide Updated;
    assert s.log[..|s.log|] == s.log;
  }

  /** The committing call has its one commit. */
  lemma CommitOwn<Id>(s: State<Id>, s': State<Id>, c: Client, v: Version)
    requires Committing(s, s', c, v) && CallOk(s, c)
    ensures c in s'.calls && CallOk(s', c)
  {
    hide EntryAfter;
    var n := |s.log|;
    assert s'.log[n] == Commit(c, s.calls[c].op, v);
  }

  lemma CommitClients<Id>(s: State<Id>, s': State<Id>, c: Client, v: Version)
    requires Committing(s, s', c, v) && CallOk(s, c)
    requires forall i :: 0 <= i < |s.log| ==> s.log[i].client in s.calls
    requires forall i, j :: 0 <= i < j < |s.log| ==> s.log[i].client != s.log[j].client
    ensures forall i :: 0 <= i < |s'.log| ==> s'.log[i].client in s'.calls
    ensures forall i, j :: 0 <= i < j < |s'.log| ==> s'.log[i].client != s'.log[j].client
  {
    hide EntryAfter;
  }

  lemma CommitInv<Id>(s: State<Id>, s': State<Id>, c: Client, v: Version)
    requires Inv(s) && Write(s, s', c, v) && Accepts(s.entry, s.calls[c].phase.snapshot)
    ensures Inv(s')
  {
    hide FreshVersions, CallOk, EntryAfter, Committing;
    SnapshotCurrent(s, c);
    WriteCommits(s, s', c, v);
    CommitFresh(s, s', c, v);
    CommitEntry(s, s', c, v);
    CommitOwn(s, s', c, v);
    CommitClients(s, s', c, v);
    forall d | d in s'.calls && d != c
      ensures CallOk(s', d)
    {
      CommitOther(s, s', c, v, d);
    }
  }

  /** An accepted snapshot is the current entry. */
  lemma SnapshotCurrent<Id>(s: State<Id>, c: Client)
    requires Inv(s) && c in s.calls && s.calls[c].phase.Writing? && Accepts(s.entry, s.calls[c].phase.snapshot)
    ensures CallOk(s, c) && s.calls[c].phase.snapshot == EntryAfter(s, |s.log|)
  {
    hide EntryAfter, FreshVersions;
    assert CallOk(s, c);
    AcceptsIffCurrent(s, s.calls[c].phase.readAt);
  }

  lemma CommitOther<Id>(s: State<Id>, s': State<Id>, c: Client, v: Version, d: Client)
    requires Inv(s) && Committing(s, s', c, v) && d in s'.calls && d != c
    ensures CallOk(s', d)
  {
    hide EntryAfter, FreshVersions, CallOk;
    OthersStay(s, s', c, d);
  }

  lemma NextInv<Id(!new)>(s: State<Id>, s': State<Id>)
    requires Inv(s) && Next(s, s')
    ensures Inv(s')
  {
    if c, op :| Begin(s, s', c, op) {
      BeginInv(s, s', c, op);
    } else if c :| Read(s, s', c) {
      ReadInv(s, s', c);
    } else {
      var c, v :| Write(s, s', c, v);
      if Accepts(s.entry, s.calls[c].phase.snapshot) {
        CommitInv(s, s', c, v);
      } else {
        FailedWriteInv(s, s', c, v);
      }
    }
  }

  lemma RunInv<Id(!new)>(run: seq<State<Id>>, i: nat)
    requires Run(run) && i < |run|
    ensures Inv(run[i])
  {
    if i == 0 {
      InitInv(run[0]);
    } else {
      RunInv(run, i - 1);
      NextInv(run[i - 1], run[i]);
    }
  }

  // ----- safety over whole runs

  lemma LogGrows<Id(!new)>(run: seq<State<Id>>, i: nat, j: nat)
    requires Run(run) && i <= j < |run|
    ensures run[i].log <= run[j].log && run[i].initial == run[j].initial
  {
    if i < j {
      LogGrows(run, i, j - 1);
      assert Next(run[j - 1], run[j]);
    }
  }

  /** At every moment the index is the initial list with the committed operations
      applied in commit order, and later history only extends earlier history. */
  lemma IndexIsReplay<Id(!new)>(run: seq<State<Id>>, i: nat, j: nat)
    requires Run(run) && i <= j < |run|
    ensures IdsOf(run[j].entry) == Replay(IdsOf(run[0].initial), run[j].log)
    ensures run[i].log <= run[j].log
  {
    RunInv(run, j);
    LogGrows(run, 0, j);
    LogGrows(run, i, j);
    assert run[j].log[..|run[j].log|] == run[j].log;
  }

  /** A commit is the next of the history, and what it does to the stored list: an
      add appends, a remove drops every occurrence and leaves the other ids, their
      multiplicities and their order alone. */
  lemma CommitEffect<Id(!new)>(run: seq<State<Id>>, i: nat)
    requires Run(run) && i + 1 < |run| && run[i].log != run[i + 1].log
    ensures run[i + 1].log == run[i].log + [run[i + 1].log[|run[i].log|]]
    ensures
      var before, after := IdsOf(run[i].entry), IdsOf(run[i + 1].entry);
      match run[i + 1].log[|run[i].log|].op
      case Add(id) => after == before + [id]
      case Remove(id) => RemovedFrom(before, after, id)
  {
    hide Init, Begin, Read;
    var s, s' := run[i], run[i + 1];
    assert Next(s, s');
    OneCommit(s, s');
    IndexIsReplay(run, 0, i);
    IndexIsReplay(run, 0, i + 1);
    LogGrows(run, 0, i);
    assert s'.log[..|s'.log| - 1] == s.log;
    var op := s'.log[|s.log|].op;
    assert IdsOf(s'.entry) == Updated(IdsOf(s.entry), op);
    if op.Remove? {
      RemovedByUpdate(IdsOf(s.entry), op.id);
    }
  }

  lemma OneCommit<Id(!new)>(s: State<Id>, s': State<Id>)
    requires Next(s, s') && s.log != s'.log
    ensures |s'.log| == |s.log| + 1 && s'.log == s.log + [s'.log[|s.log|]]
  {
  }

  ghost predicate RemovedFrom<Id(!new)>(before: seq<Id>, after: seq<Id>, id: Id) {
    && multiset(after) == multiset(before)[id := 0]
    && forall a, b :: a != id && b != id ==> (Precedes(after, a, b) <==> Precedes(before, a, b))
  }

  lemma RemovedByUpdate<Id(!new)>(ids: seq<Id>, id: Id)
    ensures RemovedFrom(ids, Updated(ids, Remove(id)), id)
  {
    WithoutCounts(ids, id);
    forall a, b | a != id && b != id
      ensures Precedes(Without(ids, id), a, b) <==> Precedes(ids, a, b)
    {
      WithoutKeepsOrder(ids, id, a, b);
    }
  }

  ghost predicate AddedAt<Id>(log: seq<Commit<Id>>, id: Id, i: int) {
    && 0 <= i < |log| && log[i].op == Add(id)
    && forall k :: i < k < |log| ==> log[k].op != Remove(id)
  }

  /** Listed from the start, or added, and not removed since. */
  ghost predicate Survives<Id>(ids: seq<Id>, log: seq<Commit<Id>>, id: Id) {
    || (exists i :: AddedAt(log, id, i))
    || (id in ids && forall k :: 0 <= k < |log| ==> log[k].op != Remove(id))
  }

  lemma SurvivesStep<Id>(ids: seq<Id>, log: seq<Commit<Id>>, id: Id)
    requires log != []
    ensures var last := log[|log| - 1].op;
      Survives(ids, log, id) <==> last == Add(id) || (last != Remove(id) && Survives(ids, log[..|log| - 1], id))
  {
    var rest := log[..|log| - 1];
    var last := log[|log| - 1].op;
    if i :| AddedAt(rest, id, i) && last != Remove(id) {
      assert AddedAt(log, id, i);
    }
    if i :| AddedAt(log, id, i) && i < |rest| {
      assert AddedAt(rest, id, i);
    }
    if last == Add(id) {
      assert AddedAt(log, id, |rest|);
    }
  }

  /** An id is listed exactly when it was there or committed, and no committed
      remove came after: no committed add is lost to another client's write. */
  lemma {:induction false} ReplayMembers<Id>(ids: seq<Id>, log: seq<Commit<Id>>, id: Id)
    ensures id in Replay(ids, log) <==> Survives(ids, log, id)
  {
    if log != [] {
      hide Survives;
      ReplayMembers(ids, log[..|log| - 1], id);
      SurvivesStep(ids, log, id);
    }
  }

  /** Each call commits at most once, and is marked committed exactly when it has. */
  lemma CommitsAtMostOnce<Id(!new)>(run: seq<State<Id>>, i: nat, c: Client)
    requires Run(run) && i < |run| && c in run[i].calls
    ensures forall j, k :: 0 <= j < k < |run[i].log| ==> !(run[i].log[j].client == c && run[i].log[k].client == c)
    ensures run[i].calls[c].phase.Committed? <==>
      exists j :: 0 <= j < |run[i].log| && run[i].log[j].client == c && run[i].log[j].op == run[i].calls[c].op
  {
    RunInv(run, i);
    assert CallOk(run[i], c);
  }

  /** A write goes through exactly when no commit has happened since its read. */
  lemma WritesIffNotOvertaken<Id(!new)>(run: seq<State<Id>>, i: nat, c: Client)
    requires Run(run) && i < |run| && c in run[i].calls && run[i].calls[c].phase.Writing?
    ensures Accepts(run[i].entry, run[i].calls[c].phase.snapshot) <==> run[i].calls[c].phase.readAt == |run[i].log|
  {
    RunInv(run, i);
    assert CallOk(run[i], c);
    AcceptsIffCurrent(run[i], run[i].calls[c].phase.readAt);
  }

  /** A call gives up only after three commits by other calls since it began. */
  lemma GivesUpOnlyOvertaken<Id(!new)>(run: seq<State<Id>>, i: nat, c: Client)
    requires Run(run) && i < |run| && c in run[i].calls && run[i].calls[c].phase.GaveUp?
    ensures run[i].calls[c].startedAt + 3 <= |run[i].log|
    ensures forall j :: 0 <= j < |run[i].log| ==> run[i].log[j].client != c
  {
    RunInv(run, i);
    assert CallOk(run[i], c);
  }

  // ----- a call that gives up is dropped without trace

  ghost predicate Reachable<Id(!new)>(s: State<Id>) {
    exists run :: Run(run) && run[|run| - 1] == s
  }

  /** Steps lead from one state to the other. */
  ghost predicate Leads<Id(!new)>(s: State<Id>, s': State<Id>) {
    exists path :: Path(s, s', path)
  }

  ghost predicate Path<Id(!new)>(s: State<Id>, s': State<Id>, path: seq<State<Id>>) {
    && path != [] && path[0] == s && path[|path| - 1] == s'
    && forall i, j :: 0 <= i < j < |path| && j == i + 1 ==> Next(path[i], path[j])
  }

  lemma LeadsSelf<Id(!new)>(s: State<Id>)
    ensures Leads(s, s)
  {
    assert Path(s, s, [s]);
  }

  lemma LeadsStep<Id(!new)>(s: State<Id>, t: State<Id>, u: State<Id>)
    requires Leads(s, t) && Next(t, u)
    ensures Leads(s, u)
  {
    hide Next;
    var path :| Path(s, t, path);
    assert Path(s, u, path + [u]);
  }

  lemma ReachableLeads<Id(!new)>(s: State<Id>, s': State<Id>)
    requires Reachable(s) && Leads(s, s')
    ensures Reachable(s')
  {
    hide Next, Init;
    var run :| Run(run) && run[|run| - 1] == s;
    var path :| Path(s, s', path);
    var all := run + path[1..];
    forall i, j | 0 <= i < j < |all| && j == i + 1
      ensures Next(all[i], all[j])
    {
      if j >= |run| {
        assert all[i] == path[i - |run| + 1] && all[j] == path[j - |run| + 1];
      }
    }
    assert Run(all);
  }

  lemma ReachableInv<Id(!new)>(s: State<Id>)
    requires Reachable(s)
    ensures Inv(s)
  {
    hide Inv, Next, Init;
    var run: seq<State<Id>> :| Run(run) && run[|run| - 1] == s;
    RunInv(run, |run| - 1);
  }

  lemma CurrentIssued<Id>(s: State<Id>)
    requires Inv(s)
    ensures s.entry.Some? ==> Issued(s, s.entry.value.version)
  {
    hide FreshVersions, CallOk;
  }

  lemma UnusedClient(used: set<Client>) returns (bound: Client)
    ensures forall d :: d in used ==> d < bound
    decreases |used|
  {
    bound := 0;
    if used != {} {
      var d :| d in used;
      var rest := UnusedClient(used - {d});
      bound := if d < rest then rest else d + 1;
      forall e | e in used
        ensures e < bound
      {
        assert e == d || e in used - {d};
      }
    }
  }

  lemma {:induction false} UnusedVersion<Id>(log: seq<Commit<Id>>) returns (bound: Version)
    ensures forall i :: 0 <= i < |log| ==> log[i].version < bound
    decreases |log|
  {
    bound := 0;
    if log != [] {
      var n := |log| - 1;
      var rest := UnusedVersion(log[..n]);
      bound := if log[n].version < rest then rest else log[n].version + 1;
      assert forall i :: 0 <= i < n ==> log[..n][i] == log[i];
    }
  }

  lemma UnissuedVersion<Id>(s: State<Id>) returns (v: Version)
    ensures !Issued(s, v)
  {
    v := UnusedVersion(s.log);
    if s.initial.Some? && s.initial.value.version >= v {
      v := s.initial.value.version + 1;
    }
  }

  /** The state after a new client has added `other` without being disturbed. */
  ghost function AfterAdd<Id>(s: State<Id>, d: Client, other: Id, v: Version): State<Id> {
    State(Some(Entry(IdsOf(s.entry) + [other], v)), s.calls[d := Call(Add(other), Committed, |s.log|)],
          s.initial, s.log + [Commit(d, Add(other), v)])
  }

  lemma AddLeads<Id(!new)>(from: State<Id>, s: State<Id>, d: Client, other: Id, v: Version)
    requires Leads(from, s) && d !in s.calls && !Issued(s, v)
    ensures Leads(from, AfterAdd(s, d, other, v))
  {
    hide Leads, Issued;
    var op := Add(other);
    var s1 := s.(calls := s.calls[d := Call(op, Reading(0), |s.log|)]);
    assert Begin(s, s1, d, op);
    LeadsStep(from, s, s1);
    var s2 := AfterRead(s1, d);
    assert Read(s1, s2, d);
    LeadsStep(from, s1, s2);
    var s3 := AfterWrite(s2, d, v);
    IssuedSame(s, s2, v);
    assert Write(s2, s3, d, v);
    LeadsStep(from, s2, s3);
    assert s3.calls == AfterAdd(s, d, other, v).calls;
    assert s3 == AfterAdd(s, d, other, v);
  }

  lemma IssuedSame<Id>(s: State<Id>, s': State<Id>, v: Version)
    requires s'.initial == s.initial && s'.log == s.log
    ensures Issued(s', v) <==> Issued(s, v)
  {
  }

  /** Another client can always commit first: between two steps of a call. */
  lemma ForeignCommit<Id(!new)>(from: State<Id>, s: State<Id>, c: Client, other: Id) returns (s': State<Id>)
    requires Reachable(from) && Leads(from, s) && c in s.calls
    ensures Leads(from, s') && |s'.log| == |s.log| + 1 && c in s'.calls && s'.calls[c] == s.calls[c]
    ensures IdsOf(s'.entry) == IdsOf(s.entry) + [other]
    ensures s'.entry.Some? && !Issued(s, s'.entry.value.version)
  {
    hide Leads, Reachable, Issued;
    var d := UnusedClient(s.calls.Keys);
    var v := UnissuedVersion(s);
    s' := AfterAdd(s, d, other, v);
    AddLeads(from, s, d, other, v);
  }

  /** Also between the read and the write of an attempt, which then fails. */
  lemma Overtaken<Id(!new)>(from: State<Id>, s: State<Id>, c: Client, other: Id) returns (s': State<Id>)
    requires Reachable(from) && Leads(from, s)
    requires c in s.calls && s.calls[c].phase.Reading? && s.calls[c].op.Add?
    ensures Leads(from, s') && |s'.log| == |s.log| + 1 && IdsOf(s'.entry) == IdsOf(s.entry) + [other]
    ensures c in s'.calls
    ensures var a := s.calls[c].phase.attempt + 1;
      s'.calls[c] == s.calls[c].(phase := if a < ATTEMPTS then Reading(a) else GaveUp)
  {
    hide Leads, Reachable, Issued;
    ReachableLeads(from, s);
    ReachableInv(s);
    CurrentIssued(s);
    var s1 := AfterRead(s, c);
    assert Read(s, s1, c);
    LeadsStep(from, s, s1);
    var s2 := ForeignCommit(from, s1, c, other);
    if s.entry.Some? {
      IssuedSame(s, s1, s.entry.value.version);
    }
    s' := AfterWrite(s2, c, 0);
    assert !Accepts(s2.entry, s2.calls[c].phase.snapshot);
    assert Write(s2, s', c, 0);
    LeadsStep(from, s2, s');
  }

  /** An add begun in `s` can end there after n commits by others, without having
      committed, and its id is not listed. */
  ghost predicate CanEndDropped<Id(!new)>(s: State<Id>, c: Client, id: Id, n: nat) {
    exists s' :: Leads(s, s') && EndedDropped(s, s', c, id, n)
  }

  ghost predicate EndedDropped<Id>(s: State<Id>, s': State<Id>, c: Client, id: Id, n: nat) {
    && c in s'.calls && s'.calls[c] == Call(Add(id), GaveUp, |s.log|)
    && |s'.log| == |s.log| + n && id !in IdsOf(s'.entry)
  }

  /** From every reachable state a new add can end dropped with n commits during
      it if and only if n is at least three. */
  lemma DroppedIffThreeCommits<Id(!new)>(s: State<Id>, c: Client, id: Id, other: Id, n: nat)
    requires Reachable(s) && c !in s.calls && id !in IdsOf(s.entry) && other != id
    ensures CanEndDropped(s, c, id, n) <==> n >= 3
  {
    if n >= ATTEMPTS {
      var s' := DropAfter(s, c, id, other, n);
    }
    forall s' | Leads(s, s') && EndedDropped(s, s', c, id, n)
      ensures n >= 3
    {
      ReachableLeads(s, s');
      ReachableInv(s');
      assert CallOk(s', c);
    }
  }

  lemma DropAfter<Id(!new)>(s: State<Id>, c: Client, id: Id, other: Id, n: nat) returns (s': State<Id>)
    requires Reachable(s) && c !in s.calls && id !in IdsOf(s.entry) && other != id && n >= ATTEMPTS
    ensures Leads(s, s') && EndedDropped(s, s', c, id, n)
  {
    hide Leads, Reachable;
    s' := s.(calls := s.calls[c := Call(Add(id), Reading(0), |s.log|)]);
    assert Begin(s, s', c, Add(id));
    LeadsSelf(s);
    LeadsStep(s, s, s');
    hide Next, IdsOf;
    for k := 0 to n - ATTEMPTS
      invariant Leads(s, s') && |s'.log| == |s.log| + k && id !in IdsOf(s'.entry)
      invariant c in s'.calls && s'.calls[c] == Call(Add(id), Reading(0), |s.log|)
    {
      s' := ForeignCommit(s, s', c, other);
    }
    s' := Overtaken(s, s', c, other);
    s' := Overtaken(s, s', c, other);
    s' := Overtaken(s, s', c, other);
  }

  /** So an add may be lost: three overtaken attempts on an empty index. */
  lemma AddCanBeDropped<Id(!new)>(lost: Id, other: Id) returns (s: State<Id>)
    requires lost != other
    ensures Reachable(s) && 0 in s.calls && s.calls[0].op == Add(lost) && s.calls[0].phase.GaveUp?
    ensures lost !in IdsOf(s.entry)
  {
    var start: State<Id> := State(None, map[], None, []);
    assert Run([start]) && [start][|[start]| - 1] == start;
    s := DropAfter(start, 0, lost, other, ATTEMPTS);
    ReachableLeads(start, s);
  }
}
