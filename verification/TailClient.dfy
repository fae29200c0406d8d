/** The polls and the paging loop as they run: what other parts of the program do
    to the log while a query is awaited falls between reading a page and using
    it.  Every call is a run of the session machine. */
module TailClients {
  import opened Collections
  import opened Cursors
  import opened AuditLog
  import opened Tail

  /** A tail session on a logger.  `received` is what subscribers have been given,
      `open` holds the pages of polls that are still awaited. */
  class TailSession {
    const logger: HybridAuditLogger
    const facility: string
    const batchSize: nat
    var cursor: string
    var open: seq<seq<StoredEntry>>
    ghost var received: seq<StoredEntry>
    /** Everything in the log at the opening, and everything written since. */
    var written: seq<StoredEntry>
    /** Every state so far. */
    ghost var run: seq<State>

    ghost function Config(): Session
    {
      Session(facility, batchSize, logger.maxInMemory)
    }

    ghost function Now(): State
      reads this, logger
    {
      State(logger.memory, logger.lastSeq, cursor, open, received, written)
    }

    ghost predicate Valid()
      reads this, logger
    {
      && logger.Valid() && Clean(logger.bootId)
      && run != [] && Run(Config(), run) && run[|run| - 1] == Now()
    }

    constructor (logger: HybridAuditLogger, facility: string, batchSize: nat)
      requires logger.Valid() && Clean(logger.bootId)
      ensures Valid() && this.logger == logger && this.facility == facility && this.batchSize == batchSize
      ensures cursor == "" && open == [] && received == [] && written == logger.memory && run == [Now()]
    {
      this.logger, this.facility, this.batchSize := logger, facility, batchSize;
      cursor, open, received, written := "", [], [], logger.memory;
      run := [State(logger.memory, logger.lastSeq, "", [], [], logger.memory)];
    }

    ghost method Record(before: State)
      requires logger.Valid() && Clean(logger.bootId)
      requires Run(Config(), run) && run[|run| - 1] == before && Next(Config(), before, Now())
      modifies this`run
      ensures Valid() && run == old(run) + [Now()]
    {
      hide Next, Init, Clean;
      run := run + [Now()];
    }

    // ----- the steps of the machine

    method Write(id: string, kind: string, message: string, metadata: Option<string>, now: nat, monoNow: nat)
      requires Valid()
      modifies this`written, this`run, logger`memory, logger`lastSeq
      ensures Valid() && run == old(run) + [Now()]
      ensures exists e: StoredEntry :: e.id == id && Wrote(Config(), old(Now()), Now(), e)
    {
      hide Run, Clean, Stamped, SeqOf, Kept, InSequence, HexText, FoldPart, Encode;
      ghost var before := Now();
      var stored := logger.Store(id, kind, message, metadata, now, monoNow);
      written := written + [stored];
      assert Wrote(Config(), before, Now(), stored);
      Record(before);
    }

    method Prune(beforeTs: int)
      requires Valid()
      modifies this`run, logger`memory
      ensures Valid() && run == old(run) + [Now()]
      ensures Pruned(old(Now()), Now(), NotBefore(Some(beforeTs)))
    {
      hide Run, Clean, InSequence, HexText, FoldPart, Filter;
      ghost var before := Now();
      logger.Prune(beforeTs);
      assert Pruned(before, Now(), NotBefore(Some(beforeTs)));
      Record(before);
    }

    method PruneByIds(ids: seq<string>)
      requires Valid()
      modifies this`run, logger`memory
      ensures Valid() && run == old(run) + [Now()]
      ensures Pruned(old(Now()), Now(), IdNotIn(ids))
    {
      hide Run, Clean, InSequence, HexText, FoldPart, Filter;
      ghost var before := Now();
      logger.PruneByIds(ids);
      assert Pruned(before, Now(), IdNotIn(ids));
      Record(before);
    }

    /** Call the query; its answer is fixed now and used when the call resumes. */
    method Start() returns (entries: seq<StoredEntry>, nextCursor: string)
      requires Valid()
      modifies this`open, this`run
      ensures Valid() && run == old(run) + [Now()]
      ensures Started(Config(), old(Now()), Now()) && open == old(open) + [entries]
      ensures entries == NextBatch(Config(), old(Now()))
      ensures nextCursor == if entries == [] then "" else entries[|entries| - 1].cursor
      ensures entries != [] ==> nextCursor != ""
    {
      hide Run, Clean, InSequence, HexText, FoldPart, Page, Selected;
      ghost var before := Now();
      var total;
      LoggerInSequence();
      PageStamped(logger.memory, logger.lastSeq, TailQuery(facility, batchSize, cursor));
      entries, nextCursor, total := logger.Query(TailQuery(facility, batchSize, cursor));
      open := open + [entries];
      Record(before);
    }

    lemma LoggerInSequence()
      requires Valid()
      ensures InSequence(logger.memory, logger.lastSeq)
    {
    }

    /** Resume the call whose page is the k-th waiting one. */
    method Settle(k: nat, entries: seq<StoredEntry>, nextCursor: string) returns (newCursor: string)
      requires Valid() && k < |open| && open[k] == entries
      requires nextCursor == if entries == [] then "" else entries[|entries| - 1].cursor
      requires entries != [] ==> nextCursor != ""
      modifies this
      ensures Valid() && run == old(run) + [Now()]
      ensures Now() == AfterSettle(old(Now()), k) && newCursor == cursor
    {
      hide Run, Clean, InSequence, HexText, FoldPart;
      ghost var before := Now();
      newCursor := if nextCursor != "" then nextCursor else cursor;
      if |entries| > 0 {
        cursor := newCursor;
        received := received + entries;
      }
      open := open[..k] + open[k + 1..];
      assert Settled(before, Now(), k);
      Record(before);
    }

    // ----- what may happen while a call is awaited

    /** Any writes, at most `budget` of them, and any prunes; ids are unique. */
    method Others(budget: nat) returns (left: nat)
      requires Valid()
      modifies this`written, this`run, logger`memory, logger`lastSeq
      ensures Valid() && old(run) <= run && |written| + left <= |old(written)| + budget
      ensures UniqueIds(old(written)) ==> UniqueIds(written)
      ensures NoOverlap(Config(), old(run)) ==> NoOverlap(Config(), run)
    {
      hide Run, Clean, InSequence, HexText, FoldPart, NoOverlap, UniqueIds, Kept, Stamped, SeqOf;
      left := budget;
      var steps: nat := *;
      while steps > 0
        invariant Valid() && old(run) <= run && |written| + left <= |old(written)| + budget
        invariant UniqueIds(old(written)) ==> UniqueIds(written)
        invariant NoOverlap(Config(), old(run)) ==> NoOverlap(Config(), run)
      {
        ghost var before, was := Now(), run;
        var choice: nat, id: string, kind: string, message: string := *, *, *, *;
        var metadata: Option<string>, now: nat, monoNow: nat, ids: seq<string> := *, *, *, *;
        if choice == 0 {
          Prune(now);
        } else if choice == 1 {
          PruneByIds(ids);
        } else if left > 0 && forall e :: e in written ==> e.id != id {
          FreshIdUnique(written, id);
          Write(id, kind, message, metadata, now, monoNow);
          left := left - 1;
        }
        if run != was {
          QuietStep(Config(), was, Now());
        }
        steps := steps - 1;
      }
    }

    /** Any steps, polls of this session included, except that the awaited call
        itself does not resume; `k'` is where its page has moved. */
    method Meanwhile(k: nat) returns (k': nat)
      requires Valid() && k < |open|
      modifies this, logger`memory, logger`lastSeq
      ensures Valid() && old(run) <= run && k' < |open| && open[k'] == old(open)[k]
    {
      hide Run, Clean, InSequence, HexText, FoldPart, NoOverlap, UniqueIds, Kept, Stamped, SeqOf;
      k' := k;
      var steps: nat := *;
      while steps > 0
        invariant Valid() && old(run) <= run && k' < |open| && open[k'] == old(open)[k]
      {
        var j: nat, choice: nat, writes: nat := *, *, *;
        if choice == 0 {
          var left := Others(writes);
        } else if choice == 1 {
          var entries, nextCursor := Start();
        } else if j < |open| && j != k' {
          var entries := open[j];
          var nextCursor := if entries == [] then "" else entries[|entries| - 1].cursor;
          OpenStamped(j);
          var newCursor := Settle(j, entries, nextCursor);
          k' := if j < k' then k' - 1 else k';
        }
        steps := steps - 1;
      }
    }

    /** Waiting pages hold stored entries, whose cursors are not empty. */
    lemma OpenStamped(j: nat)
      requires Valid() && j < |open|
      ensures forall e :: e in open[j] ==> e.cursor != ""
    {
      hide Clean, InSequence, HexText, FoldPart;
      PagesStamped(Config(), run, |run| - 1);
    }

    /** One poll: read a page, wait, then move the cursor and hand the page over. */
    method PollTail() returns (entries: seq<StoredEntry>, newCursor: string)
      requires Valid()
      modifies this, logger`memory, logger`lastSeq
      ensures Valid() && newCursor == cursor && PollSteps(Config(), old(run), run, entries)
    {
      hide Run, Clean, InSequence, HexText, FoldPart, NextBatch, Started;
      var k := |open|;
      var nextCursor;
      entries, nextCursor := Start();
      ghost var started := run;
      k := Meanwhile(k);
      ghost var before, was := Now(), run;
      newCursor := Settle(k, entries, nextCursor);
      assert run[|run| - 2] == before && run[|old(run)|] == started[|old(run)|];
      assert Settled(before, run[|run| - 1], k) && HandsOver(before, run[|run| - 1], entries);
    }
  }

  /** A poll's part of a run: it starts, anything happens, and it settles. */
  ghost predicate PollSteps(session: Session, was: seq<State>, run: seq<State>, entries: seq<StoredEntry>) {
    && was != [] && was <= run && |run| >= |was| + 2
    && Started(session, was[|was| - 1], run[|was|]) && entries == NextBatch(session, was[|was| - 1])
    && HandsOver(run[|run| - 2], run[|run| - 1], entries)
  }

  /** A waiting poll with this page settles. */
  ghost predicate HandsOver(s: State, s': State, page: seq<StoredEntry>) {
    exists k: nat :: Settled(s, s', k) && s.open[k] == page
  }

  lemma FreshIdUnique(written: seq<StoredEntry>, id: string)
    requires forall e :: e in written ==> e.id != id
    ensures forall e: StoredEntry :: e.id == id && UniqueIds(written) ==> UniqueIds(written + [e])
  {
  }

  lemma QuietStep(session: Session, run: seq<State>, s: State)
    requires run != [] && |s.open| <= |run[|run| - 1].open|
    ensures NoOverlap(session, run) ==> NoOverlap(session, run + [s])
  {
    hide NextBatch, Flatten;
    NotStarted(session, run[|run| - 1], s);
    StepNoOverlap(session, run, s);
  }

  lemma NotStarted(session: Session, s: State, s': State)
    requires |s'.open| <= |s.open|
    ensures !Started(session, s, s')
  {
  }

  lemma StepNoOverlap(session: Session, run: seq<State>, s: State)
    requires run != []
    requires Started(session, run[|run| - 1], s) ==>
      NextBatch(session, run[|run| - 1]) == [] || Flatten(run[|run| - 1].open) == []
    ensures NoOverlap(session, run) ==> NoOverlap(session, run + [s])
  {
    hide NextBatch, Flatten, Started;
    var more := run + [s];
    if NoOverlap(session, run) {
      forall i, j | 0 <= i < j < |more| && j == i + 1 && Started(session, more[i], more[j])
        ensures NextBatch(session, more[i]) == [] || Flatten(more[i].open) == []
      {
        if j < |run| {
          assert Started(session, run[i], run[j]);
        }
      }
    }
  }

  /** In every run, memory and waiting pages hold stamped entries only. */
  ghost predicate AllStamped(s: State) {
    && InSequence(s.memory, s.lastSeq)
    && forall k, e :: 0 <= k < |s.open| && e in s.open[k] ==> e.cursor != ""
  }

  lemma {:induction false} PagesStamped(session: Session, run: seq<State>, i: nat)
    requires Run(session, run) && i < |run|
    ensures AllStamped(run[i])
  {
    hide Next, AllStamped;
    if i == 0 {
      assert AllStamped(run[0]) by { FirstStamped(run[0]); }
    } else {
      PagesStamped(session, run, i - 1);
      StepStamped(session, run[i - 1], run[i]);
    }
  }

  lemma FirstStamped(s: State)
    requires Init(s)
    ensures AllStamped(s)
  {
    hide InSequence;
  }

  lemma StepStamped(session: Session, s: State, s': State)
    requires AllStamped(s) && Next(session, s, s')
    ensures AllStamped(s')
  {
    hide InSequence, Page, Stamped, SeqOf, Kept;
    if e :| Wrote(session, s, s', e) {
      KeptInSequence(s.memory, e, session.maxInMemory, s.lastSeq + 1);
    } else if keep :| Pruned(s, s', keep) {
      FilterInSequence(s.memory, keep, s.lastSeq);
    } else if Started(session, s, s') {
      PageStamped(s.memory, s.lastSeq, TailQuery(session.facility, session.batch, s.cursor));
    }
  }

  // ----- paging through the whole log

  lemma InSequenceMembers(a: seq<StoredEntry>, b: seq<StoredEntry>, last: nat)
    requires InSequence(a, last) && InSequence(b, last) && Members(a) == Members(b)
    ensures a == b
    decreases |a|
  {
    hide Stamped, SeqOf, InSequence, Members;
    MembersEmpty(a);
    MembersEmpty(b);
    if a != [] {
      var x, y := a[0], b[0];
      MemberIff(a);
      MemberIff(b);
      FirstIsSmallest(a, last, y);
      FirstIsSmallest(b, last, x);
      DropFirst(a, last);
      DropFirst(b, last);
      InSequenceMembers(a[1..], b[1..], last);
      assert a == [x] + a[1..] && b == [y] + b[1..];
    }
  }

  lemma MemberIff<T>(list: seq<T>)
    ensures forall x :: x in Members(list) <==> x in list
  {
  }

  lemma MembersEmpty<T>(list: seq<T>)
    ensures Members(list) == {} <==> list == []
  {
    if list != [] {
      assert list[0] in Members(list);
    }
  }

  lemma DropFirst(list: seq<StoredEntry>, last: nat)
    requires InSequence(list, last) && list != []
    ensures InSequence(list[1..], last) && Members(list[1..]) == Members(list) - {list[0]}
    ensures forall e, f :: e in list && f in list && SeqOf(e) == SeqOf(f) ==> e == f
  {
    hide Stamped, SeqOf;
    assert list == [list[0]] + list[1..];
    InSequenceDistinct(list, last);
  }

  lemma QuietStart(session: Session, run: seq<State>)
    requires |run| == 1
    ensures NoOverlap(session, run)
  {
    hide Started;
  }

  lemma OpenStart(session: Session, run: seq<State>, s: State)
    requires run != [] && run[|run| - 1].open == []
    ensures NoOverlap(session, run) ==> NoOverlap(session, run + [s])
  {
    hide NextBatch;
    StepNoOverlap(session, run, s);
  }

  lemma SettleAlone(s: State, page: seq<StoredEntry>)
    requires s.open == [page]
    ensures AfterSettle(s, 0).open == [] && AfterSettle(s, 0).delivered == s.delivered + page
    ensures AfterSettle(s, 0).written == s.written
  {
  }

  lemma MembersBound<T>(list: seq<T>)
    ensures |Members(list)| <= |list|
  {
    if list == [] {
      assert Members(list) == {};
    } else {
      MembersBound(list[..|list| - 1]);
      MembersLast(list);
    }
  }

  /** No more can be received than was written. */
  lemma ReceivedFits(session: Session, run: seq<State>)
    requires Run(session, run) && NoOverlap(session, run)
    ensures |run[|run| - 1].delivered| <= |run[|run| - 1].written|
  {
    hide Next, NoOverlap, Stamped, SeqOf, Inv, Flatten;
    var s := run[|run| - 1];
    AloneRun(session, run, |run| - 1);
    ClaimedInSequence(session, s);
    InvMemory(session, s);
    InSequenceDistinct(Claimed(s), s.lastSeq);
    SubsetLength(Claimed(s), Members(s.written));
    MembersBound(s.written);
  }

  /** A short page completes what is in memory when it is read. */
  lemma LastPage(session: Session, run: seq<State>, s: State, all: seq<StoredEntry>)
    requires Run(session, run) && NoOverlap(session, run) && run[|run| - 1].open == []
    requires Started(session, run[|run| - 1], s) && session.facility == "" && session.batch == 500
    requires all == run[|run| - 1].delivered + NextBatch(session, run[|run| - 1])
    ensures |NextBatch(session, run[|run| - 1])| < 500 ==> forall e :: e in run[|run| - 1].memory ==> e in all
  {
    hide Next, NoOverlap, Stamped, SeqOf, Inv, NextBatch, Reach, Started;
    var last := run[|run| - 1];
    AloneRun(session, run, |run| - 1);
    ShortPageIff(session, last, s);
    StartedClaims(session, last, s);
  }

  /** Page by page, while others write and prune between the pages.  The loop ends
      because the others write finitely often. */
  method CollectAll(session: TailSession, budget: nat)
    returns (all: seq<StoredEntry>, left: nat, ghost last: nat)
    requires session.Valid() && session.facility == "" && session.batchSize == 500
    requires session.run == [session.Now()]
    requires session.open == [] && session.received == [] && session.cursor == ""
    modifies session, session.logger`memory, session.logger`lastSeq
    ensures session.Valid() && session.open == [] && all == session.received
    ensures old(session.run) <= session.run && NoOverlap(session.Config(), session.run)
    ensures UniqueIds(old(session.written)) ==> UniqueIds(session.written)
    // the last page was short
    ensures last + 1 < |session.run| && Started(session.Config(), session.run[last], session.run[last + 1])
    ensures |NextBatch(session.Config(), session.run[last])| < 500
    ensures forall e :: e in session.run[last].memory ==> e in all
  {
    hide Run, Clean, InSequence, HexText, FoldPart, NextBatch, NoOverlap, UniqueIds, Started, Stamped, SeqOf,
      AfterSettle;
    all, left := [], budget;
    QuietStart(session.Config(), session.run);
    while true
      invariant session.Valid() && old(session.run) <= session.run && session.open == []
      invariant all == session.received && NoOverlap(session.Config(), session.run)
      invariant UniqueIds(old(session.written)) ==> UniqueIds(session.written)
      decreases |session.written| + left - |all|
    {
      ghost var s, was := session.Now(), session.run;
      ReceivedFits(session.Config(), session.run);
      var entries, nextCursor := session.Start();
      last := |was| - 1;
      ghost var s1 := session.Now();
      OpenStart(session.Config(), was, s1);
      LastPage(session.Config(), was, s1, all + entries);
      left := session.Others(left);
      ghost var s2, mid := session.Now(), session.run;
      var cursor := session.Settle(0, entries, nextCursor);
      SettleAlone(s2, entries);
      QuietStep(session.Config(), mid, session.Now());
      all := all + entries;
      if nextCursor == "" || |entries| < BATCH_SIZE {
        return;
      }
    }
  }

  lemma AloneOrderly(session: Session, run: seq<State>)
    requires Run(session, run) && NoOverlap(session, run)
    ensures OrderlyRun(session, run) && StartsClear(session, run)
  {
    hide Init, Next, OrderlyNext, NoOverlap, Started, Clear, Inv;
    forall i, j | 0 <= i < j < |run| && j == i + 1
      ensures OrderlyNext(session, run[i], run[j])
      ensures Started(session, run[i], run[j]) ==> Clear(run[i])
    {
      AloneRun(session, run, j);
    }
  }

  /** What a finished loop has collected: exactly the entries that were still in
      memory when a page reached them. */
  lemma CollectedIffReached(session: Session, run: seq<State>, e: StoredEntry)
    requires Run(session, run) && NoOverlap(session, run) && run[|run| - 1].open == []
    ensures e in run[|run| - 1].delivered <==> OfFacility(session.facility)(e) && Reached(session, run, e)
  {
    hide Init, Next, OrderlyRun, StartsClear, NoOverlap, Reached, OfFacility;
    AloneOrderly(session, run);
    ClaimedIffReached(session, run, |run| - 1, e);
    assert run[..|run| - 1 + 1] == run;
  }

  /** On a log that nobody touches meanwhile, that is the whole log in order. */
  lemma UndisturbedCollects(session: Session, run: seq<State>)
    requires Run(session, run) && NoOverlap(session, run) && run[|run| - 1].open == []
    requires forall i :: 0 <= i < |run| ==> run[i].memory == run[0].memory
    requires forall e :: e in run[0].memory ==> e in run[|run| - 1].delivered
    ensures run[|run| - 1].delivered == run[0].memory
  {
    hide Next, NoOverlap, Inv, OfFacility, SeqOf, Stamped, Started, Reach;
    var s := run[|run| - 1];
    forall e | e in s.delivered
      ensures e in run[0].memory
    {
      CollectedIffReached(session, run, e);
    }
    AloneRun(session, run, |run| - 1);
    ClaimedInSequence(session, s);
    InvParts(session, s);
    assert Claimed(s) == s.delivered;
    assert Members(s.delivered) == Members(s.memory);
    InSequenceMembers(s.delivered, s.memory, s.lastSeq);
  }

  /** With unique ids in the log, what was collected and what is in memory now
      are ordered lists in which an id names one entry. */
  lemma CollectedUnique(session: TailSession)
    requires session.Valid() && NoOverlap(session.Config(), session.run) && UniqueIds(session.written)
    requires session.open == []
    ensures InSequence(session.received, session.logger.lastSeq)
    ensures InSequence(session.logger.memory, session.logger.lastSeq)
    ensures OneEntryPerId(session.received, session.received) && OneEntryPerId(session.received, session.logger.memory)
  {
    hide Next, NoOverlap, Inv, SeqOf, Stamped, Init, Clean, HexText, FoldPart, InSequence;
    var s := session.Now();
    AloneRun(session.Config(), session.run, |session.run| - 1);
    ClaimedInSequence(session.Config(), s);
    InvParts(session.Config(), s);
    InvMembers(session.Config(), s);
    assert Claimed(s) == s.delivered;
    OnePerId(session.written, session.received, session.received);
    OnePerId(session.written, session.received, session.logger.memory);
  }

  lemma InvMembers(session: Session, s: State)
    requires Inv(session, s)
    ensures forall e :: e in s.memory || e in Claimed(s) ==> e in s.written
  {
    hide InSequence;
  }

  ghost predicate OneEntryPerId(a: seq<StoredEntry>, b: seq<StoredEntry>) {
    forall x, y :: x in a && y in b && x.id == y.id ==> x == y
  }

  lemma OnePerId(written: seq<StoredEntry>, a: seq<StoredEntry>, b: seq<StoredEntry>)
    requires UniqueIds(written) && (forall e :: e in a ==> e in written) && (forall e :: e in b ==> e in written)
    ensures OneEntryPerId(a, b)
  {
    hide UniqueIds;
    forall x, y | x in a && y in b && x.id == y.id
      ensures x == y
    {
      var i :| 0 <= i < |written| && written[i] == x;
      var j :| 0 <= j < |written| && written[j] == y;
      SameIdSamePlace(written, i, j);
    }
  }

  lemma SameIdSamePlace(written: seq<StoredEntry>, i: nat, j: nat)
    requires UniqueIds(written) && i < |written| && j < |written| && written[i].id == written[j].id
    ensures i == j
  {
  }
}
