/** Following the log with a cursor: what a tail session receives, over any
    interleaving of writes, prunes, and polls that start and settle apart. */
module Tail {
  import opened Collections
  import opened Cursors
  import opened AuditLog

  function TailQuery(facility: string, batch: nat, cursor: string): LogQuery {
    LogQuery(facility, None, None, 0, batch, cursor)
  }

  /** Sequence number of the last consumed entry, 0 before the first. */
  function Position(cursor: string): nat {
    if cursor == "" then 0
    else
      var d := Decode(cursor);
      if d.i.Natural? then d.i.value else 0
  }

  predicate GoodCursor(cursor: string) {
    cursor == "" || Valid(Decode(cursor))
  }

  function Matching(memory: seq<StoredEntry>, facility: string): seq<StoredEntry> {
    Filter(memory, OfFacility(facility))
  }

  /** Matching entries after a position, oldest first. */
  function Pending(memory: seq<StoredEntry>, facility: string, n: nat): seq<StoredEntry> {
    Filter(Matching(memory, facility), After(n))
  }

  function Batch(pending: seq<StoredEntry>, batch: nat): seq<StoredEntry> {
    if 0 < batch < |pending| then pending[..batch] else pending
  }

  lemma {:induction false} FilterAgree<T>(s: seq<T>, a: T -> bool, b: T -> bool)
    requires forall x :: x in s ==> a(x) == b(x)
    ensures Filter(s, a) == Filter(s, b)
  {
    if s != [] {
      FilterAgree(s[1..], a, b);
    }
  }

  /** A poll returns the first pending entries. */
  lemma PollIsBatch(memory: seq<StoredEntry>, last: nat, facility: string, batch: nat, cursor: string)
    requires InSequence(memory, last) && GoodCursor(cursor)
    ensures Page(memory, TailQuery(facility, batch, cursor))
         == Batch(Pending(memory, facility, Position(cursor)), batch)
  {
    hide Decode, Stamped, SeqOf;
    var q := TailQuery(facility, batch, cursor);
    FilterAgree(memory, Ranged(q), OfFacility(facility));
    if cursor == "" {
      FilterInSequence(memory, OfFacility(facility), last);
      FilterAfter(Matching(memory, facility), last, 0, 0);
    }
    assert Selected(memory, q) == Pending(memory, facility, Position(cursor));
    assert Selected(memory, q)[0..] == Selected(memory, q);
  }

  /** Pending entries are the matching ones with later numbers, in order. */
  lemma PendingFacts(memory: seq<StoredEntry>, last: nat, facility: string, n: nat)
    requires InSequence(memory, last)
    ensures InSequence(Pending(memory, facility, n), last)
    ensures forall e :: e in Pending(memory, facility, n) <==>
      e in memory && OfFacility(facility)(e) && SeqOf(e) > n
  {
    hide Stamped, SeqOf, Beyond;
    FilterInSequence(memory, OfFacility(facility), last);
    FilterInSequence(Matching(memory, facility), After(n), last);
    forall e | e in memory
      ensures After(n)(e) <==> SeqOf(e) > n
    {
      var k :| 0 <= k < |memory| && memory[k] == e;
      BeyondIff(e, n);
    }
  }

  // ----- the session as a state machine

  /** The log, the session's cursor, the pages of polls that have not settled yet
      in order of start, and the histories of deliveries and writes. */
  datatype State = State(memory: seq<StoredEntry>, lastSeq: nat, cursor: string, open: seq<seq<StoredEntry>>,
                         delivered: seq<StoredEntry>, written: seq<StoredEntry>)

  datatype Session = Session(facility: string, batch: nat, maxInMemory: nat)

  /** A session opens on any log; what it holds counts as written. */
  ghost predicate Init(s: State) {
    InSequence(s.memory, s.lastSeq) && s == State(s.memory, s.lastSeq, "", [], [], s.memory)
  }

  ghost predicate Wrote(session: Session, s: State, s': State, e: StoredEntry) {
    && Stamped(e) && SeqOf(e) == s.lastSeq + 1
    && s' == s.(memory := Kept(s.memory, e, session.maxInMemory), lastSeq := s.lastSeq + 1, written := s.written + [e])
  }

  ghost predicate Pruned(s: State, s': State, keep: StoredEntry -> bool) {
    s' == s.(memory := Filter(s.memory, keep))
  }

  /** The page that a poll starting now will deliver. */
  function NextBatch(session: Session, s: State): seq<StoredEntry> {
    Page(s.memory, TailQuery(session.facility, session.batch, s.cursor))
  }

  /** A poll reads its page under the current cursor, and waits. */
  ghost predicate Started(session: Session, s: State, s': State) {
    s' == s.(open := s.open + [NextBatch(session, s)])
  }

  function AfterSettle(s: State, k: nat): State
    requires k < |s.open|
  {
    var page := s.open[k];
    s.(open := s.open[..k] + s.open[k + 1..], delivered := s.delivered + page,
       cursor := if page == [] then s.cursor else page[|page| - 1].cursor)
  }

  /** A waiting poll resumes: it moves the cursor and hands over its page. */
  ghost predicate Settled(s: State, s': State, k: nat) {
    k < |s.open| && s' == AfterSettle(s, k)
  }

  ghost predicate Next(session: Session, s: State, s': State) {
    || (exists e :: Wrote(session, s, s', e))
    || (exists keep :: Pruned(s, s', keep))
    || Started(session, s, s')
    || (exists k :: Settled(s, s', k))
  }

  ghost predicate Run(session: Session, run: seq<State>) {
    run != [] && Init(run[0]) && forall i, j :: 0 <= i < j < |run| && j == i + 1 ==> Next(session, run[i], run[j])
  }

  // ----- orderly runs

  /** No earlier poll is still waiting with something to hand over. */
  ghost predicate InTurn(s: State, k: nat)
    requires k < |s.open|
  {
    s.open[k] == [] || Flatten(s.open[..k]) == []
  }

  /** A step in which a poll that settles does so in its turn. */
  ghost predicate OrderlyNext(session: Session, s: State, s': State) {
    || (exists e :: Wrote(session, s, s', e))
    || (exists keep :: Pruned(s, s', keep))
    || Started(session, s, s')
    || (exists k :: Settled(s, s', k) && InTurn(s, k))
  }

  /** A run whose polls settle in the order of their starts, as they do when the
      reader answers from memory. */
  ghost predicate OrderlyRun(session: Session, run: seq<State>) {
    && run != [] && Init(run[0])
    && forall i, j :: 0 <= i < j < |run| && j == i + 1 ==> OrderlyNext(session, run[i], run[j])
  }

  /** No entry that a waiting poll will deliver is still in memory. */
  ghost predicate Clear(s: State) {
    forall e :: e in Flatten(s.open) ==> e !in s.memory
  }

  /** Every poll of the run started in a clear state. */
  ghost predicate StartsClear(session: Session, run: seq<State>) {
    forall i, j :: 0 <= i < j < |run| && j == i + 1 && Started(session, run[i], run[j]) ==> Clear(run[i])
  }

  /** No poll with something to deliver started while another one was waiting. */
  ghost predicate NoOverlap(session: Session, run: seq<State>) {
    forall i, j :: 0 <= i < j < |run| && j == i + 1 && Started(session, run[i], run[j]) ==>
      NextBatch(session, run[i]) == [] || Flatten(run[i].open) == []
  }

  // ----- the invariant of orderly runs with clear starts

  /** What subscribers have been given or will be given by waiting polls. */
  ghost function Claimed(s: State): seq<StoredEntry> {
    s.delivered + Flatten(s.open)
  }

  /** Sequence number of the last claimed entry, 0 before the first. */
  ghost function Reach(s: State): nat {
    var claimed := Claimed(s);
    if claimed == [] then 0 else SeqOf(claimed[|claimed| - 1])
  }

  /** The cursor is that of the last delivery. */
  ghost predicate AtLastDelivery(s: State) {
    if s.delivered == [] then s.cursor == "" else s.cursor == s.delivered[|s.delivered| - 1].cursor
  }

  /** Claims are written entries of the session's facility in strictly increasing
      order; an entry in memory has been claimed exactly when it matches and lies
      at or before the last claim. */
  ghost predicate Inv(session: Session, s: State) {
    && InSequence(s.memory, s.lastSeq) && InSequence(s.written, s.lastSeq) && InSequence(Claimed(s), s.lastSeq)
    && (forall e :: e in s.memory ==> e in s.written)
    && (forall e :: e in Claimed(s) ==> e in s.written && OfFacility(session.facility)(e))
    && AtLastDelivery(s)
    && (forall e :: e in s.memory ==>
          (e in Claimed(s) <==> OfFacility(session.facility)(e) && SeqOf(e) <= Reach(s)))
  }

  lemma LastIsLargest(list: seq<StoredEntry>, last: nat)
    requires InSequence(list, last)
    ensures forall e :: e in list ==> SeqOf(e) <= SeqOf(list[|list| - 1]) <= last
  {
    hide Stamped, SeqOf;
  }

  lemma PartsInSequence(a: seq<StoredEntry>, b: seq<StoredEntry>, last: nat)
    requires InSequence(a + b, last)
    ensures InSequence(a, last) && InSequence(b, last)
    ensures forall x, y :: x in a && y in b ==> SeqOf(x) < SeqOf(y)
  {
    hide Stamped, SeqOf;
    var all := a + b;
    assert forall k :: 0 <= k < |a| ==> all[k] == a[k];
    assert forall k :: 0 <= k < |b| ==> all[|a| + k] == b[k];
    forall x, y | x in a && y in b
      ensures SeqOf(x) < SeqOf(y)
    {
      var i :| 0 <= i < |a| && a[i] == x;
      var j :| 0 <= j < |b| && b[j] == y;
      assert SeqOf(all[i]) < SeqOf(all[|a| + j]);
    }
  }

  /** Deliveries lie at or before the cursor, waiting pages behind it. */
  lemma CursorPosition(s: State)
    requires InSequence(Claimed(s), s.lastSeq) && AtLastDelivery(s)
    ensures GoodCursor(s.cursor) && Position(s.cursor) <= Reach(s) <= s.lastSeq
    ensures forall e :: e in s.delivered ==> SeqOf(e) <= Position(s.cursor)
    ensures forall e :: e in Flatten(s.open) ==> SeqOf(e) > Position(s.cursor)
    ensures forall e :: e in Claimed(s) ==> SeqOf(e) <= Reach(s)
  {
    hide Stamped, SeqOf, Position, GoodCursor, Flatten;
    var waiting := Flatten(s.open);
    PartsInSequence(s.delivered, waiting, s.lastSeq);
    LastIsLargest(s.delivered, s.lastSeq);
    LastIsLargest(Claimed(s), s.lastSeq);
    if s.delivered == [] {
      NoCursor();
      forall e | e in waiting
        ensures SeqOf(e) > 0
      {
        PositiveSeq(waiting, s.lastSeq, e);
      }
    } else {
      var e := s.delivered[|s.delivered| - 1];
      assert e in s.delivered && e in Claimed(s);
      StampedCursor(s.delivered, s.lastSeq, e);
    }
  }

  lemma NoCursor()
    ensures GoodCursor("") && Position("") == 0
  {
  }

  lemma PositiveSeq(list: seq<StoredEntry>, last: nat, e: StoredEntry)
    requires InSequence(list, last) && e in list
    ensures 0 < SeqOf(e)
  {
    hide Stamped, SeqOf;
  }

  lemma StampedCursor(list: seq<StoredEntry>, last: nat, e: StoredEntry)
    requires InSequence(list, last) && e in list
    ensures e.cursor != "" && GoodCursor(e.cursor) && Position(e.cursor) == SeqOf(e)
  {
    hide Decode;
  }

  lemma InSequenceGrows(list: seq<StoredEntry>, last: nat, more: nat)
    requires InSequence(list, last) && last <= more
    ensures InSequence(list, more)
  {
    hide Stamped, SeqOf;
  }

  lemma InSequenceAppend(list: seq<StoredEntry>, e: StoredEntry, last: nat)
    requires InSequence(list, last) && Stamped(e) && SeqOf(e) == last + 1
    ensures InSequence(list + [e], last + 1)
  {
    hide Stamped, SeqOf;
  }

  lemma NotYetWritten(list: seq<StoredEntry>, e: StoredEntry, last: nat)
    requires InSequence(list, last) && SeqOf(e) > last
    ensures e !in list
  {
    hide Stamped, SeqOf;
  }

  lemma WroteInv(session: Session, s: State, s': State, e: StoredEntry)
    requires Inv(session, s) && Wrote(session, s, s', e)
    ensures Inv(session, s')
  {
    hide Stamped, SeqOf, Position, GoodCursor, Flatten;
    assert Claimed(s') == Claimed(s) && Reach(s') == Reach(s);
    CursorPosition(s);
    KeptInSequence(s.memory, e, session.maxInMemory, s.lastSeq + 1);
    InSequenceGrows(Claimed(s), s.lastSeq, s.lastSeq + 1);
    InSequenceAppend(s.written, e, s.lastSeq);
    NotYetWritten(Claimed(s), e, s.lastSeq);
    assert e in s'.written;
    forall x | x in s'.memory
      ensures x in s.memory || x == e
    {
    }
  }

  lemma PrunedInv(session: Session, s: State, s': State, keep: StoredEntry -> bool)
    requires Inv(session, s) && Pruned(s, s', keep)
    ensures Inv(session, s')
  {
    hide Stamped, SeqOf, Position, Flatten;
    assert Claimed(s') == Claimed(s) && Reach(s') == Reach(s);
    FilterInSequence(s.memory, keep, s.lastSeq);
  }

  /** A poll that settles in its turn turns a claim into a delivery. */
  lemma SettledClaims(s: State, s': State, k: nat)
    requires Settled(s, s', k) && InTurn(s, k)
    ensures Claimed(s') == Claimed(s)
  {
    hide Flatten;
    FlattenAround(s.open, k);
  }

  lemma SettledInv(session: Session, s: State, s': State, k: nat)
    requires Inv(session, s) && Settled(s, s', k) && InTurn(s, k)
    ensures Inv(session, s')
  {
    hide Stamped, SeqOf, Position, Flatten, InTurn;
    SettledClaims(s, s', k);
    assert Reach(s') == Reach(s);
  }

  // ----- a poll starts

  /** A page is a prefix of what is pending. */
  lemma StartedBatch(session: Session, s: State) returns (pending: seq<StoredEntry>, k: nat)
    requires Inv(session, s)
    ensures pending == Pending(s.memory, session.facility, Position(s.cursor)) && k <= |pending|
    ensures k == if 0 < session.batch < |pending| then session.batch else |pending|
    ensures NextBatch(session, s) == pending[..k]
    ensures InSequence(pending, s.lastSeq)
    ensures forall e :: e in pending <==>
      e in s.memory && OfFacility(session.facility)(e) && SeqOf(e) > Position(s.cursor)
  {
    hide Stamped, SeqOf, Position, GoodCursor, Page, Pending, OfFacility, Flatten, InSequence;
    CursorPosition(s);
    PollIsBatch(s.memory, s.lastSeq, session.facility, session.batch, s.cursor);
    pending := Pending(s.memory, session.facility, Position(s.cursor));
    k := if 0 < session.batch < |pending| then session.batch else |pending|;
    assert Batch(pending, session.batch) == pending[..k];
    PendingFacts(s.memory, s.lastSeq, session.facility, Position(s.cursor));
  }

  /** In a clear state, what lies behind the cursor lies behind the last claim. */
  lemma ClearPending(session: Session, s: State, e: StoredEntry)
    requires Inv(session, s) && Clear(s)
    requires e in s.memory && OfFacility(session.facility)(e) && SeqOf(e) > Position(s.cursor)
    ensures SeqOf(e) > Reach(s)
  {
    hide Stamped, SeqOf, Position, GoodCursor, Flatten, InSequence, Reach, OfFacility;
    CursorPosition(s);
    assert e !in s.delivered && e !in Flatten(s.open);
    assert e !in Claimed(s);
  }

  lemma InSequenceJoin(a: seq<StoredEntry>, b: seq<StoredEntry>, last: nat, n: nat)
    requires InSequence(a, last) && InSequence(b, last)
    requires forall e :: e in a ==> SeqOf(e) <= n
    requires forall e :: e in b ==> SeqOf(e) > n
    ensures InSequence(a + b, last)
  {
    hide Stamped, SeqOf;
  }

  lemma PrefixInSequence(list: seq<StoredEntry>, last: nat, k: nat)
    requires InSequence(list, last) && k <= |list|
    ensures InSequence(list[..k], last)
    ensures forall e :: e in list[..k] ==> e in list
  {
    hide Stamped, SeqOf;
  }

  /** Position k of an ordered list separates it by sequence number. */
  lemma PrefixBySeq(list: seq<StoredEntry>, last: nat, k: nat, e: StoredEntry)
    requires InSequence(list, last) && 0 < k <= |list| && e in list
    ensures e in list[..k] <==> SeqOf(e) <= SeqOf(list[k - 1])
  {
    hide Stamped, SeqOf;
    var i :| 0 <= i < |list| && list[i] == e;
    if i < k {
      assert list[..k][i] == e;
    } else {
      forall j | 0 <= j < k
        ensures list[..k][j] != e
      {
        assert SeqOf(list[j]) < SeqOf(list[i]);
      }
    }
  }

  lemma StartedClaims(session: Session, s: State, s': State)
    requires Started(session, s, s')
    ensures Claimed(s') == Claimed(s) + NextBatch(session, s)
    ensures s'.memory == s.memory && s'.lastSeq == s.lastSeq && s'.written == s.written
    ensures s'.delivered == s.delivered && s'.cursor == s.cursor
  {
    hide Flatten, NextBatch;
    FlattenAppend(s.open, NextBatch(session, s));
  }

  /** In a clear state the page continues the claims. */
  lemma ClearBatch(session: Session, s: State, s': State) returns (pending: seq<StoredEntry>, k: nat)
    requires Inv(session, s) && Clear(s) && Started(session, s, s')
    ensures k <= |pending| && k == if 0 < session.batch < |pending| then session.batch else |pending|
    ensures InSequence(pending, s.lastSeq)
    ensures forall e :: e in pending <==>
      e in s.memory && OfFacility(session.facility)(e) && SeqOf(e) > Reach(s)
    ensures Claimed(s') == Claimed(s) + pending[..k]
    ensures pending == Pending(s.memory, session.facility, Position(s.cursor))
  {
    hide Stamped, SeqOf, Position, GoodCursor, Pending, OfFacility, Flatten, InSequence, Clear, NextBatch, Reach;
    pending, k := StartedBatch(session, s);
    StartedClaims(session, s, s');
    CursorPosition(s);
    forall e | e in s.memory && OfFacility(session.facility)(e)
      ensures SeqOf(e) > Position(s.cursor) <==> SeqOf(e) > Reach(s)
    {
      if SeqOf(e) > Position(s.cursor) {
        ClearPending(session, s, e);
      }
    }
  }

  lemma StartedOrder(session: Session, s: State, s': State)
    requires Inv(session, s) && Clear(s) && Started(session, s, s')
    ensures InSequence(Claimed(s'), s'.lastSeq) && AtLastDelivery(s')
    ensures forall e :: e in Claimed(s') ==> e in s'.written && OfFacility(session.facility)(e)
  {
    hide Stamped, SeqOf, Position, GoodCursor, Pending, OfFacility, Flatten, Clear, NextBatch, InSequence, Reach;
    var pending, k := ClearBatch(session, s, s');
    StartedClaims(session, s, s');
    CursorPosition(s);
    PrefixInSequence(pending, s.lastSeq, k);
    InSequenceJoin(Claimed(s), pending[..k], s.lastSeq, Reach(s));
  }

  lemma StartedMemory(session: Session, s: State, s': State, e: StoredEntry)
    requires Inv(session, s) && Clear(s) && Started(session, s, s') && e in s.memory
    ensures e in Claimed(s') <==> OfFacility(session.facility)(e) && SeqOf(e) <= Reach(s')
  {
    hide Stamped, SeqOf, Position, GoodCursor, Pending, OfFacility, Flatten, Clear, NextBatch, InSequence;
    var pending, k := ClearBatch(session, s, s');
    StartedOrder(session, s, s');
    CursorPosition(s);
    CursorPosition(s');
    PrefixInSequence(pending, s.lastSeq, k);
    assert e in Claimed(s') <==> e in Claimed(s) || e in pending[..k];
    if k > 0 {
      assert Claimed(s')[|Claimed(s')| - 1] == pending[k - 1];
      assert pending[k - 1] in pending;
      if e in pending {
        PrefixBySeq(pending, s.lastSeq, k, e);
      }
    }
  }

  lemma StartedInv(session: Session, s: State, s': State)
    requires Inv(session, s) && Clear(s) && Started(session, s, s')
    ensures Inv(session, s')
  {
    hide Stamped, SeqOf, Position, Started, InSequence, AtLastDelivery, OfFacility, Flatten, Reach, Clear;
    StartedOrder(session, s, s');
    StartedClaims(session, s, s');
    forall e | e in s.memory
      ensures e in Claimed(s') <==> OfFacility(session.facility)(e) && SeqOf(e) <= Reach(s')
    {
      StartedMemory(session, s, s', e);
    }
  }

  /** In any other state the page begins with an entry that a waiting poll will
      deliver as well. */
  lemma UnclearRepeats(session: Session, s: State, s': State)
    requires Inv(session, s) && !Clear(s) && Started(session, s, s')
    ensures NextBatch(session, s) != [] && NextBatch(session, s)[0] in Flatten(s.open)
    ensures !Distinct(Claimed(s'))
  {
    hide Stamped, SeqOf, Position, GoodCursor, OfFacility, Flatten, InSequence, NextBatch, Reach;
    var e :| e in Flatten(s.open) && e in s.memory;
    CursorPosition(s);
    assert e in Claimed(s);
    var pending, k := StartedBatch(session, s);
    assert e in pending;
    FirstIsSmallest(pending, s.lastSeq, e);
    var first := NextBatch(session, s)[0];
    assert first == pending[0] && first in pending;
    assert first in Claimed(s);
    StartedClaims(session, s, s');
    RepeatInJoin(Claimed(s), NextBatch(session, s), first);
  }

  lemma FirstIsSmallest(list: seq<StoredEntry>, last: nat, e: StoredEntry)
    requires InSequence(list, last) && e in list
    ensures SeqOf(list[0]) <= SeqOf(e)
  {
    hide Stamped, SeqOf;
  }

  lemma RepeatInJoin(a: seq<StoredEntry>, b: seq<StoredEntry>, e: StoredEntry)
    requires e in a && e in b
    ensures !Distinct(a + b)
  {
    var i :| 0 <= i < |a| && a[i] == e;
    var j :| 0 <= j < |b| && b[j] == e;
    assert (a + b)[i] == (a + b)[|a| + j];
  }

  // ----- orderly runs: when nothing is delivered twice

  lemma InitInv(session: Session, s: State)
    requires Init(s)
    ensures Inv(session, s)
  {
    hide Stamped, SeqOf;
    forall e | e in s.memory
      ensures SeqOf(e) > 0
    {
      PositiveSeq(s.memory, s.lastSeq, e);
    }
  }

  lemma StepInv(session: Session, s: State, s': State)
    requires Inv(session, s) && OrderlyNext(session, s, s') && (Started(session, s, s') ==> Clear(s))
    ensures Inv(session, s')
  {
    hide Wrote, Pruned, Started, AfterSettle, Inv, Clear, InTurn;
    if e :| Wrote(session, s, s', e) {
      WroteInv(session, s, s', e);
    } else if keep :| Pruned(s, s', keep) {
      PrunedInv(session, s, s', keep);
    } else if Started(session, s, s') {
      StartedInv(session, s, s');
    } else {
      var k :| Settled(s, s', k) && InTurn(s, k);
      SettledInv(session, s, s', k);
    }
  }

  /** Claims are never taken back. */
  lemma ClaimsGrow(session: Session, s: State, s': State)
    requires OrderlyNext(session, s, s')
    ensures Claimed(s) <= Claimed(s')
  {
    hide Flatten, NextBatch, InTurn, AfterSettle, Started;
    if e :| Wrote(session, s, s', e) {
    } else if keep :| Pruned(s, s', keep) {
    } else if Started(session, s, s') {
      StartedClaims(session, s, s');
    } else {
      var k :| Settled(s, s', k) && InTurn(s, k);
      SettledClaims(s, s', k);
    }
  }

  lemma InSequenceDistinct(list: seq<StoredEntry>, last: nat)
    requires InSequence(list, last)
    ensures Distinct(list)
  {
    hide Stamped, SeqOf;
    forall i, j | 0 <= i < j < |list|
      ensures list[i] != list[j]
    {
      assert SeqOf(list[i]) < SeqOf(list[j]);
    }
  }

  lemma PrefixDistinct<T>(a: seq<T>, b: seq<T>)
    requires a <= b && Distinct(b)
    ensures Distinct(a)
  {
  }

  lemma {:induction false} ClearRunInv(session: Session, run: seq<State>, i: nat)
    requires OrderlyRun(session, run) && StartsClear(session, run) && i < |run|
    ensures Inv(session, run[i])
  {
    hide Inv, Clear, Started, OrderlyNext;
    if i == 0 {
      InitInv(session, run[0]);
    } else {
      ClearRunInv(session, run, i - 1);
      StepInv(session, run[i - 1], run[i]);
    }
  }

  /** Once something is claimed twice, or up to the first start that is not clear. */
  lemma {:induction false} DistinctRunClear(session: Session, run: seq<State>, i: nat)
    requires OrderlyRun(session, run) && i < |run| && Distinct(Claimed(run[i]))
    ensures Inv(session, run[i])
    ensures StartsClear(session, run[..i + 1])
  {
    hide Inv, Clear, Started, OrderlyNext, Distinct;
    if i == 0 {
      InitInv(session, run[0]);
    } else {
      var s, s' := run[i - 1], run[i];
      assert OrderlyNext(session, s, s');
      ClaimsGrow(session, s, s');
      PrefixDistinct(Claimed(s), Claimed(s'));
      DistinctRunClear(session, run, i - 1);
      if Started(session, s, s') && !Clear(s) {
        UnclearRepeats(session, s, s');
      }
      StepInv(session, s, s');
      ClearOneMore(session, run, i);
    }
  }

  lemma ClearOneMore(session: Session, run: seq<State>, i: nat)
    requires 0 < i < |run| && StartsClear(session, run[..i])
    requires Started(session, run[i - 1], run[i]) ==> Clear(run[i - 1])
    ensures StartsClear(session, run[..i + 1])
  {
    hide Clear, Started;
    var a, b := run[..i], run[..i + 1];
    forall j, k | 0 <= j < k < |b| && k == j + 1 && Started(session, b[j], b[k])
      ensures Clear(b[j])
    {
      if k < i {
        assert a[j] == b[j] && a[k] == b[k];
      }
    }
  }

  /** Exactly when is nothing handed out twice?  If polls settle in the order of
      their starts, then exactly when every poll starts while no entry of a
      waiting page is still in memory. */
  lemma OnceIffStartsClear(session: Session, run: seq<State>)
    requires OrderlyRun(session, run)
    ensures Distinct(Claimed(run[|run| - 1])) <==> StartsClear(session, run)
    ensures Flatten(run[|run| - 1].open) == [] ==>
      (Distinct(run[|run| - 1].delivered) <==> StartsClear(session, run))
  {
    hide Inv, StartsClear, Distinct, Flatten, OrderlyNext;
    var last := |run| - 1;
    var s := run[last];
    if StartsClear(session, run) {
      ClearRunInv(session, run, last);
      ClaimedInSequence(session, s);
      InSequenceDistinct(Claimed(s), s.lastSeq);
    }
    if Distinct(Claimed(s)) {
      DistinctRunClear(session, run, last);
      assert run[..last + 1] == run;
    }
    if Flatten(s.open) == [] {
      assert Claimed(s) == s.delivered;
    }
  }

  lemma ClaimedInSequence(session: Session, s: State)
    requires Inv(session, s)
    ensures InSequence(Claimed(s), s.lastSeq)
  {
  }

  // ----- any order of settling: polls that do not overlap

  /** At most one waiting poll has something to hand over. */
  ghost predicate OneWaiting(s: State) {
    forall j, k :: 0 <= j < k < |s.open| ==> s.open[j] == [] || s.open[k] == []
  }

  lemma AloneInTurn(s: State, k: nat)
    requires OneWaiting(s) && k < |s.open|
    ensures InTurn(s, k) && OneWaiting(AfterSettle(s, k))
  {
    FlattenEmpty(s.open[..k]);
    var rest := s.open[..k] + s.open[k + 1..];
    forall i, j | 0 <= i < j < |rest|
      ensures rest[i] == [] || rest[j] == []
    {
      assert rest[i] == s.open[if i < k then i else i + 1];
      assert rest[j] == s.open[if j < k then j else j + 1];
    }
  }

  lemma AloneStarted(session: Session, s: State, s': State)
    requires OneWaiting(s) && Started(session, s, s')
    requires NextBatch(session, s) == [] || Flatten(s.open) == []
    ensures OneWaiting(s')
  {
    hide NextBatch;
    FlattenEmpty(s.open);
  }

  lemma AloneClear(session: Session, s: State, s': State)
    requires Inv(session, s) && Started(session, s, s')
    requires NextBatch(session, s) == [] || Flatten(s.open) == []
    ensures Clear(s)
  {
    hide Inv, Flatten, NextBatch;
    if !Clear(s) {
      UnclearRepeats(session, s, s');
    }
  }

  lemma AloneStep(session: Session, s: State, s': State)
    requires Inv(session, s) && OneWaiting(s) && Next(session, s, s')
    requires Started(session, s, s') ==> NextBatch(session, s) == [] || Flatten(s.open) == []
    ensures OrderlyNext(session, s, s') && (Started(session, s, s') ==> Clear(s))
    ensures Inv(session, s') && OneWaiting(s')
  {
    hide Inv, Clear, Flatten, NextBatch, InTurn, Started, AfterSettle;
    if Started(session, s, s') {
      AloneClear(session, s, s');
      AloneStarted(session, s, s');
    } else if k :| Settled(s, s', k) {
      AloneInTurn(s, k);
    }
    StepInv(session, s, s');
  }

  lemma {:induction false} AloneRun(session: Session, run: seq<State>, i: nat)
    requires Run(session, run) && NoOverlap(session, run) && i < |run|
    ensures Inv(session, run[i]) && OneWaiting(run[i])
    ensures i > 0 ==> OrderlyNext(session, run[i - 1], run[i])
    ensures i > 0 && Started(session, run[i - 1], run[i]) ==> Clear(run[i - 1])
  {
    hide Inv, Clear, Flatten, NextBatch, Started, Next, OrderlyNext;
    if i == 0 {
      InitInv(session, run[0]);
    } else {
      AloneRun(session, run, i - 1);
      AloneStep(session, run[i - 1], run[i]);
    }
  }

  /** Whatever the order of settling, with polls that do not overlap deliveries
      come in strictly increasing sequence order, so none twice, and only matching
      written entries are delivered; an entry that matches and is still in memory
      has been claimed if and only if it lies at or before the last claim. */
  lemma TailDelivery(session: Session, run: seq<State>, i: nat)
    requires Run(session, run) && NoOverlap(session, run) && i < |run|
    ensures forall j, k :: 0 <= j < k < |run[i].delivered| ==> SeqOf(run[i].delivered[j]) < SeqOf(run[i].delivered[k])
    ensures forall e :: e in run[i].delivered ==> e in run[i].written && OfFacility(session.facility)(e)
    ensures forall e :: e in run[i].memory && OfFacility(session.facility)(e) ==>
      (e in Claimed(run[i]) <==> SeqOf(e) <= Reach(run[i]))
  {
    hide Stamped, SeqOf, Flatten, NoOverlap, Run;
    AloneRun(session, run, i);
    PartsInSequence(run[i].delivered, Flatten(run[i].open), run[i].lastSeq);
  }

  /** And that polls do not overlap is needed: wherever a poll with something to
      deliver starts while another such poll is waiting, the newer one may settle
      first, and then deliveries are out of order. */
  lemma OverlapDisorders(session: Session, s: State, s': State) returns (k: nat, after: State)
    requires Inv(session, s) && Started(session, s, s') && NextBatch(session, s) != [] && Flatten(s.open) != []
    ensures k < |s.open| && after == AfterSettle(AfterSettle(s', |s.open|), k)
    ensures exists i, j :: 0 <= i < j < |after.delivered| && SeqOf(after.delivered[i]) >= SeqOf(after.delivered[j])
  {
    hide Stamped, SeqOf, Position, GoodCursor, OfFacility, Flatten, InSequence, NextBatch, Inv;
    k := FirstWaiting(s.open);
    var page, older := NextBatch(session, s), s.open[k];
    after := AfterSettle(AfterSettle(s', |s.open|), k);
    assert s'.open[..|s.open|] + s'.open[|s.open| + 1..] == s.open;
    assert after.delivered == s.delivered + page + older;
    FirstBehind(session, s);
    var d := |s.delivered|;
    assert after.delivered[d] == page[0] && after.delivered[d + |page|] == older[0];
  }

  lemma FirstWaiting(open: seq<seq<StoredEntry>>) returns (k: nat)
    requires Flatten(open) != []
    ensures k < |open| && open[k] != [] && Flatten(open)[0] == open[k][0]
  {
    hide Flatten;
    FlattenEmpty(open);
    k := 0;
    while open[k] == []
      invariant k < |open| && forall j :: 0 <= j < k ==> open[j] == []
      invariant exists j :: k <= j < |open| && open[j] != []
      decreases |open| - k
    {
      k := k + 1;
    }
    FlattenEmpty(open[..k]);
    FlattenAround(open, k);
  }

  /** A page never begins before the first entry of the waiting pages. */
  lemma FirstBehind(session: Session, s: State)
    requires Inv(session, s) && NextBatch(session, s) != [] && Flatten(s.open) != []
    ensures SeqOf(NextBatch(session, s)[0]) >= SeqOf(Flatten(s.open)[0])
  {
    hide Stamped, SeqOf, Position, GoodCursor, OfFacility, Flatten, InSequence, NextBatch, Reach;
    var pending, k := StartedBatch(session, s);
    var first := NextBatch(session, s)[0];
    assert first == pending[0] && first in pending;
    CursorPosition(s);
    PartsInSequence(s.delivered, Flatten(s.open), s.lastSeq);
    var oldest := Flatten(s.open)[0];
    assert oldest in Claimed(s);
    if SeqOf(first) <= Reach(s) {
      assert first in Claimed(s) && first in Flatten(s.open);
      FirstIsSmallest(Flatten(s.open), s.lastSeq, first);
    }
  }

  /** Two polls back to back, before the first settles, hand out the same page
      twice, whenever anything is pending. */
  lemma BackToBackRepeats(session: Session, run: seq<State>) returns (run': seq<State>)
    requires Run(session, run) && NoOverlap(session, run) && run[|run| - 1].open == []
    requires NextBatch(session, run[|run| - 1]) != []
    ensures Run(session, run') && |run'| == |run| + 4 && run <= run' && run'[|run'| - 1].open == []
    ensures var s := run[|run| - 1];
      run'[|run'| - 1].delivered == s.delivered + NextBatch(session, s) + NextBatch(session, s)
      && !Distinct(run'[|run'| - 1].delivered)
  {
    hide NextBatch, Distinct, NoOverlap, Init;
    var s := run[|run| - 1];
    var page := NextBatch(session, s);
    var s1 := s.(open := [page]);
    var s2 := s.(open := [page, page]);
    assert Started(session, s, s1);
    assert NextBatch(session, s1) == page by { SameBatch(session, s, s1); }
    assert Started(session, s1, s2) by { assert s1.open + [page] == s2.open; }
    var s3, s4 := AfterSettle(s2, 0), AfterSettle(AfterSettle(s2, 0), 0);
    assert s2.open[..0] + s2.open[1..] == [page];
    assert Settled(s2, s3, 0) && Settled(s3, s4, 0);
    run' := run + [s1, s2, s3, s4];
    assert s4.delivered == s.delivered + page + page;
    RepeatInJoin(s.delivered + page, page, page[0]);
    forall i, j | 0 <= i < j < |run'| && j == i + 1
      ensures Next(session, run'[i], run'[j])
    {
      if j < |run| {
        assert Next(session, run[i], run[j]);
      }
    }
  }

  lemma SameBatch(session: Session, s: State, s': State)
    requires s'.memory == s.memory && s'.cursor == s.cursor
    ensures NextBatch(session, s') == NextBatch(session, s)
  {
  }

  // ----- progress

  /** A poll that starts clear claims the oldest pending entries: at least one if
      there is any, all of them if the batch allows; what remains is the rest. */
  lemma PollProgress(session: Session, s: State, s': State)
    requires Inv(session, s) && Clear(s) && Started(session, s, s')
    ensures
      var pending := Pending(s.memory, session.facility, Reach(s));
      var rest := Pending(s'.memory, session.facility, Reach(s'));
      && NextBatch(session, s) == Batch(pending, session.batch)
      && Claimed(s') + rest == Claimed(s) + pending && (pending != [] ==> |rest| < |pending|)
      && (session.batch == 0 || |pending| <= session.batch ==> rest == [])
      && (session.batch > 0 ==> |NextBatch(session, s)| <= session.batch)
  {
    hide Stamped, SeqOf, Position, GoodCursor, Pending, OfFacility, InSequence, Flatten, Clear, NextBatch;
    var pending, k := ClearBatch(session, s, s');
    PendingFromReach(session, s);
    StartedClaims(session, s, s');
    assert NextBatch(session, s) == pending[..k] by {
      var p, n := StartedBatch(session, s);
    }
    if k > 0 {
      assert Claimed(s')[|Claimed(s')| - 1] == pending[k - 1];
      PendingRest(s.memory, s.lastSeq, session.facility, Reach(s), k);
      assert pending[..k] + pending[k..] == pending;
      assert Claimed(s') + pending[k..] == Claimed(s) + (pending[..k] + pending[k..]);
    }
  }

  lemma PendingFromReach(session: Session, s: State)
    requires Inv(session, s) && Clear(s)
    ensures Pending(s.memory, session.facility, Position(s.cursor)) == Pending(s.memory, session.facility, Reach(s))
  {
    hide Stamped, SeqOf, Position, GoodCursor, Flatten, Clear, Reach, Beyond, Inv;
    InvParts(session, s);
    CursorPosition(s);
    var all := Matching(s.memory, session.facility);
    forall e | e in all
      ensures After(Position(s.cursor))(e) == After(Reach(s))(e)
    {
      var k :| 0 <= k < |s.memory| && s.memory[k] == e;
      BeyondIff(e, Position(s.cursor));
      BeyondIff(e, Reach(s));
      if SeqOf(e) > Position(s.cursor) {
        ClearPending(session, s, e);
      }
    }
    FilterAgree(all, After(Position(s.cursor)), After(Reach(s)));
  }

  lemma InvParts(session: Session, s: State)
    requires Inv(session, s)
    ensures InSequence(s.memory, s.lastSeq) && InSequence(Claimed(s), s.lastSeq) && AtLastDelivery(s)
  {
  }

  lemma SplitPoint(list: seq<StoredEntry>, last: nat, n: nat) returns (j: nat)
    requires InSequence(list, last)
    ensures j <= |list|
    ensures forall i :: 0 <= i < j ==> SeqOf(list[i]) <= n
    ensures forall i :: j <= i < |list| ==> SeqOf(list[i]) > n
  {
    hide Stamped, SeqOf;
    j := 0;
    while j < |list| && SeqOf(list[j]) <= n
      invariant j <= |list| && forall i :: 0 <= i < j ==> SeqOf(list[i]) <= n
    {
      j := j + 1;
    }
  }

  lemma SplitAt(list: seq<StoredEntry>, last: nat, k: nat)
    requires InSequence(list, last) && k < |list|
    ensures forall i :: 0 <= i < k + 1 ==> SeqOf(list[i]) <= SeqOf(list[k])
    ensures forall i :: k + 1 <= i < |list| ==> SeqOf(list[i]) > SeqOf(list[k])
  {
    hide Stamped, SeqOf;
  }

  lemma PendingRest(memory: seq<StoredEntry>, last: nat, facility: string, n: nat, k: nat)
    requires InSequence(memory, last) && 0 < k <= |Pending(memory, facility, n)|
    ensures
      var pending := Pending(memory, facility, n);
      Pending(memory, facility, SeqOf(pending[k - 1])) == pending[k..]
  {
    hide Stamped, SeqOf, Beyond, InSequence, Filter;
    FilterInSequence(memory, OfFacility(facility), last);
    var all := Matching(memory, facility);
    var j := SplitPoint(all, last, n);
    FilterAfter(all, last, n, j);
    SplitAt(all, last, j + k - 1);
    FilterAfter(all, last, SeqOf(all[j + k - 1]), j + k);
    assert all[j..][k..] == all[j + k..];
  }

  lemma PageStamped(memory: seq<StoredEntry>, last: nat, q: LogQuery)
    requires InSequence(memory, last)
    ensures forall e :: e in Page(memory, q) ==> e in memory && e.cursor != ""
  {
    hide Decode;
    forall e | e in Page(memory, q)
      ensures e in memory && e.cursor != ""
    {
      assert e in Selected(memory, q);
      assert e in memory;
      var k :| 0 <= k < |memory| && memory[k] == e;
    }
  }

  /** Without validation a reader starts over: under the boot id "=" a poll from
      any minted cursor returns what a poll from the start returns. */
  lemma SeparatorBootRepeats(memory: seq<StoredEntry>, facility: string, batch: nat, s: string, i: nat, m: nat, t: nat)
    requires Clean(s)
    ensures Page(memory, TailQuery(facility, batch, Encode(Mint(s, i, "=", m, t))))
         == Page(memory, TailQuery(facility, batch, ""))
  {
    hide Decode, Encode;
    SeparatorBootInvalid(s, i, m, t);
    var cursor := Encode(Mint(s, i, "=", m, t));
    FilterAgree(memory, Ranged(TailQuery(facility, batch, cursor)), Ranged(TailQuery(facility, batch, "")));
  }

  // ----- paging as a session

  const BATCH_SIZE: nat := 500

  /** A page is short, and ends a paging loop, exactly when fewer entries than a
      full page are pending: writers that keep up keep the loop going. */
  lemma ShortPageIff(session: Session, s: State, s': State)
    requires Inv(session, s) && Clear(s) && Started(session, s, s') && session.batch == 500
    ensures |NextBatch(session, s)| < 500 <==> |Pending(s.memory, session.facility, Reach(s))| < 500
    ensures |NextBatch(session, s)| < 500 ==>
      forall e :: e in s.memory && OfFacility(session.facility)(e) ==> e in Claimed(s')
  {
    hide Stamped, SeqOf, Position, GoodCursor, Pending, OfFacility, InSequence, Flatten, Clear, NextBatch, Reach, Inv;
    PollProgress(session, s, s');
    var pending, k := ClearBatch(session, s, s');
    PendingFromReach(session, s);
    InvMemory(session, s);
  }

  lemma InvMemory(session: Session, s: State)
    requires Inv(session, s)
    ensures forall e :: e in s.memory ==>
      (e in Claimed(s) <==> OfFacility(session.facility)(e) && SeqOf(e) <= Reach(s))
    ensures forall e :: e in Claimed(s) ==> e in s.written && OfFacility(session.facility)(e)
  {
  }

  /** Some poll read its page while `e` was in memory, and the page reached it. */
  ghost predicate Reached(session: Session, run: seq<State>, e: StoredEntry) {
    exists i, j :: 0 <= i < j < |run| && j == i + 1 && Started(session, run[i], run[j])
      && e in run[i].memory && SeqOf(e) <= Reach(run[j])
  }

  /** Each matching entry is claimed exactly if it is still in memory when its
      turn comes. */
  lemma {:induction false} ClaimedIffReached(session: Session, run: seq<State>, i: nat, e: StoredEntry)
    requires OrderlyRun(session, run) && StartsClear(session, run) && i < |run|
    ensures e in Claimed(run[i]) <==> OfFacility(session.facility)(e) && Reached(session, run[..i + 1], e)
  {
    hide Stamped, SeqOf, Inv, Clear, Started, OfFacility, Reach, Flatten, OrderlyNext, NextBatch, Reached;
    ClearRunInv(session, run, i);
    if i == 0 {
      NothingClaimed(run[0]);
      NotReachedAtFirst(session, run);
    } else {
      var s, s' := run[i - 1], run[i];
      assert OrderlyNext(session, s, s');
      ClearRunInv(session, run, i - 1);
      ClaimedIffReached(session, run, i - 1, e);
      ReachedStep(session, run, i, e);
      if Started(session, s, s') {
        assert Clear(s);
        StartedTurn(session, s, s', e);
      } else {
        QuietClaims(session, s, s');
      }
    }
  }

  lemma NothingClaimed(s: State)
    requires Init(s)
    ensures Claimed(s) == []
  {
  }

  lemma NotReachedAtFirst(session: Session, run: seq<State>)
    requires run != []
    ensures forall e :: !Reached(session, run[..1], e)
  {
    hide Started, Reach, SeqOf;
  }

  lemma ReachedStep(session: Session, run: seq<State>, i: nat, e: StoredEntry)
    requires 0 < i < |run|
    ensures Reached(session, run[..i + 1], e) <==>
      || Reached(session, run[..i], e)
      || (Started(session, run[i - 1], run[i]) && e in run[i - 1].memory && SeqOf(e) <= Reach(run[i]))
  {
    hide Started, Reach, SeqOf;
    var a, b := run[..i], run[..i + 1];
    if Reached(session, a, e) {
      var j, k :| 0 <= j < k < |a| && k == j + 1 && Started(session, a[j], a[k])
        && e in a[j].memory && SeqOf(e) <= Reach(a[k]);
      assert b[j] == a[j] && b[k] == a[k];
    }
    if Reached(session, b, e) {
      var j, k :| 0 <= j < k < |b| && k == j + 1 && Started(session, b[j], b[k])
        && e in b[j].memory && SeqOf(e) <= Reach(b[k]);
      if k < i {
        assert b[j] == a[j] && b[k] == a[k];
      }
    }
    if Started(session, run[i - 1], run[i]) && e in run[i - 1].memory && SeqOf(e) <= Reach(run[i]) {
      assert b[i - 1] == run[i - 1] && b[i] == run[i];
    }
  }

  lemma StartedTurn(session: Session, s: State, s': State, e: StoredEntry)
    requires Inv(session, s) && Clear(s) && Started(session, s, s')
    ensures e in Claimed(s') <==>
      e in Claimed(s) || (OfFacility(session.facility)(e) && e in s.memory && SeqOf(e) <= Reach(s'))
  {
    hide Stamped, SeqOf, Inv, Clear, Started, OfFacility, Reach, Flatten, NextBatch;
    var pending, k := ClearBatch(session, s, s');
    if e in s.memory {
      StartedMemory(session, s, s', e);
    }
    assert e in Claimed(s') ==> e in Claimed(s) || e in pending;
  }

  /** Only a start makes a claim. */
  lemma QuietClaims(session: Session, s: State, s': State)
    requires OrderlyNext(session, s, s') && !Started(session, s, s')
    ensures Claimed(s') == Claimed(s)
  {
    hide Flatten, NextBatch, InTurn, AfterSettle, Started;
    if e :| Wrote(session, s, s', e) {
    } else if keep :| Pruned(s, s', keep) {
    } else {
      var k :| Settled(s, s', k) && InTurn(s, k);
      SettledClaims(s, s', k);
    }
  }
}
