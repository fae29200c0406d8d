/** Log rotation: which entries to evict, and the prune pass over a logger. */
module Rotation {
  import opened Collections
  import opened Cursors
  import opened AuditLog
  import opened Tail
  import opened TailClients

  datatype RotationConfig = RotationConfig(maxTotalBytes: nat, maxAgeMs: nat, minEntries: nat)

  function EstimateEntrySize(e: StoredEntry): nat {
    |e.message| + (if e.metadata.Some? then |e.metadata.value| else 0) + 200
  }

  function TotalSize(entries: seq<StoredEntry>): nat {
    if entries == [] then 0 else EstimateEntrySize(entries[0]) + TotalSize(entries[1..])
  }

  function Ids(entries: seq<StoredEntry>): (ids: seq<string>)
    ensures |ids| == |entries| && forall i :: 0 <= i < |ids| ==> ids[i] == entries[i].id
  {
    seq(|entries|, i requires 0 <= i < |entries| => entries[i].id)
  }

  // ----- stable sort by timestamp

  function Insert(e: StoredEntry, sorted: seq<StoredEntry>): seq<StoredEntry> {
    if sorted == [] || e.timestamp <= sorted[0].timestamp then [e] + sorted
    else [sorted[0]] + Insert(e, sorted[1..])
  }

  function SortByTime(entries: seq<StoredEntry>): seq<StoredEntry> {
    if entries == [] then [] else Insert(entries[0], SortByTime(entries[1..]))
  }

  ghost predicate Ascending(entries: seq<StoredEntry>) {
    forall i, j :: 0 <= i < j < |entries| ==> entries[i].timestamp <= entries[j].timestamp
  }

  lemma {:induction false} InsertMultiset(e: StoredEntry, sorted: seq<StoredEntry>)
    ensures |Insert(e, sorted)| == |sorted| + 1
    ensures multiset(Insert(e, sorted)) == multiset(sorted) + multiset{e}
  {
    if !(sorted == [] || e.timestamp <= sorted[0].timestamp) {
      InsertMultiset(e, sorted[1..]);
      assert sorted == [sorted[0]] + sorted[1..];
    }
  }

  lemma {:induction false} InsertAscending(e: StoredEntry, sorted: seq<StoredEntry>)
    requires Ascending(sorted)
    ensures Ascending(Insert(e, sorted))
    ensures forall x :: x in Insert(e, sorted) ==> x == e || x in sorted
  {
    if !(sorted == [] || e.timestamp <= sorted[0].timestamp) {
      InsertAscending(e, sorted[1..]);
      forall x | x in Insert(e, sorted[1..])
        ensures sorted[0].timestamp <= x.timestamp
      {
        if x != e {
          var i :| 0 <= i < |sorted[1..]| && sorted[1..][i] == x;
          assert sorted[i + 1] == x;
        }
      }
    }
  }

  /** The sort puts the same entries in ascending order of time. */
  lemma {:induction false} SortFacts(entries: seq<StoredEntry>)
    ensures Ascending(SortByTime(entries))
    ensures multiset(SortByTime(entries)) == multiset(entries) && |SortByTime(entries)| == |entries|
  {
    hide Ascending, Insert;
    if entries == [] {
      AscendingEmpty();
    } else {
      SortFacts(entries[1..]);
      InsertMultiset(entries[0], SortByTime(entries[1..]));
      InsertAscending(entries[0], SortByTime(entries[1..]));
      assert entries == [entries[0]] + entries[1..];
    }
  }

  lemma AscendingEmpty()
    ensures Ascending([])
  {
  }

  lemma {:induction false} InsertFilter(e: StoredEntry, sorted: seq<StoredEntry>, keep: StoredEntry -> bool)
    requires Ascending(sorted)
    ensures Filter(Insert(e, sorted), keep)
         == if keep(e) then Insert(e, Filter(sorted, keep)) else Filter(sorted, keep)
  {
    if sorted == [] || e.timestamp <= sorted[0].timestamp {
      assert ([e] + sorted)[1..] == sorted;
      if keep(e) {
        InsertInFront(e, Filter(sorted, keep), sorted);
      }
    } else {
      InsertFilter(e, sorted[1..], keep);
      assert ([sorted[0]] + Insert(e, sorted[1..]))[1..] == Insert(e, sorted[1..]);
    }
  }

  lemma InsertInFront(e: StoredEntry, part: seq<StoredEntry>, sorted: seq<StoredEntry>)
    requires Ascending(sorted) && (sorted == [] || e.timestamp <= sorted[0].timestamp)
    requires forall x :: x in part ==> x in sorted
    ensures Insert(e, part) == [e] + part
  {
    if part != [] {
      assert part[0] in part;
      var i :| 0 <= i < |sorted| && sorted[i] == part[0];
    }
  }

  /** Filtering and sorting commute; with a filter on one timestamp this is stability. */
  lemma {:induction false} SortFilter(entries: seq<StoredEntry>, keep: StoredEntry -> bool)
    ensures SortByTime(Filter(entries, keep)) == Filter(SortByTime(entries), keep)
  {
    if entries != [] {
      SortFilter(entries[1..], keep);
      SortFacts(entries[1..]);
      InsertFilter(entries[0], SortByTime(entries[1..]), keep);
    }
  }

  function AtTime(ts: int): StoredEntry -> bool { (e: StoredEntry) => e.timestamp == ts }

  /** Entries of the same time keep their order. */
  lemma SortStable(entries: seq<StoredEntry>, ts: int)
    ensures Filter(SortByTime(entries), AtTime(ts)) == Filter(entries, AtTime(ts))
  {
    SortFilter(entries, AtTime(ts));
    SortSame(Filter(entries, AtTime(ts)), ts);
  }

  lemma {:induction false} SortSame(entries: seq<StoredEntry>, ts: int)
    requires forall e :: e in entries ==> e.timestamp == ts
    ensures SortByTime(entries) == entries
  {
    if entries != [] {
      SortSame(entries[1..], ts);
    }
  }

  /** The estimated size of a list: for each entry its message, its metadata if
      any, and 200 bytes. */
  lemma SizeOfList(entries: seq<StoredEntry>)
    ensures entries == [] ==> TotalSize(entries) == 0
    ensures entries != [] ==>
      var e := entries[0];
      && (e.metadata.None? ==> TotalSize(entries) == |e.message| + 200 + TotalSize(entries[1..]))
      && (e.metadata.Some? ==>
            TotalSize(entries) == |e.message| + |e.metadata.value| + 200 + TotalSize(entries[1..]))
  {
  }

  // ----- what a selection must achieve

  predicate Expired(e: StoredEntry, config: RotationConfig, now: int) {
    config.maxAgeMs > 0 && e.timestamp < now - config.maxAgeMs
  }

  /** Nothing more has to go: too few entries, or none expired and size within limit. */
  ghost predicate Settled(rest: seq<StoredEntry>, config: RotationConfig, now: int) {
    || |rest| <= config.minEntries
    || ((forall e :: e in rest ==> !Expired(e, config, now))
        && (config.maxTotalBytes == 0 || TotalSize(rest) <= config.maxTotalBytes))
  }

  /** The shortest oldest-first prefix whose removal settles the log. */
  ghost predicate Selects(entries: seq<StoredEntry>, config: RotationConfig, now: int, toRemove: seq<string>) {
    var sorted := SortByTime(entries);
    var k := |toRemove|;
    && k <= |sorted| && toRemove == Ids(sorted[..k])
    && Settled(sorted[k..], config, now)
    && forall j :: 0 <= j < k ==> !Settled(sorted[j..], config, now)
  }

  lemma {:induction false} SameMultisetUnique(a: seq<StoredEntry>, b: seq<StoredEntry>)
    requires multiset(a) == multiset(b) && UniqueIds(a)
    ensures UniqueIds(b)
  {
    forall i, j | 0 <= i < j < |b|
      ensures b[i].id != b[j].id
    {
      if b[i] == b[j] {
        TwiceInMultiset(b, i, j);
        OnceInMultiset(a, b[i]);
      } else {
        assert b[i] in multiset(b) && b[j] in multiset(b);
        var p :| 0 <= p < |a| && a[p] == b[i];
        var q :| 0 <= q < |a| && a[q] == b[j];
      }
    }
  }

  lemma TwiceInMultiset(b: seq<StoredEntry>, i: nat, j: nat)
    requires i < j < |b| && b[i] == b[j]
    ensures multiset(b)[b[i]] >= 2
  {
    assert b == b[..j] + b[j..];
    assert b[..j][i] in multiset(b[..j]);
    assert b[j..][0] in multiset(b[j..]);
  }

  lemma OnceInMultiset(a: seq<StoredEntry>, e: StoredEntry)
    requires UniqueIds(a)
    ensures multiset(a)[e] <= 1
  {
    if a != [] {
      var rest := a[1..];
      OnceInMultiset(rest, e);
      assert a == [a[0]] + rest;
      if a[0] == e {
        assert e !in rest;
      }
    }
  }

  /** Keeping what is not among the first k ids leaves the rest. */
  lemma DropPrefixIds(sorted: seq<StoredEntry>, k: nat)
    requires UniqueIds(sorted) && k <= |sorted|
    ensures Filter(sorted, IdNotIn(Ids(sorted[..k]))) == sorted[k..]
  {
    forall i | 0 <= i < |sorted|
      ensures IdNotIn(Ids(sorted[..k]))(sorted[i]) <==> i >= k
    {
      if i < k {
        assert Ids(sorted[..k])[i] == sorted[i].id;
      }
    }
    FilterSuffix(sorted, IdNotIn(Ids(sorted[..k])), k);
  }

  // ----- the selection

  /** Pick the entries to remove at the instant `now`. */
  method SelectEntriesToPrune(entries: seq<StoredEntry>, config: RotationConfig, now: int)
    returns (toRemove: seq<string>)
    requires UniqueIds(entries)
    ensures Selects(entries, config, now, toRemove)
  {
    var sorted := SortByTime(entries);
    SortFacts(entries);
    assert sorted[0..] == sorted;
    if |entries| <= config.minEntries {
      return [];
    }
    toRemove := AgedIds(sorted, config, now);
    SameMultisetUnique(entries, sorted);
    DropPrefixIds(sorted, |toRemove|);
    var remaining := Filter(sorted, IdNotIn(toRemove));
    toRemove := TrimToSize(sorted, toRemove, remaining, config, now);
  }

  /** Evict further, oldest first, until the size limit or `minEntries` is met. */
  method TrimToSize(sorted: seq<StoredEntry>, aged: seq<string>, remaining: seq<StoredEntry>,
                    config: RotationConfig, now: int)
    returns (toRemove: seq<string>)
    requires |aged| + config.minEntries <= |sorted| && aged == Ids(sorted[..|aged|])
    requires remaining == sorted[|aged|..]
    requires forall j :: 0 <= j < |aged| ==> !Settled(sorted[j..], config, now)
    requires |aged| + config.minEntries == |sorted| || forall e :: e in remaining ==> !Expired(e, config, now)
    ensures |toRemove| <= |sorted| && toRemove == Ids(sorted[..|toRemove|])
    ensures Settled(sorted[|toRemove|..], config, now)
    ensures forall j :: 0 <= j < |toRemove| ==> !Settled(sorted[j..], config, now)
  {
    hide Settled, Expired, TotalSize;
    toRemove := aged;
    var totalSize := TotalSize(remaining);
    if config.maxTotalBytes > 0 && totalSize > config.maxTotalBytes {
      var i := 0;
      while i < |remaining|
        invariant 0 <= i <= |remaining| && |toRemove| == |aged| + i && |toRemove| + config.minEntries <= |sorted|
        invariant toRemove == Ids(sorted[..|toRemove|])
        invariant totalSize == TotalSize(sorted[|toRemove|..])
        invariant forall j :: 0 <= j < |toRemove| ==> !Settled(sorted[j..], config, now)
      {
        if |toRemove| + config.minEntries >= |sorted| || totalSize <= config.maxTotalBytes {
          break;
        }
        var e := remaining[i];
        ghost var k := |toRemove|;
        Oversized(sorted[k..], config, now);
        IdsMore(sorted, k);
        SizeOfFirst(sorted, k);
        toRemove := toRemove + [e.id];
        totalSize := totalSize - EstimateEntrySize(e);
        i := i + 1;
      }
    }
    forall e | e in sorted[|toRemove|..]
      ensures e in remaining
    {
      assert sorted[|toRemove|..] == remaining[|toRemove| - |aged|..];
    }
    NowSettled(sorted[|toRemove|..], config, now);
  }

  lemma Oversized(rest: seq<StoredEntry>, config: RotationConfig, now: int)
    requires |rest| > config.minEntries && config.maxTotalBytes > 0 && TotalSize(rest) > config.maxTotalBytes
    ensures !Settled(rest, config, now)
  {
  }

  lemma NowSettled(rest: seq<StoredEntry>, config: RotationConfig, now: int)
    requires || |rest| <= config.minEntries
             || ((forall e :: e in rest ==> !Expired(e, config, now))
                 && (config.maxTotalBytes == 0 || TotalSize(rest) <= config.maxTotalBytes))
    ensures Settled(rest, config, now)
  {
  }

  lemma IdsMore(sorted: seq<StoredEntry>, k: nat)
    requires k < |sorted|
    ensures Ids(sorted[..k + 1]) == Ids(sorted[..k]) + [sorted[k].id]
  {
  }

  lemma SizeOfFirst(sorted: seq<StoredEntry>, k: nat)
    requires k < |sorted|
    ensures TotalSize(sorted[k..]) == EstimateEntrySize(sorted[k]) + TotalSize(sorted[k + 1..])
  {
  }

  /** The expired entries at the front, as far as `minEntries` permits. */
  method AgedIds(sorted: seq<StoredEntry>, config: RotationConfig, now: int) returns (toRemove: seq<string>)
    requires Ascending(sorted) && |sorted| > config.minEntries
    ensures |toRemove| + config.minEntries <= |sorted| && toRemove == Ids(sorted[..|toRemove|])
    ensures forall j :: 0 <= j < |toRemove| ==> !Settled(sorted[j..], config, now)
    ensures |toRemove| + config.minEntries == |sorted|
      || forall e :: e in sorted[|toRemove|..] ==> !Expired(e, config, now)
  {
    toRemove := [];
    if config.maxAgeMs > 0 {
      var cutoff := now - config.maxAgeMs;
      var i := 0;
      while i < |sorted|
        invariant 0 <= |toRemove| <= i <= |sorted| && |toRemove| + config.minEntries <= |sorted|
        invariant toRemove == Ids(sorted[..|toRemove|])
        invariant forall j :: 0 <= j < |toRemove| ==> Expired(sorted[j], config, now)
        invariant |toRemove| < i ==> !Expired(sorted[|toRemove|], config, now)
      {
        if |toRemove| + config.minEntries >= |sorted| {
          break;
        }
        if sorted[i].timestamp < cutoff {
          IdsMore(sorted, i);
          toRemove := toRemove + [sorted[i].id];
        }
        i := i + 1;
      }
    }
    forall j | 0 <= j < |toRemove|
      ensures !Settled(sorted[j..], config, now)
    {
      assert sorted[j..][0] in sorted[j..];
    }
  }

  // ----- consequences of a selection

  /** A selection never leaves fewer than `minEntries`, or than were given. */
  lemma KeepsMinimum(entries: seq<StoredEntry>, config: RotationConfig, now: int, toRemove: seq<string>)
    requires Selects(entries, config, now, toRemove)
    ensures |entries| - |toRemove| >= if |entries| <= config.minEntries then |entries| else config.minEntries
  {
    SortFacts(entries);
    var sorted := SortByTime(entries);
    if |toRemove| > 0 {
      assert !Settled(sorted[|toRemove| - 1..], config, now);
    }
  }

  /** The selection is determined by the entries, the limits and the instant. */
  lemma SelectionUnique(entries: seq<StoredEntry>, config: RotationConfig, now: int, a: seq<string>, b: seq<string>)
    requires Selects(entries, config, now, a) && Selects(entries, config, now, b)
    ensures a == b
  {
  }

  /** What remains, sorted, is the sorted list without the removed prefix. */
  lemma RemainingSorted(entries: seq<StoredEntry>, config: RotationConfig, now: int, toRemove: seq<string>)
    requires UniqueIds(entries) && Selects(entries, config, now, toRemove)
    ensures SortByTime(Filter(entries, IdNotIn(toRemove))) == SortByTime(entries)[|toRemove|..]
  {
    var sorted := SortByTime(entries);
    SortFacts(entries);
    SameMultisetUnique(entries, sorted);
    SortFilter(entries, IdNotIn(toRemove));
    DropPrefixIds(sorted, |toRemove|);
  }

  /** A second pass at the same instant removes nothing. */
  lemma SecondPassIdle(entries: seq<StoredEntry>, config: RotationConfig, now: int, toRemove: seq<string>,
                       again: seq<string>)
    requires UniqueIds(entries) && Selects(entries, config, now, toRemove)
    requires Selects(Filter(entries, IdNotIn(toRemove)), config, now, again)
    ensures again == []
  {
    RemainingSorted(entries, config, now, toRemove);
    var rest := SortByTime(entries)[|toRemove|..];
    assert rest[0..] == rest && Settled(rest[0..], config, now);
  }

  lemma {:induction false} InsertSize(e: StoredEntry, sorted: seq<StoredEntry>)
    ensures TotalSize(Insert(e, sorted)) == EstimateEntrySize(e) + TotalSize(sorted)
  {
    if !(sorted == [] || e.timestamp <= sorted[0].timestamp) {
      InsertSize(e, sorted[1..]);
    }
  }

  lemma {:induction false} SortSize(entries: seq<StoredEntry>)
    ensures TotalSize(SortByTime(entries)) == TotalSize(entries)
  {
    if entries != [] {
      SortSize(entries[1..]);
      InsertSize(entries[0], SortByTime(entries[1..]));
    }
  }

  lemma {:induction false} TotalSizeSplit(a: seq<StoredEntry>, b: seq<StoredEntry>)
    ensures TotalSize(a + b) == TotalSize(a) + TotalSize(b)
  {
    if a == [] {
      assert a + b == b;
    } else {
      TotalSizeSplit(a[1..], b);
      assert (a + b)[1..] == a[1..] + b;
    }
  }

  // ----- the prune pass

  datatype PruneResult = PruneResult(removed: nat, freedBytes: nat, remaining: int)

  /** Size of the first entry with the id, 0 when there is none. */
  function SizeById(entries: seq<StoredEntry>, id: string): nat {
    if entries == [] then 0
    else if entries[0].id == id then EstimateEntrySize(entries[0])
    else SizeById(entries[1..], id)
  }

  function FreedBytes(entries: seq<StoredEntry>, ids: seq<string>): nat {
    if ids == [] then 0 else SizeById(entries, ids[0]) + FreedBytes(entries, ids[1..])
  }

  lemma {:induction false} SizeByIdIs(entries: seq<StoredEntry>, i: nat)
    requires UniqueIds(entries) && i < |entries|
    ensures SizeById(entries, entries[i].id) == EstimateEntrySize(entries[i])
  {
    if i > 0 {
      SizeByIdIs(entries[1..], i - 1);
    }
  }

  lemma {:induction false} FreedIsSize(entries: seq<StoredEntry>, part: seq<StoredEntry>)
    requires UniqueIds(entries) && forall e :: e in part ==> e in entries
    ensures FreedBytes(entries, Ids(part)) == TotalSize(part)
  {
    if part != [] {
      assert part[0] in part;
      var i :| 0 <= i < |entries| && entries[i] == part[0];
      SizeByIdIs(entries, i);
      assert Ids(part)[1..] == Ids(part[1..]);
      FreedIsSize(entries, part[1..]);
    }
  }

  // ----- what the report says about a log that has moved on

  /** Collected entries that were not selected and have left the log meanwhile. */
  ghost function Gone(all: seq<StoredEntry>, before: seq<StoredEntry>, ids: seq<string>): set<StoredEntry> {
    set e | e in all && e.id !in ids && e !in before
  }

  /** Entries of the log that were not collected. */
  ghost function Fresh(all: seq<StoredEntry>, before: seq<StoredEntry>): set<StoredEntry> {
    set e | e in before && e !in all
  }

  lemma IdsUnique(list: seq<StoredEntry>, last: nat)
    requires InSequence(list, last) && OneEntryPerId(list, list)
    ensures UniqueIds(list)
  {
    hide Stamped, SeqOf;
    InSequenceDistinct(list, last);
    forall i, j | 0 <= i < j < |list|
      ensures list[i].id != list[j].id
    {
      assert list[i] in list && list[j] in list;
    }
  }

  lemma SelectedFromAll(all: seq<StoredEntry>, config: RotationConfig, now: int, ids: seq<string>)
    requires Selects(all, config, now, ids)
    ensures forall id :: id in ids ==> exists e :: e in all && e.id == id
  {
    hide Selects, SortByTime;
    SelectsParts(all, config, now, ids);
    SortedPrefixWithin(all, |ids|);
    forall id | id in ids
      ensures exists e :: e in all && e.id == id
    {
      var i :| 0 <= i < |ids| && ids[i] == id;
      var e := SortByTime(all)[..|ids|][i];
      assert e in SortByTime(all)[..|ids|] && e.id == id;
    }
  }

  /** After the deletion the log holds as many entries as reported, less those
      that are gone, plus those that are fresh. */
  lemma ReportAgrees(all: seq<StoredEntry>, before: seq<StoredEntry>, last: nat, ids: seq<string>)
    requires InSequence(all, last) && InSequence(before, last) && OneEntryPerId(all, before)
    requires forall id :: id in ids ==> exists e :: e in all && e.id == id
    ensures |Filter(before, IdNotIn(ids))| + |Gone(all, before, ids)|
         == |Filter(all, IdNotIn(ids))| + |Fresh(all, before)|
  {
    hide InSequence;
    var kept, log := Filter(all, IdNotIn(ids)), Filter(before, IdNotIn(ids));
    FilterInSequence(all, IdNotIn(ids), last);
    FilterInSequence(before, IdNotIn(ids), last);
    InSequenceDistinct(kept, last);
    InSequenceDistinct(log, last);
    DistinctMembers(kept);
    DistinctMembers(log);
    forall e | e in before && e !in all
      ensures e.id !in ids
    {
      assert forall x :: x in all ==> x.id != e.id;
    }
    assert Members(kept) - Members(log) == Gone(all, before, ids);
    assert Members(log) - Members(kept) == Fresh(all, before);
    assert |Members(kept)| == |Members(kept) * Members(log)| + |Members(kept) - Members(log)|;
    assert |Members(log)| == |Members(log) * Members(kept)| + |Members(log) - Members(kept)|;
    assert Members(log) * Members(kept) == Members(kept) * Members(log);
  }

  /** Page through the log while others write and prune, select, and delete.
      `all` is what the paging collected, `ids` the selection, `before` the log
      when the deletion reaches it. */
  method PruneBackend(logger: HybridAuditLogger, config: RotationConfig, now: int, budget: nat)
    returns (r: PruneResult, ghost all: seq<StoredEntry>, ghost ids: seq<string>, ghost before: seq<StoredEntry>,
             ghost session: TailSession, ghost last: nat)
    requires logger.Valid() && Clean(logger.bootId) && UniqueIds(logger.memory)
    modifies logger`memory, logger`lastSeq
    ensures logger.Valid()
    // what was collected, as the paging says
    ensures fresh(session) && session.Valid() && session.logger == logger && all == session.received
    ensures NoOverlap(session.Config(), session.run) && session.run[0].memory == old(logger.memory)
    ensures last + 1 < |session.run| && Started(session.Config(), session.run[last], session.run[last + 1])
    ensures forall e :: e in session.run[last].memory ==> e in all
    // the selection, and exactly that is deleted
    ensures UniqueIds(all) && Selects(all, config, now, ids)
    ensures logger.memory == Filter(before, IdNotIn(ids))
    // the report is about what was collected
    ensures r.removed == |ids| && r.remaining == |Filter(all, IdNotIn(ids))| == |all| - |ids|
    ensures TotalSize(all) == TotalSize(Filter(all, IdNotIn(ids))) + r.freedBytes
    // and agrees with the log as far as that has not moved on meanwhile
    ensures |logger.memory| + |Gone(all, before, ids)| == r.remaining + |Fresh(all, before)|
    ensures r.remaining == |logger.memory| <==> |Gone(all, before, ids)| == |Fresh(all, before)|
    ensures all == before ==>
      r.remaining == |logger.memory| && TotalSize(before) == TotalSize(logger.memory) + r.freedBytes
  {
    hide InSequence, Selects, TotalSize, UniqueIds, Run, NoOverlap, Started, NextBatch, HexText, FoldPart, Clean,
      Gone, Fresh, Filter;
    var feed := new TailSession(logger, "", BATCH_SIZE);
    var entries, left;
    entries, left, last := CollectAll(feed, budget);
    all, session, before := entries, feed, logger.memory;
    CollectedUnique(feed);
    IdsUnique(entries, logger.lastSeq);
    var toRemove := SelectEntriesToPrune(entries, config, now);
    ids := toRemove;
    SelectionAddsUp(entries, config, now, toRemove);
    SelectedFromAll(entries, config, now, toRemove);
    ReportAgrees(entries, before, logger.lastSeq, toRemove);
    if |toRemove| > 0 {
      ghost var was := feed.run;
      feed.PruneByIds(toRemove);
      QuietStep(feed.Config(), was, feed.Now());
    } else {
      FilterAll(logger.memory, IdNotIn(toRemove));
    }
    r := PruneResult(|toRemove|, FreedBytes(entries, toRemove), |entries| - |toRemove|);
  }

  lemma SelectsParts(all: seq<StoredEntry>, config: RotationConfig, now: int, toRemove: seq<string>)
    requires Selects(all, config, now, toRemove)
    ensures |toRemove| <= |SortByTime(all)| && toRemove == Ids(SortByTime(all)[..|toRemove|])
  {
  }

  lemma SortedPrefixWithin(all: seq<StoredEntry>, k: nat)
    requires k <= |SortByTime(all)|
    ensures forall e :: e in SortByTime(all)[..k] ==> e in all
  {
    SortFacts(all);
    forall e | e in SortByTime(all)[..k]
      ensures e in all
    {
      assert e in multiset(SortByTime(all));
    }
  }

  lemma SelectionAddsUp(all: seq<StoredEntry>, config: RotationConfig, now: int, toRemove: seq<string>)
    requires UniqueIds(all) && Selects(all, config, now, toRemove)
    ensures |Filter(all, IdNotIn(toRemove))| == |all| - |toRemove|
    ensures TotalSize(all) == TotalSize(Filter(all, IdNotIn(toRemove))) + FreedBytes(all, toRemove)
  {
    hide UniqueIds, Selects, SortByTime, TotalSize, Ascending, FreedBytes;
    var sorted := SortByTime(all);
    var k := |toRemove|;
    SelectsParts(all, config, now, toRemove);
    SortFacts(all);
    SortFacts(Filter(all, IdNotIn(toRemove)));
    RemainingSorted(all, config, now, toRemove);
    SortSize(all);
    SortSize(Filter(all, IdNotIn(toRemove)));
    assert sorted[..k] + sorted[k..] == sorted;
    TotalSizeSplit(sorted[..k], sorted[k..]);
    SortedPrefixWithin(all, k);
    FreedIsSize(all, sorted[..k]);
  }
}
