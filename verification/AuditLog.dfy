/** The in-memory audit log, its paged queries, and the tail that follows it. */
module AuditLog {
  import opened Collections
  import opened Cursors

  /** A stored entry; an empty cursor stands for an absent one. */
  datatype StoredEntry = StoredEntry(id: string, timestamp: int, facility: string, message: string,
                                     metadata: Option<string>, cursor: string)

  /** Query parameters; empty text and zero stand for absent ones. */
  datatype LogQuery = LogQuery(facility: string, startTs: Option<int>, endTs: Option<int>,
                               offset: nat, limit: nat, afterCursor: string)

  function Filter<T>(s: seq<T>, keep: T -> bool): (r: seq<T>)
    ensures forall x :: x in r ==> x in s && keep(x)
    ensures forall x :: x in s && keep(x) ==> x in r
  {
    if s == [] then []
    else
      var rest := Filter(s[1..], keep);
      if keep(s[0]) then [s[0]] + rest else rest
  }

  // ----- what a query selects

  predicate InRange(q: LogQuery, e: StoredEntry) {
    && (q.facility == "" || e.facility == q.facility)
    && (q.startTs.Some? ==> e.timestamp >= q.startTs.value)
    && (q.endTs.Some? ==> e.timestamp <= q.endTs.value)
  }

  // Keep-functions, named so that equal filters are recognised as equal.
  function OfFacility(facility: string): StoredEntry -> bool {
    (e: StoredEntry) => facility == "" || e.facility == facility
  }

  function NotBefore(ts: Option<int>): StoredEntry -> bool {
    (e: StoredEntry) => ts.Some? ==> e.timestamp >= ts.value
  }

  function NotAfter(ts: Option<int>): StoredEntry -> bool {
    (e: StoredEntry) => ts.Some? ==> e.timestamp <= ts.value
  }

  function Ranged(q: LogQuery): StoredEntry -> bool { (e: StoredEntry) => InRange(q, e) }

  function After(n: nat): StoredEntry -> bool { (e: StoredEntry) => Beyond(n, e) }

  function IdNotIn(ids: seq<string>): StoredEntry -> bool { (e: StoredEntry) => e.id !in ids }

  /** Entries without cursor pass; others must come after sequence number n. */
  predicate Beyond(n: nat, e: StoredEntry) {
    e.cursor == "" || (Decode(e.cursor).i.Natural? && Decode(e.cursor).i.value > n)
  }

  function Selected(memory: seq<StoredEntry>, q: LogQuery): seq<StoredEntry> {
    var all := Filter(memory, Ranged(q));
    var c := Decode(q.afterCursor);
    if q.afterCursor != "" && Valid(c) then Filter(all, After(c.i.value)) else all
  }

  /** What is selected: an entry of the log passes exactly if facility and time
      range admit it and, when a valid cursor is given, its number is later. */
  lemma SelectedMembers(memory: seq<StoredEntry>, last: nat, q: LogQuery, e: StoredEntry)
    requires InSequence(memory, last)
    ensures e in Selected(memory, q) <==>
      && e in memory && (q.facility == "" || e.facility == q.facility)
      && (q.startTs.Some? ==> e.timestamp >= q.startTs.value) && (q.endTs.Some? ==> e.timestamp <= q.endTs.value)
      && (q.afterCursor != "" && Valid(Decode(q.afterCursor)) ==> SeqOf(e) > Decode(q.afterCursor).i.value)
  {
    hide Decode, Stamped, SeqOf, Beyond, Cursors.Valid;
    if e in memory {
      var k :| 0 <= k < |memory| && memory[k] == e;
      if q.afterCursor != "" && Valid(Decode(q.afterCursor)) {
        ValidNumber(Decode(q.afterCursor));
        BeyondIff(e, Decode(q.afterCursor).i.value);
      }
    }
  }

  lemma ValidNumber(d: Decoded)
    requires Valid(d)
    ensures d.i.Natural?
  {
  }

  function Slice(all: seq<StoredEntry>, q: LogQuery): seq<StoredEntry> {
    var rest := if q.offset <= |all| then all[q.offset..] else [];
    if 0 < q.limit < |rest| then rest[..q.limit] else rest
  }

  /** Entry k of the page is entry offset + k of the selection, and only the limit
      cuts a page short. */
  ghost predicate PageOf(page: seq<StoredEntry>, selection: seq<StoredEntry>, offset: nat, limit: nat) {
    && (limit > 0 ==> |page| <= limit)
    && (forall k :: 0 <= k < |page| ==> offset + k < |selection| && page[k] == selection[offset + k])
    && (limit == 0 || |page| < limit ==> |page| == if offset <= |selection| then |selection| - offset else 0)
  }

  lemma SliceIsPage(selection: seq<StoredEntry>, q: LogQuery)
    ensures PageOf(Slice(selection, q), selection, q.offset, q.limit)
  {
  }

  function Page(memory: seq<StoredEntry>, q: LogQuery): seq<StoredEntry> {
    Slice(Selected(memory, q), q)
  }

  // ----- sequence numbers

  predicate Stamped(e: StoredEntry) {
    e.cursor != "" && Valid(Decode(e.cursor))
  }

  function SeqOf(e: StoredEntry): nat {
    var d := Decode(e.cursor);
    if d.i.Natural? then d.i.value else 0
  }

  /** Entries carry valid cursors with increasing sequence numbers up to `last`. */
  ghost predicate InSequence(memory: seq<StoredEntry>, last: nat) {
    && (forall k :: 0 <= k < |memory| ==> Stamped(memory[k]) && 0 < SeqOf(memory[k]) <= last)
    && (forall j, k :: 0 <= j < k < |memory| ==> SeqOf(memory[j]) < SeqOf(memory[k]))
  }

  ghost predicate UniqueIds(entries: seq<StoredEntry>) {
    forall i, j :: 0 <= i < j < |entries| ==> entries[i].id != entries[j].id
  }

  class HybridAuditLogger {
    var memory: seq<StoredEntry>
    const maxInMemory: nat
    var lastSeq: nat
    const bootId: string
    const machineHash: string

    ghost predicate Valid()
      reads this
    {
      && |memory| <= maxInMemory
      && machineHash == HexText(FoldPart(bootId, 0, 0))
      && (Clean(bootId) ==> InSequence(memory, lastSeq))
    }

    constructor (maxInMemory: nat, bootId: string)
      ensures Valid() && memory == [] && lastSeq == 0
      ensures this.maxInMemory == maxInMemory && this.bootId == bootId
    {
      this.memory, this.maxInMemory, this.lastSeq, this.bootId := [], maxInMemory, 0, bootId;
      this.machineHash := HexText(FoldPart(bootId, 0, 0));
    }

    /** Append an entry under the next sequence number; the oldest makes room. */
    method Store(id: string, facility: string, message: string, metadata: Option<string>, now: nat, monoNow: nat)
      returns (stored: StoredEntry)
      requires Valid()
      modifies this`memory, this`lastSeq
      ensures Valid() && lastSeq == old(lastSeq) + 1
      ensures stored.id == id && stored.timestamp == now && stored.facility == facility
      ensures stored.message == message && stored.metadata == metadata
      ensures stored.cursor == Encode(Mint(machineHash, lastSeq, bootId, monoNow, now))
      ensures Clean(bootId) ==> Stamped(stored) && SeqOf(stored) == lastSeq
      ensures Clean(bootId) ==>
        var d := Decode(stored.cursor);
        d.s == machineHash && d.i == Natural(lastSeq) && d.b == bootId && d.m == Natural(monoNow) && d.t == Natural(now)
      ensures memory == Kept(old(memory), stored, maxInMemory)
    {
      hide HexText, FoldPart, Encode, Decode, Stamped, Clean;
      lastSeq := lastSeq + 1;
      var cursor := Encode(Mint(machineHash, lastSeq, bootId, monoNow, now));
      stored := StoredEntry(id, now, facility, message, metadata, cursor);
      StampedMint(stored, bootId, machineHash, lastSeq, monoNow, now);
      if Clean(bootId) {
        KeptInSequence(memory, stored, maxInMemory, lastSeq);
      }
      memory := memory + [stored];
      if |memory| > maxInMemory {
        memory := memory[1..];
      }
    }

    /** The selected page and the cursor of its last entry. */
    method Query(q: LogQuery) returns (entries: seq<StoredEntry>, nextCursor: string, total: nat)
      requires Valid()
      ensures entries == Page(memory, q) && total == |Selected(memory, q)|
      ensures nextCursor == if entries == [] then "" else entries[|entries| - 1].cursor
      ensures PageOf(entries, Selected(memory, q), q.offset, q.limit)
    {
      hide InRange, Decode, InSequence, PageOf;
      var all := memory;
      if q.facility != "" {
        all := Filter(all, OfFacility(q.facility));
      }
      if q.startTs.Some? {
        all := Filter(all, NotBefore(q.startTs));
      }
      if q.endTs.Some? {
        all := Filter(all, NotAfter(q.endTs));
      }
      FiltersCombine(memory, q);
      assert all == Filter(memory, Ranged(q));
      if q.afterCursor != "" {
        var cursor := Decode(q.afterCursor);
        if Cursors.Valid(cursor) {
          all := Filter(all, After(cursor.i.value));
        }
      }
      total := |all|;
      entries := Slice(all, q);
      SliceIsPage(all, q);
      nextCursor := if entries == [] then "" else entries[|entries| - 1].cursor;
    }

    /** Drop entries older than the given time. */
    method Prune(beforeTs: int)
      requires Valid()
      modifies this`memory
      ensures Valid() && memory == Filter(old(memory), NotBefore(Some(beforeTs)))
    {
      FilterInSequence(memory, NotBefore(Some(beforeTs)), lastSeq);
      memory := Filter(memory, NotBefore(Some(beforeTs)));
    }

    method PruneByIds(ids: seq<string>)
      requires Valid()
      modifies this`memory
      ensures Valid() && memory == Filter(old(memory), IdNotIn(ids))
    {
      FilterInSequence(memory, IdNotIn(ids), lastSeq);
      memory := Filter(memory, IdNotIn(ids));
    }
  }

  function Kept(memory: seq<StoredEntry>, e: StoredEntry, max: nat): seq<StoredEntry> {
    if |memory| + 1 > max then (memory + [e])[1..] else memory + [e]
  }

  /** The last n values. */
  function Newest<T>(values: seq<T>, n: nat): seq<T> {
    if |values| <= n then values else values[|values| - n..]
  }

  /** Writing keeps the memory the newest part of everything written. */
  lemma KeptIsNewest(written: seq<StoredEntry>, e: StoredEntry, max: nat)
    ensures Kept(Newest(written, max), e, max) == Newest(written + [e], max)
  {
  }

  lemma StampedMint(e: StoredEntry, bootId: string, machineHash: string, n: nat, mono: nat, now: nat)
    requires machineHash == HexText(FoldPart(bootId, 0, 0))
    requires e.cursor == Encode(Mint(machineHash, n, bootId, mono, now))
    ensures Clean(bootId) ==> Stamped(e) && SeqOf(e) == n
    ensures Clean(bootId) ==>
      Decode(e.cursor) == Parsed(Cursor(machineHash, n, bootId, mono, now, XorHash(machineHash, n, bootId, mono, now)))
  {
    hide FoldPart, FoldParts, Decode;
    MintedCursor(machineHash, n, bootId, mono, now);
  }

  lemma KeptInSequence(memory: seq<StoredEntry>, e: StoredEntry, max: nat, n: nat)
    requires n > 0 && InSequence(memory, n - 1) && Stamped(e) && SeqOf(e) == n
    ensures InSequence(Kept(memory, e, max), n)
  {
    hide Stamped, SeqOf;
    assert InSequence(memory + [e], n);
  }

  lemma {:induction false} FilterLength<T>(s: seq<T>, keep: T -> bool)
    ensures |Filter(s, keep)| <= |s|
  {
    if s != [] { FilterLength(s[1..], keep); }
  }

  lemma {:induction false} FilterInSequence(memory: seq<StoredEntry>, keep: StoredEntry -> bool, last: nat)
    ensures InSequence(memory, last) ==> InSequence(Filter(memory, keep), last)
    ensures |Filter(memory, keep)| <= |memory|
  {
    hide Stamped, SeqOf, InSequence;
    if memory == [] {
    } else {
      var rest := memory[1..];
      FilterInSequence(rest, keep, last);
      if InSequence(memory, last) {
        assert memory == [memory[0]] + rest;
        InSequenceTail(memory[0], rest, last);
        if keep(memory[0]) {
          InSequenceHead(memory[0], rest, Filter(rest, keep), last);
        }
      }
    }
  }

  lemma InSequenceTail(first: StoredEntry, rest: seq<StoredEntry>, last: nat)
    requires InSequence([first] + rest, last)
    ensures InSequence(rest, last)
  {
    hide Stamped, SeqOf;
    assert ([first] + rest)[1..] == rest;
  }

  /** The first entry may be put in front of any ordered part of the rest. */
  lemma InSequenceHead(first: StoredEntry, rest: seq<StoredEntry>, part: seq<StoredEntry>, last: nat)
    requires InSequence([first] + rest, last) && InSequence(part, last)
    requires forall x :: x in part ==> x in rest
    ensures InSequence([first] + part, last)
  {
    hide Stamped, SeqOf;
    assert ([first] + rest)[0] == first;
    forall x | x in part
      ensures SeqOf(first) < SeqOf(x)
    {
      var k :| 0 <= k < |rest| && rest[k] == x;
      assert ([first] + rest)[k + 1] == x;
    }
  }

  lemma {:induction false} FilterTwice<T>(s: seq<T>, a: T -> bool, b: T -> bool, both: T -> bool)
    requires forall x :: x in s ==> both(x) == (a(x) && b(x))
    ensures Filter(Filter(s, a), b) == Filter(s, both)
  {
    if s != [] {
      FilterTwice(s[1..], a, b, both);
    }
  }

  lemma {:induction false} FilterAll<T>(s: seq<T>, a: T -> bool)
    requires forall x :: x in s ==> a(x)
    ensures Filter(s, a) == s
  {
    if s != [] { FilterAll(s[1..], a); }
  }

  /** The three range filters, each applied when asked for, are one filter. */
  lemma FiltersCombine(memory: seq<StoredEntry>, q: LogQuery)
    ensures
      var f := if q.facility != "" then Filter(memory, OfFacility(q.facility)) else memory;
      var g := if q.startTs.Some? then Filter(f, NotBefore(q.startTs)) else f;
      var h := if q.endTs.Some? then Filter(g, NotAfter(q.endTs)) else g;
      h == Filter(memory, Ranged(q))
  {
    var f := Filter(memory, OfFacility(q.facility));
    var g := Filter(f, NotBefore(q.startTs));
    if q.facility == "" {
      FilterAll(memory, OfFacility(q.facility));
    }
    if q.startTs.None? {
      FilterAll(f, NotBefore(q.startTs));
    }
    if q.endTs.None? {
      FilterAll(g, NotAfter(q.endTs));
    }
    var both := (e: StoredEntry) => OfFacility(q.facility)(e) && NotBefore(q.startTs)(e);
    FilterTwice(memory, OfFacility(q.facility), NotBefore(q.startTs), both);
    FilterTwice(memory, both, NotAfter(q.endTs), Ranged(q));
  }

  // ----- pages in sequence order

  lemma {:induction false} FilterSuffix<T>(s: seq<T>, keep: T -> bool, k: nat)
    requires k <= |s|
    requires forall i :: 0 <= i < k ==> !keep(s[i])
    requires forall i :: k <= i < |s| ==> keep(s[i])
    ensures Filter(s, keep) == s[k..]
  {
    if s != [] {
      FilterSuffix(s[1..], keep, if k == 0 then 0 else k - 1);
    }
  }

  lemma BeyondIff(e: StoredEntry, n: nat)
    requires Stamped(e)
    ensures Beyond(n, e) <==> SeqOf(e) > n
  {
  }

  /** Asking for what comes after entry k of an ordered list gives its tail. */
  lemma FilterAfter(all: seq<StoredEntry>, last: nat, n: nat, k: nat)
    requires InSequence(all, last) && k <= |all|
    requires forall i :: 0 <= i < k ==> SeqOf(all[i]) <= n
    requires forall i :: k <= i < |all| ==> SeqOf(all[i]) > n
    ensures Filter(all, After(n)) == all[k..]
  {
    hide Stamped, SeqOf, Beyond;
    forall i | 0 <= i < |all|
      ensures After(n)(all[i]) <==> SeqOf(all[i]) > n
    {
      BeyondIff(all[i], n);
    }
    FilterSuffix(all, After(n), k);
  }
}
