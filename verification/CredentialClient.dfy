/** The index methods of the credential service as they run: retry loops over one
    shared store, with any steps of other clients between the store calls.  Each
    execution is a run of the interleaved machine. */
module CredentialClients {
  import opened Collections
  import opened CredentialIndex

  function VersionOf<Id>(entry: Option<Entry<Id>>): Option<Version> {
    match entry
    case None => None
    case Some(e) => Some(e.version)
  }

  class SharedIndex<Id(==, 0, !new)> {
    var state: State<Id>
    /** Every state so far. */
    ghost var run: seq<State<Id>>

    ghost predicate Valid()
      reads this
    {
      Run(run) && run[|run| - 1] == state
    }

    /** What the whole run says about a call of this client. */
    ghost predicate Outcome(c: Client)
      requires c in state.calls
      reads this
    {
      var call := state.calls[c];
      && IdsOf(state.entry) == Replay(IdsOf(state.initial), state.log)
      && (call.phase.Committed? ==>
            exists j :: call.startedAt <= j < |state.log| && state.log[j].client == c && state.log[j].op == call.op)
      && (!call.phase.Committed? ==> forall j :: 0 <= j < |state.log| ==> state.log[j].client != c)
      && (call.phase.GaveUp? ==> call.startedAt + 3 <= |state.log|)
    }

    lemma OutcomeHolds(c: Client)
      requires Valid() && c in state.calls
      ensures Outcome(c)
    {
      var last := |run| - 1;
      RunInv(run, last);
      assert CallOk(state, c);
      IndexIsReplay(run, 0, last);
      LogGrows(run, 0, last);
    }

    constructor (initial: Option<Entry<Id>>)
      ensures Valid() && state == State(initial, map[], initial, [])
    {
      state := State(initial, map[], initial, []);
      run := [State(initial, map[], initial, [])];
    }

    ghost method Record(before: State<Id>)
      requires Run(run) && run[|run| - 1] == before && Next(before, state)
      modifies this`run
      ensures Valid() && run == old(run) + [state]
    {
      run := run + [state];
    }

    method Begin(c: Client, op: Operation<Id>)
      requires Valid() && c !in state.calls
      modifies this
      ensures Valid() && old(run) <= run
      ensures state == old(state).(calls := old(state).calls[c := Call(op, Reading(0), |old(state).log|)])
    {
      ghost var before := state;
      state := state.(calls := state.calls[c := Call(op, Reading(0), |state.log|)]);
      assert CredentialIndex.Begin(before, state, c, op);
      Record(before);
    }

    /** Read the index: the stored list with its version, or nothing. */
    method Get(c: Client) returns (idx: Option<Entry<Id>>)
      requires Valid() && c in state.calls && state.calls[c].phase.Reading?
      modifies this
      ensures Valid() && old(run) <= run
      ensures state == AfterRead(old(state), c) && idx == old(state).entry
    {
      ghost var before := state;
      idx := state.entry;
      state := AfterRead(state, c);
      assert Read(before, state, c);
      Record(before);
    }

    /** Write `ids` if the stored version is still the expected one. */
    method CompareAndSet(c: Client, ids: seq<Id>, expected: Option<Version>) returns (ok: bool)
      requires Valid() && c in state.calls && state.calls[c].phase.Writing?
      requires expected == VersionOf(state.calls[c].phase.snapshot)
      requires ids == Updated(IdsOf(state.calls[c].phase.snapshot), state.calls[c].op)
      modifies this
      ensures Valid() && old(run) <= run
      ensures exists v :: state == AfterWrite(old(state), c, v)
      ensures ok <==> c in state.calls && state.calls[c].phase.Committed?
    {
      ghost var before := state;
      ok := VersionOf(state.entry) == expected;
      var fresh' := NewVersion();
      if ok {
        var call := state.calls[c];
        state := state.(entry := Some(Entry(ids, fresh')),
                        calls := state.calls[c := call.(phase := Committed)],
                        log := state.log + [Commit(c, call.op, fresh')]);
      } else {
        state := AfterWrite(state, c, fresh');
      }
      assert state == AfterWrite(before, c, fresh');
      assert Write(before, state, c, fresh');
      Record(before);
    }

    /** A version above all issued ones. */
    method NewVersion() returns (v: Version)
      ensures !Issued(state, v)
    {
      v := match state.initial case None => 0 case Some(e) => e.version + 1;
      for i := 0 to |state.log|
        invariant state.initial.Some? ==> v > state.initial.value.version
        invariant forall j :: 0 <= j < i ==> v > state.log[j].version
      {
        if v <= state.log[i].version {
          v := state.log[i].version + 1;
        }
      }
    }

    /** Any number of steps of clients other than `c`. */
    method Others(c: Client)
      requires Valid() && c in state.calls
      modifies this
      ensures Valid() && old(run) <= run
      ensures c in state.calls && state.calls[c] == old(state).calls[c]
    {
      var steps: nat := *;
      while steps > 0
        invariant Valid() && old(run) <= run
        invariant c in state.calls && state.calls[c] == old(state).calls[c]
      {
        ghost var before := state;
        var d: Client, op: Operation<Id>, fresh': Version := *, *, *;
        if d !in state.calls {
          Begin(d, op);
        } else if d != c && state.calls[d].phase.Reading? {
          var idx := Get(d);
        } else if d != c && state.calls[d].phase.Writing? && !Issued(state, fresh') {
          state := AfterWrite(state, d, fresh');
          assert Write(before, state, d, fresh');
          Record(before);
        }
        steps := steps - 1;
      }
    }

    method AddToIndex(c: Client, id: Id)
      requires Valid() && c !in state.calls
      modifies this
      ensures Valid() && old(run) <= run
      ensures c in state.calls && state.calls[c].op == Add(id) && Outcome(c)
      ensures state.calls[c].startedAt == |old(state).log|
      ensures state.calls[c].phase.Committed? || state.calls[c].phase.GaveUp?
    {
      hide Run, Next, Outcome;
      Begin(c, Add(id));
      for attempt := 0 to ATTEMPTS
        invariant Valid() && old(run) <= run && c in state.calls
        invariant state.calls[c]
          == Call(Add(id), if attempt < ATTEMPTS then Reading(attempt) else GaveUp, |old(state).log|)
      {
        Others(c);
        var idx := Get(c);
        Others(c);
        var ok := CompareAndSet(c, IdsOf(idx) + [id], VersionOf(idx));
        if ok {
          OutcomeHolds(c);
          return;
        }
      }
      OutcomeHolds(c);
    }

    method RemoveFromIndex(c: Client, id: Id)
      requires Valid() && c !in state.calls
      modifies this
      ensures Valid() && old(run) <= run
      ensures c in state.calls && state.calls[c].op == Remove(id) && Outcome(c)
      ensures state.calls[c].startedAt == |old(state).log|
      ensures state.calls[c].phase.Committed? || state.calls[c].phase.GaveUp? || state.calls[c].phase.NothingToRemove?
    {
      hide Run, Next, Outcome;
      Begin(c, Remove(id));
      for attempt := 0 to ATTEMPTS
        invariant Valid() && old(run) <= run && c in state.calls
        invariant state.calls[c]
          == Call(Remove(id), if attempt < ATTEMPTS then Reading(attempt) else GaveUp, |old(state).log|)
      {
        Others(c);
        var idx := Get(c);
        if idx.None? {
          OutcomeHolds(c);
          return;
        }
        Others(c);
        var ok := CompareAndSet(c, Without(idx.value.ids, id), VersionOf(idx));
        if ok {
          OutcomeHolds(c);
          return;
        }
      }
      OutcomeHolds(c);
    }
  }
}
