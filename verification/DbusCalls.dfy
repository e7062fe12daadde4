/**
 Method calls of one Lua generation over the connections of the two buses: queued, sent, answered,
 failed, disconnected, cancelled, faulted and reaped, with callbacks that may do more of the same.
 */
module DbusCalls {
  import opened Items

  const OPERATION_LIMIT: nat := 1024
  const UINT64_MAX: nat := 0xFFFF_FFFF_FFFF_FFFF

  datatype Call = Call(owner: nat, scope: bool, sent: bool, completed: bool, cancelled: bool, slot: bool)

  /** A generation is staged, then current, then retired. */
  datatype Phase = Staged | Current | Retired

  /** What Lua code may do while a callback runs. */
  datatype Act = Queue(owner: nat, scope: bool) | Watch | CancelCall(id: nat) | Fault(owner: nat)

  /** A callback: what it does, and whether it returns without an error. */
  datatype Script = Script(acts: seq<Act>, succeeds: bool)

  class CallTable {
    var calls: map<nat, Call>
    var operations: nat
    var others: nat
    var nextId: nat
    var faulted: set<nat>
    var phase: Phase

    // How often each call was put on the wire, and how often its callback ran, released calls included:
    // counters that only ever go up.
    ghost var Transmissions: map<nat, nat>
    ghost var Callbacks: map<nat, nat>

    /** An owner's callbacks run while it is not faulted and its generation is current. */
    predicate Allowed(owner: nat)
      reads this`faulted, this`phase
    {
      owner !in faulted && phase == Current
    }

    /** Sent, and neither answered nor cancelled. */
    static predicate Waiting(c: Call) {
      c.sent && !c.completed && !c.cancelled
    }

    /** What a call's counters say of it. */
    static predicate GoodCall(c: Call, sends: nat, tells: nat, phase: Phase) {
      && tells == (if c.completed then 1 else 0)
      && (c.slot ==> Waiting(c)) && (!c.sent ==> sends == 0 && !c.completed)
      && (phase == Staged ==> !c.sent)
    }

    /** Every call has counters that agree with it, and no counter ever passed one. */
    static ghost predicate Ledger(calls: map<nat, Call>, nextId: nat, sends: map<nat, nat>, tells: map<nat, nat>,
                                  phase: Phase) {
      && calls.Keys <= sends.Keys && calls.Keys <= tells.Keys
      && (forall id | id in calls :: GoodCall(calls[id], sends[id], tells[id], phase))
      && (forall id | id in sends :: 0 < id <= nextId && sends[id] <= 1)
      && (forall id | id in tells :: 0 < id <= nextId && tells[id] <= 1)
    }

    static lemma {:induction false} LedgerAdd(calls: map<nat, Call>, nextId: nat, sends: map<nat, nat>,
                                              tells: map<nat, nat>,
                                              phase: Phase, c: Call)
      requires Ledger(calls, nextId, sends, tells, phase) && GoodCall(c, 0, 0, phase)
      ensures var id := nextId + 1; Ledger(calls[id := c], id, sends[id := 0], tells[id := 0], phase)
      ensures nextId + 1 !in calls && nextId + 1 !in sends && nextId + 1 !in tells
    {
      hide GoodCall;
    }

    static lemma {:induction false} LedgerChange(calls: map<nat, Call>, nextId: nat, sends: map<nat, nat>,
                                                 tells: map<nat, nat>,
                                                 phase: Phase, id: nat, c: Call, s: nat, t: nat)
      requires Ledger(calls, nextId, sends, tells, phase) && id in calls && GoodCall(c, s, t, phase) && s <= 1 && t <= 1
      ensures Ledger(calls[id := c], nextId, sends[id := s], tells[id := t], phase)
    {
      hide GoodCall;
    }

    /** A call waiting without a slot belongs to an owner whose callbacks no longer run. */
    ghost predicate Settled(c: Call)
      reads this`faulted, this`phase
    {
      Waiting(c) && !c.slot ==> !Allowed(c.owner)
    }

    /** Valid but for one call in the middle of a step; no call has the identifier zero. */
    ghost predicate ValidBut(except: nat)
      reads this
    {
      && operations == |calls| + others <= OPERATION_LIMIT && nextId <= UINT64_MAX
      && Ledger(calls, nextId, Transmissions, Callbacks, phase)
      && forall id | id in calls && id != except :: Settled(calls[id])
    }

    /** No callback ran twice and nothing was sent twice; the operation count is exact and bounded. */
    ghost predicate Valid()
      reads this
    {
      ValidBut(0)
    }

    /** What a step never does: bring a call back, change what it is, or undo what happened to it. */
    static ghost predicate Later(was: map<nat, Call>, now: map<nat, Call>) {
      forall id | id in was :: id in now && Onward(was[id], now[id])
    }

    /** Counters that did not move, whatever calls were made meanwhile. */
    static ghost predicate Uncounted(was: map<nat, nat>, now: map<nat, nat>) {
      forall id | id in was :: id in now && now[id] == was[id]
    }

    static lemma {:induction false} UncountedThen(a: map<nat, nat>, b: map<nat, nat>, c: map<nat, nat>)
      requires Uncounted(a, b) && Uncounted(b, c)
      ensures Uncounted(a, c)
    {
    }

    /** A callback of one call: its own counter went up by one, and no other. */
    static ghost predicate CountedOnce(was: map<nat, nat>, now: map<nat, nat>, id: nat) {
      && id in was && id in now && now[id] == was[id] + 1
      && forall k | k in was && k != id :: k in now && now[k] == was[k]
    }

    /** One callback, and whatever else was done in it, counts once. */
    static lemma {:induction false} CountedThen(was: map<nat, nat>, middle: map<nat, nat>, now: map<nat, nat>, id: nat)
      requires id in was && middle == was[id := was[id] + 1] && Uncounted(middle, now)
      ensures CountedOnce(was, now, id)
    {
    }

    static lemma {:induction false} Unmoved(was: map<nat, nat>, now: map<nat, nat>, id: nat)
      requires id in was && now == was[id := was[id] + 0]
      ensures now == was && Uncounted(was, now)
    {
    }

    static ghost predicate Onward(a: Call, b: Call) {
      && a.owner == b.owner && a.scope == b.scope && (a.sent ==> b.sent)
      && (a.completed ==> b.completed) && (a.cancelled ==> b.cancelled)
      && (b.slot ==> a.slot || !a.sent)
    }

    constructor ()
      ensures Valid() && calls == map[] && operations == nextId == 0 && phase == Staged && faulted == {}
    {
      calls, operations, others, nextId, faulted, phase := map[], 0, 0, 0, {}, Staged;
      Transmissions, Callbacks := map[], map[];
    }

    // ---- Lua ----

    /** Queueing a call; refused at the operation limit. */
    method Create(owner: nat, scope: bool) returns (ok: bool)
      requires Valid()
      modifies this`calls, this`operations, this`nextId, this`Transmissions, this`Callbacks
      ensures Valid() && Later(old(calls), calls)
      ensures ok ==>
        && nextId == old(nextId) + 1
        && calls == old(calls)[nextId := Call(owner, scope, false, false, false, false)]
      ensures !ok ==> calls == old(calls) && nextId == old(nextId)
      ensures ok <==> old(operations) != OPERATION_LIMIT && old(nextId) != UINT64_MAX
      ensures Uncounted(old(Transmissions), Transmissions) && Uncounted(old(Callbacks), Callbacks)
    {
      hide Onward, Later, GoodCall, Settled;
      LaterSelf(calls);
      if operations == OPERATION_LIMIT || nextId == UINT64_MAX {
        return false;
      }
      Enter(Call(owner, scope, false, false, false, false));
      return true;
    }

    /** A new call, under an identifier that was never used. */
    method Enter(c: Call)
      requires Valid() && operations < OPERATION_LIMIT && nextId < UINT64_MAX && !c.sent && !c.completed && !c.slot
      modifies this`calls, this`operations, this`nextId, this`Transmissions, this`Callbacks
      ensures Valid() && nextId == old(nextId) + 1 && calls == old(calls)[nextId := c] && Later(old(calls), calls)
      ensures Uncounted(old(Transmissions), Transmissions) && Uncounted(old(Callbacks), Callbacks)
    {
      hide Onward, Later, GoodCall, Settled, Ledger;
      Fresh(c);
      LedgerAdd(calls, nextId, Transmissions, Callbacks, phase, c);
      LaterAdd(calls, nextId + 1, c);
      nextId, operations := nextId + 1, operations + 1;
      calls := calls[nextId := c];
      Transmissions, Callbacks := Transmissions[nextId := 0], Callbacks[nextId := 0];
    }

    /** A match or a connect watch counts as an operation for the life of the generation. */
    method AddOther() returns (ok: bool)
      requires Valid()
      modifies this`operations, this`others
      ensures Valid() && (ok <==> old(operations) != OPERATION_LIMIT)
    {
      if operations == OPERATION_LIMIT {
        return false;
      }
      operations, others := operations + 1, others + 1;
      return true;
    }

    /** Changing one call, and counting a transmission or a callback that goes with the change. */
    method Change(id: nat, c: Call, ghost sends: nat, ghost tells: nat)
      requires ValidBut(id) && id in calls && id != 0 && Onward(calls[id], c) && id in Transmissions && id in Callbacks
      requires Transmissions[id] + sends <= 1 && Callbacks[id] + tells <= 1
      requires GoodCall(c, Transmissions[id] + sends, Callbacks[id] + tells, phase)
      modifies this`calls, this`Transmissions, this`Callbacks
      ensures ValidBut(id) && calls == old(calls)[id := c] && Later(old(calls), calls)
      ensures Transmissions == old(Transmissions)[id := old(Transmissions[id]) + sends]
      ensures Callbacks == old(Callbacks)[id := old(Callbacks[id]) + tells]
    {
      hide Onward, Later, GoodCall, Settled, Ledger;
      LedgerChange(calls, nextId, Transmissions, Callbacks, phase, id, c, Transmissions[id] + sends,
                   Callbacks[id] + tells);
      LaterOne(calls, id, c);
      calls := calls[id := c];
      Transmissions, Callbacks := Transmissions[id := Transmissions[id] + sends],
        Callbacks[id := Callbacks[id] + tells];
    }

    lemma {:induction false} Settle(id: nat)
      requires ValidBut(id) && (id in calls ==> Settled(calls[id]))
      ensures Valid()
    {
    }

    lemma {:induction false} Loosen(id: nat)
      requires Valid()
      ensures ValidBut(id)
    {
    }

    static lemma {:induction false} LaterOne(was: map<nat, Call>, id: nat, c: Call)
      requires id in was && Onward(was[id], c)
      ensures Later(was, was[id := c]) && |was[id := c]| == |was|
    {
      assert (was[id := c]).Keys == was.Keys && |was[id := c]| == |(was[id := c]).Keys| == |was.Keys| == |was|;
    }

    static lemma {:induction false} UncountedSelf()
      ensures forall counters :: Uncounted(counters, counters)
    {
    }

    lemma {:induction false} Known(id: nat)
      requires ValidBut(id) && id in calls
      ensures id in Transmissions && id in Callbacks && id != 0
      ensures Transmissions[id] <= 1 && Callbacks[id] <= 1
      ensures GoodCall(calls[id], Transmissions[id], Callbacks[id], phase)
    {
    }

    /** Cancelling drops the slot, so no reply will find the call. */
    method Cancel(id: nat)
      requires Valid() && id in calls
      modifies this`calls, this`Transmissions, this`Callbacks
      ensures Valid() && calls == old(calls)[id := old(calls[id]).(cancelled := true, slot := false)]
      ensures Later(old(calls), calls) && Uncounted(old(Transmissions), Transmissions)
      ensures Uncounted(old(Callbacks), Callbacks)
    {
      Loosen(id);
      Known(id);
      hide ValidBut, Valid, Later, Uncounted;
      Change(id, calls[id].(cancelled := true, slot := false), 0, 0);
      Unmoved(old(Transmissions), Transmissions, id);
      Unmoved(old(Callbacks), Callbacks, id);
      Settle(id);
    }

    /** Cancelling every call of an owner, or of everyone. */
    method CancelAll(owned: nat -> bool)
      requires Valid()
      modifies this`calls, this`Transmissions, this`Callbacks
      ensures Valid() && Later(old(calls), calls) && calls.Keys == old(calls.Keys)
      ensures forall id | id in calls ::
                calls[id] == if owned(calls[id].owner) then old(calls[id]).(cancelled := true, slot := false)
                else old(calls[id])
      ensures Uncounted(old(Transmissions), Transmissions) && Uncounted(old(Callbacks), Callbacks)
    {
      hide GoodCall, Onward, Uncounted, ValidBut, Later;
      LaterSelf(calls);
      UncountedSelf();
      var rest := calls.Keys;
      while rest != {}
        invariant Valid() && Later(old(calls), calls) && calls.Keys == old(calls.Keys) && rest <= calls.Keys
        invariant Uncounted(old(Transmissions), Transmissions) && Uncounted(old(Callbacks), Callbacks)
        invariant forall id | id in calls ::
                    calls[id] == if id !in rest && owned(calls[id].owner)
                                 then old(calls[id]).(cancelled := true, slot := false)
                                 else old(calls[id])
        decreases |rest|
      {
        var id :| id in rest;
        rest := rest - {id};
        ghost var before, sends, tells := calls, Transmissions, Callbacks;
        if owned(calls[id].owner) {
          Cancel(id);
          LaterThen(old(calls), before, calls);
          UncountedThen(old(Transmissions), sends, Transmissions);
          UncountedThen(old(Callbacks), tells, Callbacks);
        }
      }
    }

    static lemma {:induction false} LaterThen(a: map<nat, Call>, b: map<nat, Call>, c: map<nat, Call>)
      requires Later(a, b) && Later(b, c)
      ensures Later(a, c)
    {
    }

    static lemma {:induction false} LaterAdd(was: map<nat, Call>, id: nat, c: Call)
      requires id !in was
      ensures Later(was, was[id := c]) && |was[id := c]| == |was| + 1
    {
      assert (was[id := c]).Keys == was.Keys + {id};
    }

    /** A new call has nothing counted against it, and is settled. */
    lemma {:induction false} Fresh(c: Call)
      requires !c.sent && !c.completed && !c.slot
      ensures GoodCall(c, 0, 0, phase) && Settled(c)
    {
    }

    static lemma {:induction false} LaterHas(was: map<nat, Call>, now: map<nat, Call>, id: nat)
      requires Later(was, now) && id in was
      ensures id in now && Onward(was[id], now[id])
    {
    }

    static lemma {:induction false} LaterSelf(a: map<nat, Call>)
      ensures Later(a, a)
    {
    }

    /** A faulted owner's callbacks never run again, and its calls are cancelled. */
    method FaultOwner(owner: nat)
      requires Valid()
      modifies this`calls, this`faulted, this`Transmissions, this`Callbacks
      ensures Valid() && Later(old(calls), calls) && calls.Keys == old(calls.Keys) && faulted == old(faulted) + {owner}
      ensures forall id | id in calls ::
                calls[id] == if owner !in old(faulted) && calls[id].owner == owner
                             then old(calls[id]).(cancelled := true, slot := false) else old(calls[id])
      ensures Uncounted(old(Transmissions), Transmissions) && Uncounted(old(Callbacks), Callbacks)
    {
      if owner in faulted {
        LaterSelf(calls);
        return;
      }
      MarkFaulted(owner);
      CancelAll(o => o == owner);
    }

    method MarkFaulted(owner: nat)
      requires Valid()
      modifies this`faulted
      ensures Valid() && faulted == old(faulted) + {owner}
    {
      faulted := faulted + {owner};
    }

    method Perform(act: Act)
      requires Valid()
      modifies this
      ensures Valid() && Later(old(calls), calls) && phase == old(phase) && old(faulted) <= faulted
      ensures Uncounted(old(Transmissions), Transmissions) && Uncounted(old(Callbacks), Callbacks)
    {
      LaterSelf(calls);
      match act
      case Queue(owner, scope) =>
        var ok := Create(owner, scope);
      case Watch =>
        var ok := AddOther();
      case CancelCall(id) =>
        if id in calls {
          Cancel(id);
        }
      case Fault(owner) => FaultOwner(owner);
    }

    method RunCallback(owner: nat, script: Script)
      requires Valid()
      modifies this
      ensures Valid() && Later(old(calls), calls) && phase == old(phase) && old(faulted) <= faulted
      ensures !script.succeeds ==> owner in faulted
      ensures Uncounted(old(Transmissions), Transmissions) && Uncounted(old(Callbacks), Callbacks)
    {
      hide GoodCall, Later, Valid, Uncounted;
      LaterSelf(calls);
      UncountedSelf();
      for i := 0 to |script.acts|
        invariant Valid() && Later(old(calls), calls) && phase == old(phase) && old(faulted) <= faulted
        invariant Uncounted(old(Transmissions), Transmissions) && Uncounted(old(Callbacks), Callbacks)
      {
        ghost var before, sends, tells := calls, Transmissions, Callbacks;
        Perform(script.acts[i]);
        LaterThen(old(calls), before, calls);
        UncountedThen(old(Transmissions), sends, Transmissions);
        UncountedThen(old(Callbacks), tells, Callbacks);
      }
      if !script.succeeds {
        ghost var before, sends, tells := calls, Transmissions, Callbacks;
        FaultOwner(owner);
        LaterThen(old(calls), before, calls);
        UncountedThen(old(Transmissions), sends, Transmissions);
        UncountedThen(old(Callbacks), tells, Callbacks);
      }
    }

    // ---- Ends of a call ----

    /** Completing a call runs its callback, once. */
    method Complete(id: nat, script: Script)
      requires ValidBut(id) && id in calls && calls[id].sent && !calls[id].completed
      modifies this
      ensures Valid() && Later(old(calls), calls) && phase == old(phase) && old(faulted) <= faulted
      ensures id in calls && calls[id].completed
      ensures Uncounted(old(Transmissions), Transmissions) && CountedOnce(old(Callbacks), Callbacks, id)
    {
      hide ValidBut, Valid, Later, Uncounted, CountedOnce, Allowed;
      MarkCompleted(id);
      ghost var before, tells := calls, Callbacks;
      RunCallback(calls[id].owner, script);
      LaterThen(old(calls), before, calls);
      LaterHas(before, calls, id);
      CountedThen(old(Callbacks), tells, Callbacks, id);
    }

    /** The moment before a call's callback runs: the call is over, and its callback counts. */
    method MarkCompleted(id: nat)
      requires ValidBut(id) && id in calls && calls[id].sent && !calls[id].completed
      modifies this`calls, this`Transmissions, this`Callbacks
      ensures Valid() && calls == old(calls)[id := old(calls[id]).(completed := true, slot := false)]
      ensures Later(old(calls), calls)
      ensures id in old(Callbacks) && Callbacks == old(Callbacks)[id := old(Callbacks[id]) + 1]
      ensures Transmissions == old(Transmissions)
    {
      Known(id);
      hide ValidBut, Valid, Later, Uncounted;
      Change(id, calls[id].(completed := true, slot := false), 0, 1);
      Unmoved(old(Transmissions), Transmissions, id);
      Settle(id);
    }

    /** A call that failed on this side: its owner is told, if its callbacks still run. */
    method InvokeError(id: nat, script: Script)
      requires ValidBut(id) && id in calls && calls[id].sent && !calls[id].slot
      modifies this
      ensures Valid() && Later(old(calls), calls) && phase == old(phase) && old(faulted) <= faulted && id in calls
      ensures if old(Allowed(calls[id].owner) && Waiting(calls[id]))
              then calls[id].completed && CountedOnce(old(Callbacks), Callbacks, id)
              else calls == old(calls) && Callbacks == old(Callbacks)
      ensures Uncounted(old(Transmissions), Transmissions)
    {
      hide GoodCall, ValidBut, Later, Uncounted, CountedOnce;
      LaterSelf(calls);
      UncountedSelf();
      if !Allowed(calls[id].owner) || calls[id].cancelled || calls[id].completed {
        Settle(id);
        return;
      }
      Complete(id, script);
    }

    /** Taking a call's slot away; whoever does so says next what becomes of the call. */
    method DropSlot(id: nat)
      requires Valid() && id in calls
      modifies this`calls, this`Transmissions, this`Callbacks
      ensures ValidBut(id) && calls == old(calls)[id := old(calls[id]).(slot := false)] && Later(old(calls), calls)
      ensures Transmissions == old(Transmissions) && Callbacks == old(Callbacks)
      ensures calls[id].sent || !Waiting(calls[id])
    {
      Loosen(id);
      Known(id);
      hide ValidBut, Valid, Later;
      Change(id, calls[id].(slot := false), 0, 0);
      Unmoved(old(Transmissions), Transmissions, id);
      Unmoved(old(Callbacks), Callbacks, id);
    }

    /** A reply, or a timeout, arrives through the slot of a call. */
    method Reply(id: nat, script: Script)
      requires Valid() && id in calls && calls[id].slot
      modifies this
      ensures Valid() && Later(old(calls), calls) && phase == old(phase) && id in calls
      // The call is over exactly if its owner's callbacks run; otherwise it waits with nothing to wait for.
      ensures old(Allowed(calls[id].owner)) <==> !Waiting(calls[id])
      ensures if old(Allowed(calls[id].owner)) then CountedOnce(old(Callbacks), Callbacks, id)
        else Callbacks == old(Callbacks)
      ensures Uncounted(old(Transmissions), Transmissions)
    {
      Loosen(id);
      Known(id);
      hide ValidBut, Valid, Later, Uncounted, CountedOnce, GoodCall;
      DropSlot(id);
      ghost var before := calls;
      InvokeError(id, script);
      LaterThen(old(calls), before, calls);
    }

    // ---- Transports ----

    /** Starting a queued call puts it on the wire once, or reports that this failed. */
    method Start(id: nat, sends: bool, script: Script)
      requires Valid() && id in calls && phase == Current
      requires Queued(calls[id])
      modifies this
      ensures Valid() && Later(old(calls), calls) && phase == Current && id in calls && calls[id].sent
      ensures old(faulted) <= faulted
      ensures id in old(Transmissions) && old(Transmissions[id]) == 0
      ensures sends ==> calls[id].slot && Transmissions == old(Transmissions)[id := 1] && Callbacks == old(Callbacks)
      ensures !sends ==> Uncounted(old(Transmissions), Transmissions)
      ensures !sends && old(calls[id].owner) in old(faulted) ==>
        calls == old(calls)[id := old(calls[id]).(sent := true)]
      // It then waits in a slot or is over, unless it could not be sent for a faulted owner.
      ensures (Waiting(calls[id]) ==> calls[id].slot) <==> sends || calls[id].owner !in old(faulted)
    {
      Loosen(id);
      Known(id);
      hide ValidBut, Valid, Later, Uncounted, CountedOnce;
      if sends {
        Change(id, calls[id].(sent := true, slot := true), 1, 0);
        Unmoved(old(Callbacks), Callbacks, id);
        Settle(id);
        return;
      }
      Change(id, calls[id].(sent := true), 0, 0);
      Unmoved(old(Transmissions), Transmissions, id);
      ghost var before := calls;
      InvokeError(id, script);
      LaterThen(old(calls), before, calls);
    }

    /** Not sent yet, and still wanted. */
    static predicate Queued(c: Call) {
      !c.sent && !c.cancelled && !c.completed
    }

    /** Starting every queued call of a bus; calls queued meanwhile wait for the next time. */
    method StartAll(scope: bool, sendable: set<nat>, scripts: map<nat, Script>)
      requires Valid() && phase == Current
      modifies this
      ensures Valid() && Later(old(calls), calls) && phase == Current
      ensures forall id | id in old(calls) && old(calls[id].scope) == scope :: id in calls && !Queued(calls[id])
    {
      hide ValidBut;
      LaterSelf(calls);
      var rest := calls.Keys;
      while rest != {}
        invariant Valid() && Later(old(calls), calls) && phase == Current
        invariant forall id | id in old(calls) && old(calls[id].scope) == scope && id !in rest ::
          id in calls && !Queued(calls[id])
        decreases |rest|
      {
        var id :| id in rest;
        rest := rest - {id};
        ghost var before := calls;
        if id in calls && Queued(calls[id]) && calls[id].scope == scope {
          Start(id, id in sendable, if id in scripts then scripts[id] else Script([], true));
          LaterThen(old(calls), before, calls);
        }
      }
    }

    /** Losing the connection drops a call's slot, and tells the owner of a call that was sent. */
    method Disconnect(id: nat, lost: bool, script: Script)
      requires Valid() && id in calls && (!lost ==> !Waiting(calls[id]))
      modifies this
      ensures Valid() && Later(old(calls), calls) && phase == old(phase) && id in calls && !calls[id].slot
      // It goes on waiting exactly if it waited for an owner whose callbacks no longer run.
      ensures Waiting(calls[id]) <==> old(Waiting(calls[id]) && !Allowed(calls[id].owner))
      ensures if old(Waiting(calls[id]) && Allowed(calls[id].owner)) then CountedOnce(old(Callbacks), Callbacks, id)
              else Callbacks == old(Callbacks)
      ensures Uncounted(old(Transmissions), Transmissions)
    {
      hide ValidBut, Valid, Later, Uncounted, CountedOnce, GoodCall;
      UncountedSelf();
      DropSlot(id);
      if !lost || !Waiting(calls[id]) {
        Settle(id);
        return;
      }
      ghost var before := calls;
      InvokeError(id, script);
      NoNewSlot(id);
      LaterThen(old(calls), before, calls);
    }

    lemma {:induction false} NoNewSlot(id: nat)
      requires Valid() && id in calls && (calls[id].completed || !calls[id].slot)
      ensures !calls[id].slot
    {
      Loosen(id);
      Known(id);
    }

    /** Closing a connection: every slot of its bus goes. An idle one has no call waiting. */
    method CloseTransport(scope: bool, lost: bool, scripts: map<nat, Script>)
      requires Valid() && (!lost ==> !Needed(scope))
      modifies this
      ensures Valid() && Later(old(calls), calls) && phase == old(phase)
      ensures lost ==> forall id | id in old(calls) && old(calls[id].scope) == scope && old(calls[id].sent) ::
                id in calls && !calls[id].slot
      ensures Uncounted(old(Transmissions), Transmissions)
    {
      hide ValidBut, Uncounted, CountedOnce;
      LaterSelf(calls);
      UncountedSelf();
      var rest := calls.Keys;
      while rest != {}
        invariant Valid() && Later(old(calls), calls) && phase == old(phase) && (!lost ==> !Needed(scope))
        invariant Uncounted(old(Transmissions), Transmissions)
        invariant lost ==>
          forall id | id in old(calls) && old(calls[id].scope) == scope && old(calls[id].sent) && id !in rest ::
                    id in calls && !calls[id].slot
        decreases |rest|
      {
        var id :| id in rest;
        rest := rest - {id};
        ghost var before, sends := calls, Transmissions;
        if id in calls && calls[id].scope == scope {
          if lost {
            Disconnect(id, true, if id in scripts then scripts[id] else Script([], true));
            UncountedThen(old(Transmissions), sends, Transmissions);
          } else {
            DropIdle(id, scope);
          }
          LaterThen(old(calls), before, calls);
        }
      }
    }

    /** Whether a connection has a call to send or to wait for. */
    ghost predicate Needed(scope: bool)
      reads this`calls
    {
      exists id :: id in calls && !calls[id].cancelled && !calls[id].completed && calls[id].scope == scope
    }

    /** On an idle connection no call holds a slot. */
    method DropIdle(id: nat, scope: bool)
      requires Valid() && id in calls && calls[id].scope == scope && !Needed(scope)
      ensures Later(calls, calls) && !calls[id].slot
    {
      Loosen(id);
      Known(id);
      LaterSelf(calls);
    }

    // ---- Releasing ----

    /** A call that is over and holds no slot is released, and gives its operation back. */
    method Release(id: nat)
      requires Valid() && id in calls && (calls[id].completed || calls[id].cancelled) && !calls[id].slot
      modifies this`calls, this`operations
      ensures Valid() && calls == old(calls) - {id}
    {
      assert (calls - {id}).Keys == calls.Keys - {id} && |calls - {id}| == |(calls - {id}).Keys|
        && |calls| == |calls.Keys|;
      calls := calls - {id};
      operations := operations - 1;
    }

    /** Releasing every call that is over; exactly the others remain. */
    method Reap()
      requires Valid()
      modifies this`calls, this`operations
      ensures Valid() && calls.Keys <= old(calls.Keys)
      ensures forall id | id in old(calls) ::
                id in calls <==> !((old(calls[id]).completed || old(calls[id]).cancelled) && !old(calls[id]).slot)
      ensures forall id | id in calls :: calls[id] == old(calls[id])
    {
      hide ValidBut;
      var rest := calls.Keys;
      while rest != {}
        invariant Valid() && rest <= calls.Keys <= old(calls.Keys)
        invariant forall id | id in calls :: calls[id] == old(calls[id])
        invariant forall id | id in old(calls) && id !in rest ::
                    id in calls <==> !((old(calls[id]).completed || old(calls[id]).cancelled) && !old(calls[id]).slot)
        decreases |rest|
      {
        var id :| id in rest;
        rest := rest - {id};
        if (calls[id].completed || calls[id].cancelled) && !calls[id].slot {
          Release(id);
        }
      }
    }

    /** Committing the generation: only then may calls be sent. */
    method Activate()
      requires Valid() && phase == Staged
      modifies this`phase
      ensures Valid() && phase == Current
    {
      assert forall id | id in calls ::
        GoodCall(calls[id], Transmissions[id], Callbacks[id], Staged) && !calls[id].sent;
      phase := Current;
    }

    /** Retiring the generation cancels every call. */
    method Retire()
      requires Valid() && phase == Current
      modifies this`phase, this`calls, this`Transmissions, this`Callbacks
      ensures Valid() && phase == Retired && Later(old(calls), calls)
      ensures forall id | id in calls :: calls[id].cancelled && !calls[id].slot
      ensures Uncounted(old(Transmissions), Transmissions) && Uncounted(old(Callbacks), Callbacks)
    {
      phase := Retired;
      CancelAll(o => true);
      forall id | id in calls
        ensures !calls[id].slot
      {
        Loosen(id);
        Known(id);
      }
    }
  }

  /** What happens to a generation's calls, in any order. */
  datatype Event =
    | Lua(owner: nat, script: Script)
    | Answer(id: nat, script: Script)
    | Writable(scope: bool, sendable: set<nat>, scripts: map<nat, Script>)
    | Lost(scope: bool, scripts: map<nat, Script>)
    | Sweep
    | Commit
    | Retirement

  method Turn(table: CallTable, event: Event)
    requires table.Valid()
    modifies table
    ensures table.Valid()
    // Only a writable connection transmits; only answers, failures to send and losses reach callbacks.
    ensures event.Writable? || CallTable.Uncounted(old(table.Transmissions), table.Transmissions)
    ensures event.Writable? || event.Answer? || event.Lost?
      || CallTable.Uncounted(old(table.Callbacks), table.Callbacks)
  {
    hide CallTable.ValidBut, CallTable.Later, CallTable.CountedOnce;
    match event
    case Lua(owner, script) => table.RunCallback(owner, script);
    case Answer(id, script) =>
      if id in table.calls && table.calls[id].slot {
        table.Reply(id, script);
      }
    case Writable(scope, sendable, scripts) =>
      if table.phase == Current {
        table.StartAll(scope, sendable, scripts);
      }
    case Lost(scope, scripts) => table.CloseTransport(scope, true, scripts);
    case Sweep => table.Reap();
    case Commit =>
      if table.phase == Staged {
        table.Activate();
      }
    case Retirement =>
      if table.phase == Current {
        table.Retire();
      }
  }

  /** Over any run no call is sent twice or answered twice, and a waiting call has a slot or a faulted owner. */
  method Run(table: CallTable, events: seq<Event>)
    requires table.Valid()
    modifies table
    ensures table.Valid() && table.operations == |table.calls| + table.others <= OPERATION_LIMIT
    ensures forall id | id in table.Transmissions :: table.Transmissions[id] <= 1
    ensures forall id | id in table.Callbacks :: table.Callbacks[id] <= 1
    ensures forall id | id in table.calls && CallTable.Waiting(table.calls[id])
      && table.Allowed(table.calls[id].owner) ::
              table.calls[id].slot
  {
    for i := 0 to |events|
      invariant table.Valid()
    {
      Turn(table, events[i]);
    }
    forall id | id in table.calls
      ensures table.Settled(table.calls[id])
    {
      table.Loosen(id);
      table.Known(id);
    }
  }

  /**
   The exception: a call queued for an owner that is faulted already, by a callback of another owner, and
   not sent, is told nobody, and waits without a slot until its generation retires.
   */
  method FaultedOwnerStrands() returns (table: CallTable)
    ensures table.Valid() && table.calls == map[1 := Call(7, true, true, false, false, false)]
    ensures 7 in table.faulted && table.phase == Current
  {
    hide CallTable.ValidBut, CallTable.Later;
    table := new CallTable();
    table.Activate();
    table.FaultOwner(7);
    assert table.calls == map[];
    var ok := table.Create(7, true);
    table.Start(1, false, Script([], true));
  }
}
