/**
 Logical timers from creation to release: two heaps, Lua handles, callbacks on the stack, block faults
 and generations. A timer is an entry of the map of live allocations; reading or releasing one that is
 not there does not verify, so no run uses a released timer or releases one twice.
 */
module TimerLifecycle {
  import opened Items

  datatype Logical = Logical(block: nat, generation: nat, realtime: bool, repeating: bool, active: bool,
                             running: bool, cancelled: bool, handle: Option<nat>)

  /** What never changes about a timer. */
  datatype Kind = Kind(block: nat, generation: nat, realtime: bool, repeating: bool)

  function KindOf(t: Logical): Kind {
    Kind(t.block, t.generation, t.realtime, t.repeating)
  }

  /** A callback of a timer of some kind. */
  datatype Call = Call(timer: nat, kind: Kind)

  /** Only a repeating timer of the monotonic heap may be called again. */
  predicate CallsAgain(kind: Kind) {
    kind.repeating && !kind.realtime
  }

  /** Whatever is left of a timer is of the timer's kind; a new one has a new number. */
  ghost predicate Follows(was: map<nat, Logical>, nextId: nat, now: map<nat, Logical>) {
    forall id | id in now :: (id in was && KindOf(now[id]) == KindOf(was[id])) || id >= nextId
  }

  /** A timer that is one-shot or realtime was called at most once, and is gone since. */
  ghost predicate CalledOnce(calls: seq<Call>, timers: map<nat, Logical>, nextId: nat) {
    && (forall i | 0 <= i < |calls| ::
          calls[i].timer < nextId
          && (calls[i].timer in timers ==>
                KindOf(timers[calls[i].timer]) == calls[i].kind && CallsAgain(calls[i].kind)))
    && forall i, j | 0 <= i < j < |calls| && calls[i].timer == calls[j].timer ::
         calls[i].kind == calls[j].kind && CallsAgain(calls[i].kind)
  }

  lemma {:induction false} FollowsAt(was: map<nat, Logical>, nextId: nat, now: map<nat, Logical>, id: nat)
    requires forall k | k in now && k != id :: k in was && now[k] == was[k]
    requires id in now ==> (id in was && KindOf(now[id]) == KindOf(was[id])) || id >= nextId
    ensures Follows(was, nextId, now)
  {
  }

  lemma {:induction false} FollowsThen(a: map<nat, Logical>, nextA: nat, b: map<nat, Logical>, nextB: nat,
                                       c: map<nat, Logical>)
    requires Follows(a, nextA, b) && nextA <= nextB && Follows(b, nextB, c)
    ensures Follows(a, nextA, c)
  {
    hide KindOf;
  }

  lemma {:induction false} CallsFollow(calls: seq<Call>, was: map<nat, Logical>, nextId: nat, now: map<nat, Logical>,
                                       nextNow: nat)
    requires CalledOnce(calls, was, nextId) && Follows(was, nextId, now) && nextId <= nextNow
    ensures CalledOnce(calls, now, nextNow)
  {
    hide KindOf, CallsAgain;
  }

  /** One call more, of a timer that was live and goes on only if it may be called again. */
  lemma {:induction false} CallsMore(calls: seq<Call>, was: map<nat, Logical>, nextId: nat, id: nat,
                                     now: map<nat, Logical>, nextNow: nat)
    requires CalledOnce(calls, was, nextId) && Follows(was, nextId, now) && nextId <= nextNow
    requires id in was && id < nextId && (id in now ==> CallsAgain(KindOf(now[id])))
    ensures CalledOnce(calls + [Call(id, KindOf(was[id]))], now, nextNow)
  {
    hide KindOf, CallsAgain;
    var more := calls + [Call(id, KindOf(was[id]))];
    assert forall i | 0 <= i < |calls| :: more[i] == calls[i];
  }

  /** The timers whose callbacks are on the stack. */
  ghost function RunningOf(timers: map<nat, Logical>): map<nat, Kind> {
    map id | id in timers && timers[id].running :: KindOf(timers[id])
  }

  /** Timers that are not running come and go; running ones keep what never changes. */
  lemma {:induction false} SameRunning(was: map<nat, Logical>, now: map<nat, Logical>, id: nat)
    requires forall k | k != id :: (k in was <==> k in now) && (k in was ==> was[k] == now[k])
    requires id in was && was[id].running <==> id in now && now[id].running
    requires id in was && id in now ==> KindOf(was[id]) == KindOf(now[id])
    ensures RunningOf(was) == RunningOf(now)
  {
  }

  /** A Lua handle of some generation, and the timer it stands for until the timer is released. */
  datatype Handle = Handle(timer: Option<nat>, generation: nat)

  /** What Lua code may do while a callback runs. */
  datatype Act =
    | Create(block: nat, onRealtime: bool, repeats: bool, schedules: bool)
    | CancelBy(handle: nat)
    | Collect(handle: nat)
    | Fault(block: nat)

  // ---- The invariant, on values ----

  /** A timer is in the heap of its kind exactly while it is active. */
  ghost predicate InHeaps(timers: map<nat, Logical>, monotonic: set<nat>, realtime: set<nat>) {
    && monotonic <= timers.Keys && realtime <= timers.Keys
    && forall id | id in timers ::
         (id in monotonic <==> timers[id].active && !timers[id].realtime)
         && (id in realtime <==> timers[id].active && timers[id].realtime)
  }

  /** A timer's handle points back to it, and a handle's timer is live. */
  ghost predicate Handled(timers: map<nat, Logical>, handles: map<nat, Handle>, nextHandle: nat) {
    && (forall id | id in timers && timers[id].handle.Some? ::
          timers[id].handle.value in handles
          && handles[timers[id].handle.value] == Handle(Some(id), timers[id].generation))
    && forall h | h in handles ::
         h < nextHandle
         && (handles[h].timer.Some? ==>
               handles[h].timer.value in timers && timers[handles[h].timer.value].handle == Some(h))
  }

  /** Every timer ever made is either live or released. */
  ghost predicate Accounted(live: set<nat>, nextId: nat, freed: set<nat>) {
    && (forall id | id in live :: id < nextId && id !in freed) && (forall id | id in freed :: id < nextId)
    && forall id | 0 <= id < nextId :: id in live || id in freed
  }

  predicate SaneTimer(t: Logical, generationOf: nat -> nat) {
    t.generation == generationOf(t.block) && (t.cancelled ==> !t.active)
  }

  ghost predicate Sane(timers: map<nat, Logical>, generationOf: nat -> nat) {
    forall id | id in timers :: SaneTimer(timers[id], generationOf)
  }

  lemma {:induction false} HeapsSet(timers: map<nat, Logical>, monotonic: set<nat>, realtime: set<nat>, id: nat,
                                    t: Logical)
    requires InHeaps(timers, monotonic, realtime)
    ensures InHeaps(timers[id := t], if t.active && !t.realtime then monotonic + {id} else monotonic - {id},
                                     if t.active && t.realtime then realtime + {id} else realtime - {id})
  {
  }

  lemma {:induction false} HeapsDrop(timers: map<nat, Logical>, monotonic: set<nat>, realtime: set<nat>, id: nat)
    requires InHeaps(timers, monotonic, realtime) && (id in timers ==> !timers[id].active)
    ensures InHeaps(timers - {id}, monotonic, realtime)
  {
  }

  lemma {:induction false} HandledSet(timers: map<nat, Logical>, handles: map<nat, Handle>, nextHandle: nat, id: nat,
                                      t: Logical)
    requires Handled(timers, handles, nextHandle) && if id in timers then timers[id].handle == t.handle
      else t.handle == None
    requires id in timers ==> timers[id].generation == t.generation
    ensures Handled(timers[id := t], handles, nextHandle)
  {
  }

  lemma {:induction false} HandledDrop(timers: map<nat, Logical>, handles: map<nat, Handle>, nextHandle: nat, id: nat)
    requires Handled(timers, handles, nextHandle) && id in timers && timers[id].handle == None
    ensures Handled(timers - {id}, handles, nextHandle)
  {
  }

  lemma {:induction false} HandledDetach(timers: map<nat, Logical>, handles: map<nat, Handle>, nextHandle: nat,
                                         id: nat, h: nat)
    requires Handled(timers, handles, nextHandle) && h in handles && handles[h].timer == Some(id)
    ensures id in timers && timers[id].handle == Some(h)
    ensures Handled(timers[id := timers[id].(handle := None)], handles[h := handles[h].(timer := None)], nextHandle)
  {
  }

  lemma {:induction false} HandledGive(timers: map<nat, Logical>, handles: map<nat, Handle>, h: nat, id: nat)
    requires Handled(timers, handles, h) && id in timers && timers[id].handle == None
    ensures Handled(timers[id := timers[id].(handle := Some(h))], handles[h := Handle(Some(id), timers[id].generation)],
                    h + 1)
  {
  }

  lemma {:induction false} HandledForget(timers: map<nat, Logical>, handles: map<nat, Handle>, nextHandle: nat,
                                         gone: set<nat>)
    requires Handled(timers, handles, nextHandle) && forall h | h in gone && h in handles :: handles[h].timer == None
    ensures Handled(timers, handles - gone, nextHandle)
  {
  }

  lemma {:induction false} SaneSet(timers: map<nat, Logical>, generationOf: nat -> nat, id: nat, t: Logical)
    requires Sane(timers, generationOf) && SaneTimer(t, generationOf)
    ensures Sane(timers[id := t], generationOf)
  {
    hide SaneTimer;
  }

  lemma {:induction false} SaneDrop(timers: map<nat, Logical>, generationOf: nat -> nat, id: nat)
    requires Sane(timers, generationOf)
    ensures Sane(timers - {id}, generationOf)
  {
    hide SaneTimer;
  }

  lemma {:induction false} AccountedMore(live: set<nat>, id: nat, freed: set<nat>)
    requires Accounted(live, id, freed)
    ensures id !in live && Accounted(live + {id}, id + 1, freed) && Accounted(live, id + 1, freed + {id})
  {
  }

  lemma {:induction false} AccountedMove(live: set<nat>, nextId: nat, freed: set<nat>, id: nat)
    requires Accounted(live, nextId, freed) && id in live
    ensures Accounted(live - {id}, nextId, freed + {id})
  {
  }

  /** The last change of an entry is what counts. */
  lemma {:induction false} UpdateTwice<K, V>(m: map<K, V>, k: K, a: V, b: V)
    ensures m[k := a][k := b] == m[k := b] && m[k := a] - {k} == m - {k}
  {
  }

  /** A timer stopped for good, but kept. */
  function Stopped(t: Logical): Logical {
    t.(active := false, cancelled := true)
  }

  /** The handles once a timer's handle no longer stands for it. */
  function Detached(handles: map<nat, Handle>, t: Logical): map<nat, Handle> {
    if t.handle.Some? && t.handle.value in handles
    then handles[t.handle.value := handles[t.handle.value].(timer := None)] else handles
  }

  class TimerSystem {
    // Live allocations, linked into the list of their generation.
    var timers: map<nat, Logical>
    var linked: set<nat>
    var monotonic: set<nat>
    var realtime: set<nat>
    var handles: map<nat, Handle>
    var faulted: set<nat>
    var staging: set<nat>
    var current: Option<nat>
    var nextId: nat
    var nextHandle: nat
    const generationOf: nat -> nat

    // Every timer ever released, and every callback, in order.
    ghost var Freed: set<nat>
    ghost var Ran: seq<Call>

    /** No heap slot, list link or handle points to a released timer; every timer made is live or released. */
    ghost predicate Valid()
      reads this`timers, this`linked, this`handles, this`monotonic, this`realtime, this`nextId, this`nextHandle,
            this`Freed
    {
      && linked == timers.Keys && InHeaps(timers, monotonic, realtime) && Handled(timers, handles, nextHandle)
      && Accounted(timers.Keys, nextId, Freed) && Sane(timers, generationOf)
    }

    ghost function Running(): map<nat, Kind>
      reads this`timers
    {
      RunningOf(timers)
    }

    ghost predicate RanOnce()
      reads this`timers, this`nextId, this`Ran
    {
      CalledOnce(Ran, timers, nextId)
    }

    constructor (generationOf: nat -> nat)
      ensures Valid() && RanOnce() && timers == map[] && handles == map[] && Freed == {} && current == None
      ensures faulted == staging == {}
    {
      this.generationOf := generationOf;
      timers, linked, monotonic, realtime, handles, faulted, staging, current := map[], {}, {}, {}, map[], {}, {}, None;
      nextId, nextHandle, Freed, Ran := 0, 0, {}, [];
    }

    // ---- Heaps ----

    /** Changing a timer and which heap holds it. */
    method Change(id: nat, t: Logical, inMonotonic: set<nat>, inRealtime: set<nat>)
      requires Valid() && id in timers && t.handle == timers[id].handle && KindOf(t) == KindOf(timers[id])
      requires (t.cancelled ==> !t.active) && t.running == timers[id].running
      requires inMonotonic == if t.active && !t.realtime then monotonic + {id} else monotonic - {id}
      requires inRealtime == if t.active && t.realtime then realtime + {id} else realtime - {id}
      modifies this`timers, this`monotonic, this`realtime
      ensures Valid() && timers == old(timers)[id := t] && Running() == old(Running())
      ensures timers.Keys == old(timers.Keys) && monotonic == inMonotonic && realtime == inRealtime
    {
      assert SaneTimer(timers[id], generationOf);
      HeapsSet(timers, monotonic, realtime, id, t);
      HandledSet(timers, handles, nextHandle, id, t);
      SaneSet(timers, generationOf, id, t);
      SameRunning(timers, timers[id := t], id);
      assert timers[id := t].Keys == timers.Keys;
      hide RunningOf, InHeaps, Handled, Accounted, Sane;
      timers, monotonic, realtime := timers[id := t], inMonotonic, inRealtime;
    }

    /** A live timer, if active, is in the heap of its kind, and in no other. */
    lemma {:induction false} LiveTimer(id: nat)
      requires Valid() && id in timers
      ensures (id in monotonic <==> timers[id].active && !timers[id].realtime)
      ensures (id in realtime <==> timers[id].active && timers[id].realtime)
      ensures linked == timers.Keys && id < nextId && id !in Freed && SaneTimer(timers[id], generationOf)
      ensures timers[id].handle.Some? ==>
        timers[id].handle.value in handles
        && handles[timers[id].handle.value] == Handle(Some(id), timers[id].generation)
    {
    }

    /** Taking a timer out of one heap; the heap must be the one that holds it. */
    method HeapCancel(onRealtime: bool, id: nat)
      requires Valid() && id in timers
      requires timers[id].active ==> id in if onRealtime then realtime else monotonic
      modifies this`timers, this`monotonic, this`realtime
      ensures Valid() && timers == old(timers)[id := old(timers[id]).(active := false)]
      ensures Running() == old(Running()) && timers.Keys == old(timers.Keys)
    {
      LiveTimer(id);
      hide Valid, RunningOf;
      if !timers[id].active {
        assert timers == timers[id := timers[id].(active := false)];
        return;
      }
      Change(id, timers[id].(active := false), if onRealtime then monotonic else monotonic - {id},
             if onRealtime then realtime - {id} else realtime);
    }

    /** The heap a timer belongs to, by its kind. */
    function HeapOf(id: nat): bool
      requires id in timers
      reads this`timers
    {
      timers[id].realtime
    }

    method HeapAdd(onRealtime: bool, id: nat)
      requires Valid() && id in timers && !timers[id].active && !timers[id].cancelled
      requires timers[id].realtime == onRealtime
      modifies this`timers, this`monotonic, this`realtime
      ensures Valid() && timers == old(timers)[id := old(timers[id]).(active := true)]
      ensures Running() == old(Running()) && timers.Keys == old(timers.Keys)
    {
      LiveTimer(id);
      hide Valid, RunningOf;
      Change(id, timers[id].(active := true), if onRealtime then monotonic else monotonic + {id},
             if onRealtime then realtime + {id} else realtime);
    }

    method Mark(id: nat)
      requires Valid() && id in timers && !timers[id].active
      modifies this`timers, this`monotonic, this`realtime
      ensures Valid() && timers == old(timers)[id := old(timers[id]).(cancelled := true)] && Running() == old(Running())
      ensures timers.Keys == old(timers.Keys)
    {
      LiveTimer(id);
      hide Valid, RunningOf;
      Change(id, timers[id].(cancelled := true), monotonic, realtime);
    }

    /** Out of its heap and cancelled, wherever it is. */
    method Stop(id: nat)
      requires Valid() && id in timers
      modifies this`timers, this`monotonic, this`realtime
      ensures Valid() && timers == old(timers)[id := Stopped(old(timers[id]))] && Running() == old(Running())
      ensures timers.Keys == old(timers.Keys)
    {
      LiveTimer(id);
      hide Valid, RunningOf;
      UpdateTwice(timers, id, timers[id].(active := false), Stopped(timers[id]));
      HeapCancel(HeapOf(id), id);
      Mark(id);
    }

    // ---- Releasing ----

    /** Releasing a timer: out of its heap, off its handle, out of its list, and freed. */
    method Release(id: nat)
      requires Valid() && id in timers && !timers[id].running
      modifies this`timers, this`linked, this`monotonic, this`realtime, this`handles, this`Freed
      ensures Valid() && id !in old(Freed) && Freed == old(Freed) + {id} && timers == old(timers) - {id}
      ensures Running() == old(Running()) && handles == Detached(old(handles), old(timers[id]))
    {
      LiveTimer(id);
      hide Valid, RunningOf;
      UpdateTwice(timers, id, timers[id].(active := false), timers[id]);
      HeapCancel(HeapOf(id), id);
      Drop(id);
    }

    method Drop(id: nat)
      requires Valid() && id in timers && !timers[id].running && !timers[id].active
      modifies this`timers, this`linked, this`handles, this`Freed
      ensures Valid() && Freed == old(Freed) + {id} && timers == old(timers) - {id}
      ensures Running() == old(Running()) && handles == Detached(old(handles), old(timers[id]))
    {
      LiveTimer(id);
      hide Valid, RunningOf;
      var handle := timers[id].handle;
      UpdateTwice(timers, id, timers[id].(handle := None), timers[id]);
      if handle.Some? {
        Detach(handle.value, id);
      }
      Unlink(id);
    }

    method Unlink(id: nat)
      requires Valid() && id in timers && !timers[id].running && !timers[id].active && timers[id].handle == None
      modifies this`timers, this`linked, this`Freed
      ensures Valid() && Freed == old(Freed) + {id} && timers == old(timers) - {id} && Running() == old(Running())
    {
      SameRunning(timers, timers - {id}, id);
      HeapsDrop(timers, monotonic, realtime, id);
      HandledDrop(timers, handles, nextHandle, id);
      SaneDrop(timers, generationOf, id);
      AccountedMove(timers.Keys, nextId, Freed, id);
      assert (timers - {id}).Keys == timers.Keys - {id};
      hide RunningOf, InHeaps, Handled, Accounted, Sane;
      linked := linked - {id};
      timers := timers - {id};
      Freed := Freed + {id};
    }

    /** Cancelling a timer from Lua: a running one is left to its dispatcher, any other is released. */
    method CancelTimer(id: nat)
      requires Valid() && id in timers
      modifies this`timers, this`linked, this`monotonic, this`realtime, this`handles, this`Freed
      ensures Valid() && Running() == old(Running())
      ensures if old(timers[id].running) then
                timers == old(timers)[id := Stopped(old(timers[id]))] && Freed == old(Freed) && handles == old(handles)
              else
                && timers == old(timers) - {id} && Freed == old(Freed) + {id}
                && handles == Detached(old(handles), old(timers[id]))
    {
      hide Valid, RunningOf;
      UpdateTwice(timers, id, Stopped(timers[id]), timers[id]);
      Stop(id);
      if !timers[id].running {
        Release(id);
      }
    }

    // ---- Lua ----

    /** Cancelling through a handle acts on its timer alone; a handle whose timer is gone does nothing. */
    method CancelByHandle(h: nat)
      requires Valid() && h in handles
      modifies this`timers, this`linked, this`monotonic, this`realtime, this`handles, this`Freed
      ensures Valid() && Running() == old(Running()) && handles.Keys == old(handles.Keys)
      ensures old(handles[h].timer).Some? ==> old(handles[h].timer).value in old(timers)
      ensures var t := old(handles[h].timer);
              if t.None? || old(timers)[t.value].cancelled then
                timers == old(timers) && Freed == old(Freed) && handles == old(handles)
              else if old(timers)[t.value].running then
                timers == old(timers)[t.value := Stopped(old(timers)[t.value])] && Freed == old(Freed)
                && handles == old(handles)
              else
                && timers == old(timers) - {t.value} && Freed == old(Freed) + {t.value}
                && handles == old(handles)[h := old(handles[h]).(timer := None)]
    {
      KnownHandle(h);
      hide Valid, RunningOf;
      if handles[h].timer.Some? && !timers[handles[h].timer.value].cancelled {
        CancelTimer(handles[h].timer.value);
      }
    }

    lemma {:induction false} KnownHandle(h: nat)
      requires Valid() && h in handles
      ensures handles[h].timer.Some? ==>
        handles[h].timer.value in timers && timers[handles[h].timer.value].handle == Some(h)
    {
    }

    /** Detaching a timer from its handle, both ways. */
    method Detach(h: nat, id: nat)
      requires Valid() && h in handles && handles[h].timer == Some(id)
      modifies this`timers, this`handles
      ensures Valid() && handles == old(handles)[h := old(handles[h]).(timer := None)]
      ensures id in old(timers) && timers == old(timers)[id := old(timers[id]).(handle := None)]
      ensures Running() == old(Running())
    {
      KnownHandle(h);
      LiveTimer(id);
      HandledDetach(timers, handles, nextHandle, id, h);
      var t := timers[id].(handle := None);
      SameRunning(timers, timers[id := t], id);
      HeapsSet(timers, monotonic, realtime, id, t);
      SaneSet(timers, generationOf, id, t);
      hide RunningOf, InHeaps, Handled, Accounted, Sane;
      assert (if t.active && !t.realtime then monotonic + {id} else monotonic - {id}) == monotonic;
      assert (if t.active && t.realtime then realtime + {id} else realtime - {id}) == realtime;
      assert timers[id := t].Keys == timers.Keys;
      timers := timers[id := t];
      handles := handles[h := handles[h].(timer := None)];
    }

    /** Collecting a handle detaches its timer first, and cancels it unless it is cancelled already. */
    method CollectHandle(h: nat)
      requires Valid() && h in handles
      modifies this`timers, this`linked, this`monotonic, this`realtime, this`handles, this`Freed
      ensures Valid() && Running() == old(Running()) && handles == old(handles) - {h}
      ensures old(handles[h].timer).Some? ==> old(handles[h].timer).value in old(timers)
      ensures var t := old(handles[h].timer);
              if t.None? then timers == old(timers) && Freed == old(Freed)
              else
                var was := old(timers)[t.value];
                if was.cancelled then timers == old(timers)[t.value := was.(handle := None)] && Freed == old(Freed)
                else if was.running then
                  timers == old(timers)[t.value := Stopped(was).(handle := None)] && Freed == old(Freed)
                else timers == old(timers) - {t.value} && Freed == old(Freed) + {t.value}
    {
      KnownHandle(h);
      hide Valid, RunningOf, KindOf;
      var timer := handles[h].timer;
      if timer.Some? {
        var id := timer.value;
        UpdateTwice(timers, id, timers[id].(handle := None), Stopped(timers[id]).(handle := None));
        UpdateTwice(handles, h, handles[h].(timer := None), handles[h]);
        Detach(h, id);
        if !timers[id].cancelled {
          CancelTimer(id);
        }
      }
      Forget({h});
    }

    method Forget(gone: set<nat>)
      requires Valid() && forall h | h in gone && h in handles :: handles[h].timer == None
      modifies this`handles
      ensures Valid() && handles == old(handles) - gone
    {
      HandledForget(timers, handles, nextHandle, gone);
      hide InHeaps, Handled, Accounted, Sane;
      handles := handles - gone;
    }

    /** Creating a timer with a handle; a live one joins the heap of its kind first or is freed again. */
    method CreateTimer(block: nat, onRealtime: bool, repeats: bool, schedules: bool) returns (made: bool)
      requires Valid() && (onRealtime ==> !repeats)
      modifies this`timers, this`linked, this`monotonic, this`realtime, this`handles, this`nextId, this`nextHandle,
               this`Freed
      ensures Valid() && Running() == old(Running()) && old(Freed) <= Freed && nextId == old(nextId) + 1
      ensures made <==> generationOf(block) in staging || schedules
      // A staged timer waits for activation; a live one is in its heap already.
      ensures made ==> Freed == old(Freed) && timers == old(timers)[old(nextId) :=
        NewTimer(block, generationOf(block), onRealtime, repeats, generationOf(block) !in staging, old(nextHandle))]
      ensures handles
        == if made then old(handles)[old(nextHandle) := Handle(Some(old(nextId)), generationOf(block))]
        else old(handles)
      ensures !made ==> timers == old(timers) && Freed == old(Freed) + {old(nextId)}
    {
      var staged := generationOf(block) in staging;
      if !staged && !schedules {
        // The heap refused it before it was linked.
        AccountedMore(timers.Keys, nextId, Freed);
        hide InHeaps, Handled, Accounted, Sane;
        Freed := Freed + {nextId};
        nextId := nextId + 1;
        return false;
      }
      hide Valid, RunningOf;
      EnterTimer(block, onRealtime, repeats, !staged);
      return true;
    }

    method EnterTimer(block: nat, onRealtime: bool, repeats: bool, starts: bool)
      requires Valid()
      modifies this`timers, this`linked, this`monotonic, this`realtime, this`handles, this`nextId, this`nextHandle
      ensures Valid() && Running() == old(Running()) && nextId == old(nextId) + 1
      ensures timers
        == old(timers)[old(nextId) := NewTimer(block, generationOf(block), onRealtime, repeats, starts,
                                               old(nextHandle))]
      ensures handles == old(handles)[old(nextHandle) := Handle(Some(old(nextId)), generationOf(block))]
    {
      hide RunningOf, Valid;
      var id := Link(Logical(block, generationOf(block), onRealtime, repeats, false, false, false, None));
      if starts {
        HeapAdd(onRealtime, id);
      }
      GiveHandle(id);
    }

    /** A new allocation, linked into its generation's list. */
    method Link(t: Logical) returns (id: nat)
      requires Valid() && !t.active && !t.running && t.handle == None && t.generation == generationOf(t.block)
      modifies this`timers, this`linked, this`nextId
      ensures Valid() && id == old(nextId) && nextId == id + 1 && id !in old(timers)
      ensures timers == old(timers)[id := t] && Running() == old(Running())
    {
      id := nextId;
      AccountedMore(timers.Keys, nextId, Freed);
      HeapsSet(timers, monotonic, realtime, id, t);
      HandledSet(timers, handles, nextHandle, id, t);
      SaneSet(timers, generationOf, id, t);
      SameRunning(timers, timers[id := t], id);
      assert timers[id := t].Keys == timers.Keys + {id};
      assert monotonic - {id} == monotonic && realtime - {id} == realtime;
      hide RunningOf, InHeaps, Handled, Accounted, Sane;
      timers, linked, nextId := timers[id := t], linked + {id}, id + 1;
    }

    method GiveHandle(id: nat)
      requires Valid() && id in timers && timers[id].handle == None
      modifies this`timers, this`handles, this`nextHandle
      ensures Valid() && timers == old(timers)[id := old(timers[id]).(handle := Some(old(nextHandle)))]
      ensures Running() == old(Running()) && nextHandle == old(nextHandle) + 1
      ensures handles == old(handles)[old(nextHandle) := Handle(Some(id), old(timers[id]).generation)]
    {
      var h := nextHandle;
      var t := timers[id].(handle := Some(h));
      LiveTimer(id);
      HandledGive(timers, handles, h, id);
      SameRunning(timers, timers[id := t], id);
      HeapsSet(timers, monotonic, realtime, id, t);
      SaneSet(timers, generationOf, id, t);
      hide RunningOf, InHeaps, Handled, Accounted, Sane;
      assert (if t.active && !t.realtime then monotonic + {id} else monotonic - {id}) == monotonic;
      assert (if t.active && t.realtime then realtime + {id} else realtime - {id}) == realtime;
      assert timers[id := t].Keys == timers.Keys;
      nextHandle := nextHandle + 1;
      handles := handles[h := Handle(Some(id), timers[id].generation)];
      timers := timers[id := t];
    }

    /** What a fault leaves of every timer: those of the block stopped, all others as they were. */
    static ghost predicate FaultedTimers(was: map<nat, Logical>, now: map<nat, Logical>, block: nat, rest: set<nat>) {
      now.Keys == was.Keys
      && forall k | k in was :: now[k] == if was[k].block == block && k !in rest then Stopped(was[k]) else was[k]
    }

    /** A block faults once. */
    static ghost predicate FaultsOnce(was: map<nat, Logical>, now: map<nat, Logical>, block: nat, faulted: set<nat>) {
      if block in faulted then now == was else FaultedTimers(was, now, block, {})
    }

    /** A fault stops the block's timers and no others, and releases none: one may be on the dispatcher's stack. */
    method FaultBlock(block: nat)
      requires Valid()
      modifies this`timers, this`monotonic, this`realtime, this`faulted
      ensures Valid() && Running() == old(Running()) && faulted == old(faulted) + {block}
      ensures FaultsOnce(old(timers), timers, block, old(faulted)) && timers.Keys == old(timers.Keys)
    {
      if block in faulted {
        return;
      }
      AllLinked();
      hide Valid, RunningOf, FaultedTimers;
      faulted := faulted + {block};
      var rest := linked;
      FaultStart(timers, block);
      while rest != {}
        invariant Valid() && Running() == old(Running()) && rest <= timers.Keys && faulted == old(faulted) + {block}
        invariant FaultedTimers(old(timers), timers, block, rest)
        decreases |rest|
      {
        var id :| id in rest;
        ghost var before, left := timers, rest;
        rest := rest - {id};
        FaultTimer(block, id);
        FaultStep(old(timers), before, timers, block, left, id);
      }
    }

    static lemma {:induction false} FaultStart(timers: map<nat, Logical>, block: nat)
      ensures FaultedTimers(timers, timers, block, timers.Keys)
    {
    }

    static lemma {:induction false} FaultStep(was: map<nat, Logical>, before: map<nat, Logical>,
                                              now: map<nat, Logical>, block: nat,
                                              rest: set<nat>, id: nat)
      requires FaultedTimers(was, before, block, rest) && id in rest && id in before
      requires now == before[id := if before[id].block == block then Stopped(before[id]) else before[id]]
      ensures FaultedTimers(was, now, block, rest - {id})
    {
    }

    method FaultTimer(block: nat, id: nat)
      requires Valid() && id in timers
      modifies this`timers, this`monotonic, this`realtime
      ensures Valid() && Running() == old(Running()) && timers.Keys == old(timers.Keys)
      ensures timers
        == old(timers)[id := if old(timers[id]).block == block then Stopped(old(timers[id])) else old(timers[id])]
    {
      LiveTimer(id);
      hide Valid, RunningOf;
      assert timers[id := timers[id]] == timers;
      if timers[id].block == block && !timers[id].cancelled {
        Stop(id);
      }
    }

    /** One thing Lua code does. */
    method Perform(act: Act)
      requires Valid() && (act.Create? ==> act.onRealtime ==> !act.repeats)
      modifies this`timers, this`linked, this`monotonic, this`realtime, this`handles, this`faulted, this`nextId,
               this`nextHandle, this`Freed
      ensures Valid() && Running() == old(Running()) && old(Freed) <= Freed
      ensures old(nextId) <= nextId && Follows(old(timers), old(nextId), timers)
    {
      hide Valid, RunningOf, Follows, FaultsOnce;
      FollowsAt(timers, nextId, timers, 0);
      match act
      case Create(block, onRealtime, repeats, schedules) =>
        var made := CreateTimer(block, onRealtime, repeats, schedules);
        FollowsAt(old(timers), old(nextId), timers, old(nextId));
      case CancelBy(h) =>
        if h in handles {
          ghost var timer := handles[h].timer;
          CancelByHandle(h);
          FollowsAt(old(timers), nextId, timers, if timer.Some? then timer.value else 0);
        }
      case Collect(h) =>
        if h in handles {
          ghost var timer := handles[h].timer;
          CollectHandle(h);
          FollowsAt(old(timers), nextId, timers, if timer.Some? then timer.value else 0);
        }
      case Fault(block) =>
        FaultBlock(block);
        FaultFollows(old(timers), nextId, timers, block, old(faulted));
    }

    static lemma {:induction false} FaultFollows(was: map<nat, Logical>, nextId: nat, now: map<nat, Logical>,
                                                 block: nat, faulted: set<nat>)
      requires FaultsOnce(was, now, block, faulted)
      ensures Follows(was, nextId, now)
    {
    }

    static ghost predicate GoodScript(script: seq<Act>) {
      forall act | act in script && act.Create? && act.onRealtime :: !act.repeats
    }

    /** A callback does any number of things, in any order. */
    method Callback(script: seq<Act>)
      requires Valid() && GoodScript(script)
      modifies this`timers, this`linked, this`monotonic, this`realtime, this`handles, this`faulted, this`nextId,
               this`nextHandle, this`Freed
      ensures Valid() && Running() == old(Running()) && old(Freed) <= Freed
      ensures old(nextId) <= nextId && Follows(old(timers), old(nextId), timers)
    {
      hide Valid, RunningOf, Follows;
      FollowsAt(timers, nextId, timers, 0);
      for i := 0 to |script|
        invariant Valid() && Running() == old(Running()) && old(Freed) <= Freed
        invariant old(nextId) <= nextId && Follows(old(timers), old(nextId), timers)
      {
        ghost var before, next := timers, nextId;
        Perform(script[i]);
        FollowsThen(old(timers), old(nextId), before, next, timers);
      }
    }

    // ---- Dispatching ----

    method SetRunning(id: nat, running: bool)
      requires Valid() && id in timers
      modifies this`timers
      ensures Valid() && timers == old(timers)[id := old(timers[id]).(running := running)]
      ensures Running() == if running then old(Running())[id := KindOf(timers[id])] else old(Running()) - {id}
    {
      var t := timers[id].(running := running);
      LiveTimer(id);
      HeapsSet(timers, monotonic, realtime, id, t);
      HandledSet(timers, handles, nextHandle, id, t);
      SaneSet(timers, generationOf, id, t);
      RunningSet(timers, id, t);
      hide RunningOf, InHeaps, Handled, Accounted, Sane;
      assert (if t.active && !t.realtime then monotonic + {id} else monotonic - {id}) == monotonic;
      assert (if t.active && t.realtime then realtime + {id} else realtime - {id}) == realtime;
      assert timers[id := t].Keys == timers.Keys;
      timers := timers[id := t];
    }

    /**
     Dispatching a due timer of the monotonic heap: its callback runs, and then it starts again, is
     released, or stays for its generation; it is never released while the callback runs.
     */
    method Fire(id: nat, script: seq<Act>, called: bool, fits: bool)
      requires Valid() && RanOnce() && id in monotonic && Running() == map[] && GoodScript(script)
      modifies this
      ensures Valid() && Running() == map[] && old(Freed) <= Freed && staging == old(staging) && current == old(current)
      ensures id in old(timers) && RanOnce()
      ensures Ran == old(Ran) + if old(Fires(id)) then [Call(id, old(KindOf(timers[id])))] else []
      ensures !old(Fires(id)) ==> timers == old(timers)[id := old(timers)[id].(active := false)] && Freed == old(Freed)
      // After its callback, what is left of the timer is a repeating one not cancelled.
      ensures old(Fires(id)) && id in timers ==> timers[id].repeating && !timers[id].cancelled
    {
      OnHeap(id);
      hide Valid, RunningOf, Follows, CalledOnce;
      Popped(false, id);
      FollowsAt(old(timers), nextId, timers, id);
      CallsFollow(Ran, old(timers), nextId, timers, nextId);
      if timers[id].cancelled || current != Some(timers[id].generation) || timers[id].block in faulted {
        return;
      }
      FireLive(id, script, called, fits);
    }

    /** A timer that counts: its callback, and what becomes of it. */
    method FireLive(id: nat, script: seq<Act>, called: bool, fits: bool)
      requires Valid() && RanOnce() && id in timers && !timers[id].realtime && Running() == map[] && GoodScript(script)
      modifies this`timers, this`linked, this`monotonic, this`realtime, this`handles, this`faulted, this`nextId,
               this`nextHandle,
               this`Freed, this`Ran
      ensures Valid() && RanOnce() && Running() == map[] && old(Freed) <= Freed
      ensures Ran == old(Ran) + [Call(id, old(KindOf(timers[id])))]
      ensures id in timers ==> timers[id].repeating && !timers[id].cancelled
    {
      LiveTimer(id);
      hide Valid, RunningOf, Follows, CalledOnce, OthersAfter, SaneTimer;
      RunCallback(id, script);
      ghost var before, next := timers, nextId;
      AfterCallback(id, called, fits);
      OthersFollow(before, next, timers, id);
      FollowsThen(old(timers), old(nextId), before, next, timers);
      CallsMore(old(Ran), old(timers), old(nextId), id, timers, nextId);
    }

    static lemma {:induction false} OthersFollow(was: map<nat, Logical>, nextId: nat, now: map<nat, Logical>, id: nat)
      requires id in was && (OthersAfter(was, now, id, true) || OthersAfter(was, now, id, false))
      requires id in now ==> KindOf(now[id]) == KindOf(was[id])
      ensures Follows(was, nextId, now)
    {
    }

    /** A due timer's callback runs unless the timer, its block or its generation no longer counts. */
    ghost predicate Fires(id: nat)
      reads this`timers, this`faulted, this`current
    {
      id in timers && !timers[id].cancelled && current == Some(timers[id].generation) && timers[id].block !in faulted
    }

    lemma {:induction false} OnHeap(id: nat)
      requires Valid() && (id in monotonic || id in realtime)
      ensures id in timers
    {
    }

    /** A timer popped from a heap is of that heap's kind, and no longer active. */
    method Popped(onRealtime: bool, id: nat)
      requires Valid() && id in if onRealtime then realtime else monotonic
      modifies this`timers, this`monotonic, this`realtime
      ensures Valid() && Running() == old(Running()) && id in old(timers)
      ensures timers == old(timers)[id := old(timers[id]).(active := false)] && timers[id].realtime == onRealtime
    {
      OnHeap(id);
      LiveTimer(id);
      hide Valid, RunningOf;
      HeapCancel(onRealtime, id);
    }

    /** Running a timer's callback: the timer outlives whatever the callback does. */
    method RunCallback(id: nat, script: seq<Act>)
      requires Valid() && id in timers && Running() == map[] && GoodScript(script)
      modifies this`timers, this`linked, this`monotonic, this`realtime, this`handles, this`faulted, this`nextId,
               this`nextHandle,
               this`Freed, this`Ran
      ensures Valid() && Running() == map[] && old(Freed) <= Freed
      ensures id in timers && KindOf(timers[id]) == old(KindOf(timers[id])) && !timers[id].running
      ensures Ran == old(Ran) + [Call(id, old(KindOf(timers[id])))]
      ensures old(nextId) <= nextId && Follows(old(timers), old(nextId), timers)
    {
      hide Valid, GoodScript, Follows;
      Ran := Ran + [Call(id, KindOf(timers[id]))];
      SetRunning(id, true);
      FollowsAt(old(timers), nextId, timers, id);
      ghost var before, next := timers, nextId;
      Callback(script);
      FollowsThen(old(timers), next, before, next, timers);
      assert id in Running();
      ghost var after := timers;
      SetRunning(id, false);
      FollowsAt(after, next, timers, id);
      FollowsThen(old(timers), next, after, next, timers);
    }

    /** A repeating timer that nothing stopped meanwhile. */
    ghost predicate GoesOn(t: Logical)
      reads this`faulted
    {
      t.repeating && !t.cancelled && t.block !in faulted
    }

    /** All timers but one: those of its block stopped if that faults now, every other as it was. */
    static ghost predicate OthersAfter(was: map<nat, Logical>, now: map<nat, Logical>, id: nat, faults: bool)
      requires id in was
    {
      && now.Keys <= was.Keys <= now.Keys + {id}
      && forall k | k in was && k != id ::
           now[k] == if faults && was[k].block == was[id].block then Stopped(was[k]) else was[k]
    }

    static lemma {:induction false} FaultOthers(was: map<nat, Logical>, now: map<nat, Logical>, id: nat,
                                                faulted: set<nat>)
      requires id in was && FaultsOnce(was, now, was[id].block, faulted)
      ensures OthersAfter(was, now, id, was[id].block !in faulted)
      ensures OthersAfter(was, now - {id}, id, was[id].block !in faulted)
      ensures id in now && now[id] == if was[id].block in faulted then was[id] else Stopped(was[id])
    {
    }

    static lemma {:induction false} SameOthers(was: map<nat, Logical>, id: nat, t: Logical)
      requires id in was
      ensures OthersAfter(was, was[id := t], id, false) && OthersAfter(was, was[id := t] - {id}, id, false)
      ensures OthersAfter(was, was, id, false) && OthersAfter(was, was - {id}, id, false)
    {
    }

    method AfterCallback(id: nat, called: bool, fits: bool)
      requires Valid() && id in timers && !timers[id].realtime && !timers[id].running
      modifies this`timers, this`linked, this`monotonic, this`realtime, this`handles, this`faulted, this`Freed
      ensures Valid() && Running() == old(Running())
      // A failed callback faults the block, and so does a timer that should go on and cannot.
      ensures var t, failed := old(timers[id]), !called || old(GoesOn(timers[id]) && !(fits && !timers[id].active));
              && faulted == old(faulted) + (if failed then {t.block} else {})
              && OthersAfter(old(timers), timers, id, failed && t.block !in old(faulted))
              // Whatever is left of the timer is a repeating one, started again.
              && (id in timers <==> t.repeating && !t.cancelled && !(failed && t.block !in old(faulted)))
              && Freed == old(Freed) + (if id in timers then {} else {id})
      ensures id in timers ==>
        timers[id].repeating && !timers[id].cancelled && KindOf(timers[id]) == old(KindOf(timers[id]))
      ensures called && fits && old(GoesOn(timers[id]) && !timers[id].active) ==> id in timers && timers[id].active
    {
      hide Valid, RunningOf, FaultedTimers;
      SameOthers(timers, id, timers[id].(active := true));
      if !called {
        FaultOwner(id);
      } else if timers[id].repeating && !timers[id].cancelled && timers[id].block !in faulted {
        if fits && !timers[id].active {
          HeapAdd(false, id);
        } else {
          FaultOwner(id);
        }
      }
      if !timers[id].repeating || timers[id].cancelled {
        Release(id);
      }
    }

    /** Faulting a timer's block keeps the timer, and leaves it cancelled if the fault is new. */
    method FaultOwner(id: nat)
      requires Valid() && id in timers
      modifies this`timers, this`monotonic, this`realtime, this`faulted
      ensures Valid() && Running() == old(Running()) && faulted == old(faulted) + {old(timers[id].block)}
      ensures var t, faults := old(timers[id]), old(timers[id].block !in faulted);
              && OthersAfter(old(timers), timers, id, faults) && OthersAfter(old(timers), timers - {id}, id, faults)
              && id in timers && timers[id] == if faults then Stopped(t) else t
    {
      hide Valid, RunningOf, FaultedTimers;
      FaultBlock(timers[id].block);
      FaultOthers(old(timers), timers, id, old(faulted));
    }

    /** Dispatching a due realtime timer: it fires once and is released after its callback. */
    method FireRealtime(id: nat, script: seq<Act>, called: bool)
      requires Valid() && RanOnce() && id in realtime && Running() == map[] && GoodScript(script)
      modifies this
      ensures Valid() && Running() == map[] && old(Freed) <= Freed && staging == old(staging) && current == old(current)
      ensures id in old(timers) && RanOnce()
      ensures Ran == old(Ran) + if old(Fires(id)) then [Call(id, old(KindOf(timers[id])))] else []
      ensures if old(Fires(id)) then id in Freed
              else timers == old(timers)[id := old(timers)[id].(active := false)] && Freed == old(Freed)
    {
      OnHeap(id);
      hide Valid, RunningOf, Follows, CalledOnce;
      Popped(true, id);
      FollowsAt(old(timers), nextId, timers, id);
      CallsFollow(Ran, old(timers), nextId, timers, nextId);
      if timers[id].cancelled || current != Some(timers[id].generation) || timers[id].block in faulted {
        return;
      }
      FireLiveRealtime(id, script, called);
    }

    method FireLiveRealtime(id: nat, script: seq<Act>, called: bool)
      requires Valid() && RanOnce() && id in timers && Running() == map[] && GoodScript(script)
      modifies this`timers, this`linked, this`monotonic, this`realtime, this`handles, this`faulted, this`nextId,
               this`nextHandle,
               this`Freed, this`Ran
      ensures Valid() && RanOnce() && Running() == map[] && old(Freed) <= Freed && id in Freed
      ensures Ran == old(Ran) + [Call(id, old(KindOf(timers[id])))]
    {
      LiveTimer(id);
      hide Valid, RunningOf, Follows, CalledOnce, OthersAfter, SaneTimer;
      RunCallback(id, script);
      ghost var before, next := timers, nextId;
      FinishRealtime(id, called);
      OthersFollow(before, next, timers, id);
      FollowsThen(old(timers), old(nextId), before, next, timers);
      CallsMore(old(Ran), old(timers), old(nextId), id, timers, nextId);
    }

    method FinishRealtime(id: nat, called: bool)
      requires Valid() && id in timers && !timers[id].running
      modifies this`timers, this`linked, this`monotonic, this`realtime, this`handles, this`faulted, this`Freed
      ensures Valid() && Running() == old(Running()) && id !in timers && Freed == old(Freed) + {id}
      ensures faulted == old(faulted) + (if called then {} else {old(timers[id].block)})
      ensures OthersAfter(old(timers), timers, id, !called && old(timers[id].block) !in old(faulted))
    {
      hide Valid, RunningOf;
      SameOthers(timers, id, timers[id]);
      if !called {
        FaultOwner(id);
      }
      Release(id);
    }

    // ---- Generations ----

    /** Loading a configuration: its timers wait until it is committed. */
    method Stage(generation: nat)
      modifies this`staging
      ensures staging == old(staging) + {generation}
    {
      staging := staging + {generation};
    }

    /** The poll timer of a block has no handle; it is linked before its heap may refuse it. */
    method AddPollTimer(block: nat, fits: bool) returns (ok: bool)
      requires Valid() && Running() == map[]
      modifies this`timers, this`linked, this`monotonic, this`realtime, this`nextId
      ensures Valid() && Running() == map[] && ok == fits && nextId == old(nextId) + 1
      ensures timers == old(timers)[old(nextId) :=
        Logical(block, generationOf(block), false, true, fits, false, false, None)]
    {
      hide Valid, RunningOf;
      var id := Link(Logical(block, generationOf(block), false, true, false, false, false, None));
      if fits {
        HeapAdd(false, id);
      }
      return fits;
    }

    /** A staged timer that its heap does not take: refused, or active already. */
    static ghost predicate Trouble(t: Logical, id: nat, generation: nat, refused: set<nat>) {
      t.generation == generation && !t.cancelled && (id in refused || t.active)
    }

    /** The blocks whose timers, but for some not looked at, are in trouble. */
    static ghost function Troubled(timers: map<nat, Logical>, generation: nat, refused: set<nat>,
                                   rest: set<nat>): set<nat> {
      set id | id in timers && id !in rest && Trouble(timers[id], id, generation, refused) :: timers[id].block
    }

    /** One timer after activation: stopped with its block, started, or as it was. */
    static ghost function Activated(t: Logical, id: nat, generation: nat, refused: set<nat>, rest: set<nat>,
                                    stopped: set<nat>): Logical {
      if t.block in stopped then Stopped(t)
      else if id !in rest && t.generation == generation && !t.cancelled && !Trouble(t, id, generation, refused)
      then t.(active := true)
      else t
    }

    static ghost predicate AllActivated(was: map<nat, Logical>, now: map<nat, Logical>, generation: nat,
                                        refused: set<nat>,
                                        rest: set<nat>, stopped: set<nat>)
    {
      now.Keys == was.Keys && forall k | k in was :: now[k] == Activated(was[k], k, generation, refused, rest, stopped)
    }

    /**
     Activation makes a generation current and puts every staged timer that is not cancelled into the heap of
     its kind. The blocks with a timer that its heap does not take are faulted, and no others; no timer of
     another block changes.
     */
    method Activate(generation: nat, refused: set<nat>)
      requires Valid() && Running() == map[]
      modifies this`timers, this`monotonic, this`realtime, this`faulted, this`staging, this`current
      ensures Valid() && Running() == map[] && current == Some(generation) && staging == old(staging) - {generation}
      ensures faulted == old(faulted) + Troubled(old(timers), generation, refused, {})
      ensures AllActivated(old(timers), timers, generation, refused, {},
                           Troubled(old(timers), generation, refused, {}) - old(faulted))
    {
      assert CancelledAreIdle(timers);
      hide Valid, RunningOf, AllActivated, Troubled, CancelledAreIdle, Activating, ActivatedAt;
      AllLinked();
      current, staging := Some(generation), staging - {generation};
      var rest := linked;
      ActivateStart(timers, generation, refused, old(faulted));
      while rest != {}
        invariant Valid() && Running() == map[] && rest <= timers.Keys
        invariant current == Some(generation) && staging == old(staging) - {generation}
        invariant Activating(old(timers), timers, generation, refused, rest, old(faulted), faulted)
        decreases |rest|
      {
        var id :| id in rest;
        ghost var before, left, blocked := timers, rest, faulted;
        rest := rest - {id};
        ActivateTimer(generation, id, id !in refused);
        ActivateStep(old(timers), before, timers, generation, refused, left, id, old(faulted), blocked, faulted);
      }
      ActivateEnd(old(timers), timers, generation, refused, old(faulted), faulted);
    }

    /** How far activation has come: which timers it looked at, and which blocks it faulted. */
    static ghost predicate Activating(was: map<nat, Logical>, now: map<nat, Logical>, generation: nat,
                                      refused: set<nat>, rest: set<nat>,
                                      faulted: set<nat>, faultedNow: set<nat>)
    {
      && CancelledAreIdle(was) && faultedNow == faulted + Troubled(was, generation, refused, rest)
      && AllActivated(was, now, generation, refused, rest, Troubled(was, generation, refused, rest) - faulted)
    }

    static lemma {:induction false} ActivateEnd(was: map<nat, Logical>, now: map<nat, Logical>, generation: nat,
                                                refused: set<nat>,
                                                faulted: set<nat>, faultedNow: set<nat>)
      requires Activating(was, now, generation, refused, {}, faulted, faultedNow)
      ensures faultedNow == faulted + Troubled(was, generation, refused, {})
      ensures AllActivated(was, now, generation, refused, {}, Troubled(was, generation, refused, {}) - faulted)
    {
    }

    /** What activation does at one timer. */
    static ghost predicate ActivatedAt(was: map<nat, Logical>, now: map<nat, Logical>, generation: nat, id: nat,
                                       fits: bool,
                                       faulted: set<nat>, faultedNow: set<nat>)
      requires id in was
    {
      var t := was[id];
      if t.generation != generation || t.cancelled then now == was && faultedNow == faulted
      else if fits && !t.active then now == was[id := t.(active := true)] && faultedNow == faulted
      else
        faultedNow == faulted + {t.block} && FaultsOnce(was, now, t.block, faulted)
    }

    lemma {:induction false} AllLinked()
      requires Valid()
      ensures linked == timers.Keys
    {
    }

    static lemma {:induction false} ActivateStart(timers: map<nat, Logical>, generation: nat, refused: set<nat>,
                                                  faulted: set<nat>)
      requires CancelledAreIdle(timers)
      ensures Activating(timers, timers, generation, refused, timers.Keys, faulted, faulted)
    {
      assert Troubled(timers, generation, refused, timers.Keys) == {};
    }

    static ghost predicate CancelledAreIdle(timers: map<nat, Logical>) {
      forall k | k in timers && timers[k].cancelled :: !timers[k].active
    }

    /** What one step of activation, at one timer, makes of any timer. */
    static ghost predicate ActivatesOne(before: Logical, now: Logical, k: nat, t: Logical, id: nat, generation: nat,
                                        refused: set<nat>,
                                        blocked: set<nat>)
    {
      now == if t.generation != generation || t.cancelled then before
             else if id !in refused && !t.active then if k == id then before.(active := true) else before
             else if t.block in blocked || before.block != t.block then before
             else Stopped(before)
    }

    static lemma {:induction false} ActivateOne(was: Logical, before: Logical, now: Logical, k: nat, u: Logical,
                                                t: Logical, id: nat,
                                                generation: nat, refused: set<nat>, rest: set<nat>, done: set<nat>,
                                                faulted: set<nat>)
      requires id in rest && (was.cancelled ==> !was.active) && (u.cancelled ==> !u.active)
        && (k == id ==> was == u && before == t)
      requires before == Activated(was, k, generation, refused, rest, done)
      requires t == Activated(u, id, generation, refused, rest, done)
      requires ActivatesOne(before, now, k, t, id, generation, refused, faulted + done)
      ensures var more := if Trouble(u, id, generation, refused) && u.block !in faulted then {u.block} else {};
              now == Activated(was, k, generation, refused, rest - {id}, done + more)
    {
    }

    /** A timer that activation finds in trouble was in trouble from the start. */
    static lemma {:induction false} ActivateFaults(u: Logical, t: Logical, id: nat, generation: nat, refused: set<nat>,
                                                   rest: set<nat>,
                                                   done: set<nat>)
      requires id in rest && t == Activated(u, id, generation, refused, rest, done)
      ensures t.block == u.block && t.generation == u.generation
      ensures Trouble(t, id, generation, refused) ==> Trouble(u, id, generation, refused)
      ensures Trouble(u, id, generation, refused) ==>
        u.block in done || (t == u && !t.cancelled && (id in refused || t.active))
    {
    }

    /** One timer more: the step keeps what activation has done so far. */
    static lemma {:induction false} ActivateStep(was: map<nat, Logical>, before: map<nat, Logical>,
                                                 now: map<nat, Logical>,
                                                 generation: nat, refused: set<nat>, rest: set<nat>, id: nat,
                                                 faulted: set<nat>,
                                                 faultedBefore: set<nat>, faultedNow: set<nat>)
      requires id in rest && id in before && before.Keys == now.Keys
      requires Activating(was, before, generation, refused, rest, faulted, faultedBefore)
      requires ActivatedAt(before, now, generation, id, id !in refused, faultedBefore, faultedNow)
      ensures Activating(was, now, generation, refused, rest - {id}, faulted, faultedNow)
    {
      hide Stopped, Trouble, Activated, ActivatesOne, ActivatedAt, CancelledAreIdle;
      var done := Troubled(was, generation, refused, rest) - faulted;
      ActivateStepFaults(was, before, now, generation, refused, rest, id, faulted, faultedBefore, faultedNow);
      ActivateStepOnes(before, now, generation, refused, id, faultedBefore, faultedNow);
      TroubledMore(was, generation, refused, rest, id);
      hide Troubled, AllActivated;
      var more := if Trouble(was[id], id, generation, refused) && was[id].block !in faulted then {was[id].block}
        else {};
      assert Troubled(was, generation, refused, rest - {id}) - faulted == done + more;
      assert faultedBefore == faulted + done;
      ActivateStepTimers(was, before, now, generation, refused, rest, id, done, faulted);
    }

    static lemma {:induction false} ActivateStepTimers(was: map<nat, Logical>, before: map<nat, Logical>,
                                                       now: map<nat, Logical>,
                                                       generation: nat, refused: set<nat>, rest: set<nat>, id: nat,
                                                       done: set<nat>,
                                                       faulted: set<nat>)
      requires id in rest && id in was && CancelledAreIdle(was)
      requires AllActivated(was, before, generation, refused, rest, done)
      requires before.Keys == now.Keys
      requires forall k | k in before ::
        ActivatesOne(before[k], now[k], k, before[id], id, generation, refused, faulted + done)
      ensures var more := if Trouble(was[id], id, generation, refused) && was[id].block !in faulted
                          then {was[id].block} else {};
              AllActivated(was, now, generation, refused, rest - {id}, done + more)
    {
      hide Trouble, Activated, ActivatesOne;
      var more := if Trouble(was[id], id, generation, refused) && was[id].block !in faulted then {was[id].block}
        else {};
      forall k | k in was
        ensures k in now && now[k] == Activated(was[k], k, generation, refused, rest - {id}, done + more)
      {
        ActivateOne(was[k], before[k], now[k], k, was[id], before[id], id, generation, refused, rest, done, faulted);
      }
    }

    static lemma {:induction false} ActivateStepFaults(was: map<nat, Logical>, before: map<nat, Logical>,
                                                       now: map<nat, Logical>,
                                                       generation: nat, refused: set<nat>, rest: set<nat>, id: nat,
                                                       faulted: set<nat>,
                                                       faultedBefore: set<nat>, faultedNow: set<nat>)
      requires id in rest && id in before && id in was
      requires faultedBefore == faulted + Troubled(was, generation, refused, rest)
      requires before[id]
        == Activated(was[id], id, generation, refused, rest, Troubled(was, generation, refused, rest) - faulted)
      requires ActivatedAt(before, now, generation, id, id !in refused, faultedBefore, faultedNow)
      ensures faultedNow == faulted + Troubled(was, generation, refused, rest - {id})
    {
      TroubledMore(was, generation, refused, rest, id);
      ActivateFaults(was[id], before[id], id, generation, refused, rest,
                     Troubled(was, generation, refused, rest) - faulted);
      hide Troubled, Activated, FaultedTimers;
    }

    /** What a step does at one timer, seen from every timer. */
    static lemma {:induction false} ActivateStepOnes(before: map<nat, Logical>, now: map<nat, Logical>, generation: nat,
                                                     refused: set<nat>, id: nat, faultedBefore: set<nat>,
                                                     faultedNow: set<nat>)
      requires id in before && before.Keys == now.Keys
      requires ActivatedAt(before, now, generation, id, id !in refused, faultedBefore, faultedNow)
      ensures forall k | k in before ::
        ActivatesOne(before[k], now[k], k, before[id], id, generation, refused, faultedBefore)
    {
    }

    static lemma {:induction false} TroubledMore(timers: map<nat, Logical>, generation: nat, refused: set<nat>,
                                                 rest: set<nat>, id: nat)
      requires id in rest && id in timers
      ensures Troubled(timers, generation, refused, rest - {id})
           == Troubled(timers, generation, refused, rest)
           + if Trouble(timers[id], id, generation, refused) then {timers[id].block} else {}
    {
    }

    method ActivateTimer(generation: nat, id: nat, fits: bool)
      requires Valid() && id in timers
      modifies this`timers, this`monotonic, this`realtime, this`faulted
      ensures Valid() && Running() == old(Running()) && timers.Keys == old(timers.Keys)
      ensures ActivatedAt(old(timers), timers, generation, id, fits, old(faulted), faulted)
    {
      hide Valid, RunningOf, FaultedTimers;
      if timers[id].generation != generation || timers[id].cancelled {
        return;
      }
      if fits && !timers[id].active {
        HeapAdd(timers[id].realtime, id);
      } else {
        FaultBlock(timers[id].block);
      }
    }

    /**
     Destroying a generation: its timers leave the heaps and their handles, Lua closes and collects every
     handle of the generation, and the timers still linked are freed. Other generations keep everything.
     */
    method Destroy(generation: nat)
      requires Valid() && Running() == map[]
      modifies this`timers, this`linked, this`monotonic, this`realtime, this`handles, this`Freed
      ensures Valid() && Running() == map[]
      ensures Kept(old(timers), timers, generation) && Freed == old(Freed) + (old(timers).Keys - timers.Keys)
      ensures KeptHandles(old(handles), handles, generation)
    {
      hide Valid, RunningOf;
      Retire(generation);
      ghost var retired := timers;
      CloseLua(generation);
      FreeAll(generation);
      KeptAfterRetired(old(timers), retired, timers, generation);
    }

    /** Exactly the timers of other generations are left, as they were. */
    static ghost predicate Kept(was: map<nat, Logical>, now: map<nat, Logical>, generation: nat) {
      now.Keys <= was.Keys && forall id | id in was ::
        (id in now <==> was[id].generation != generation) && (id in now ==> now[id] == was[id])
    }

    static ghost predicate KeptHandles(was: map<nat, Handle>, now: map<nat, Handle>, generation: nat) {
      now.Keys <= was.Keys && forall h | h in was ::
        (h in now <==> was[h].generation != generation) && (h in now ==> now[h] == was[h])
    }

    static lemma {:induction false} KeptAfterRetired(was: map<nat, Logical>, retired: map<nat, Logical>,
                                                     now: map<nat, Logical>, generation: nat)
      requires RetiredTimers(was, retired, generation, {}) && Kept(retired, now, generation)
      ensures Kept(was, now, generation)
    {
    }

    /** A timer out of its heap, cancelled and off its handle. */
    static function RetiredTimer(t: Logical): Logical {
      Stopped(t).(handle := None)
    }

    static ghost predicate RetiredTimers(was: map<nat, Logical>, now: map<nat, Logical>, generation: nat,
                                         rest: set<nat>) {
      now.Keys == was.Keys
      && forall k | k in was ::
           now[k] == if was[k].generation == generation && k !in rest then RetiredTimer(was[k]) else was[k]
    }

    /** Handles of other generations stay as they are. */
    static ghost predicate OtherHandles(was: map<nat, Handle>, now: map<nat, Handle>, generation: nat) {
      now.Keys == was.Keys
      && forall h | h in was ::
           now[h].generation == was[h].generation && (was[h].generation != generation ==> now[h] == was[h])
    }

    /** First pass: out of the heaps, cancelled, and detached from handles. */
    method Retire(generation: nat)
      requires Valid() && Running() == map[]
      modifies this`timers, this`monotonic, this`realtime, this`handles
      ensures Valid() && Running() == map[] && RetiredTimers(old(timers), timers, generation, {})
      ensures OtherHandles(old(handles), handles, generation)
    {
      hide InHeaps, Handled, Accounted, Sane, RunningOf, RetiredTimer, OtherHandles;
      SameHandles(handles, generation);
      var rest := linked;
      while rest != {}
        invariant Valid() && Running() == map[] && rest <= timers.Keys
        invariant RetiredTimers(old(timers), timers, generation, rest)
        invariant OtherHandles(old(handles), handles, generation)
        decreases |rest|
      {
        var id :| id in rest;
        rest := rest - {id};
        if timers[id].generation == generation {
          ghost var before := handles;
          RetireTimer(id);
          HandlesThen(old(handles), before, handles, generation);
        }
      }
    }

    static lemma {:induction false} SameHandles(handles: map<nat, Handle>, generation: nat)
      ensures OtherHandles(handles, handles, generation)
    {
    }

    static lemma {:induction false} HandlesThen(a: map<nat, Handle>, b: map<nat, Handle>, c: map<nat, Handle>,
                                                generation: nat)
      requires OtherHandles(a, b, generation) && OtherHandles(b, c, generation)
      ensures OtherHandles(a, c, generation)
    {
    }

    method RetireTimer(id: nat)
      requires Valid() && id in timers
      modifies this`timers, this`monotonic, this`realtime, this`handles
      ensures Valid() && Running() == old(Running())
      ensures timers == old(timers)[id := RetiredTimer(old(timers[id]))] && timers.Keys == old(timers.Keys)
      ensures OtherHandles(old(handles), handles, old(timers[id]).generation)
    {
      hide Valid, RunningOf, OtherHandles;
      SameHandles(handles, timers[id].generation);
      UpdateTwice(timers, id, Stopped(timers[id]), RetiredTimer(timers[id]));
      Stop(id);
      LiveTimer(id);
      if timers[id].handle.Some? {
        DetachedHandles(handles, timers[id].handle.value, timers[id].generation);
        Detach(timers[id].handle.value, id);
      }
    }

    static lemma {:induction false} DetachedHandles(handles: map<nat, Handle>, h: nat, generation: nat)
      requires h in handles && handles[h].generation == generation
      ensures OtherHandles(handles, handles[h := handles[h].(timer := None)], generation)
    {
    }

    /** Closing Lua finalizes every handle of the generation; detached ones do nothing. */
    method CloseLua(generation: nat)
      requires Valid() && forall id | id in timers && timers[id].generation == generation :: timers[id].handle == None
      modifies this`handles
      ensures Valid() && KeptHandles(old(handles), handles, generation)
    {
      var gone := set h | h in handles && handles[h].generation == generation;
      forall h | h in gone
        ensures handles[h].timer == None
      {
        KnownHandle(h);
        if handles[h].timer.Some? {
          LiveTimer(handles[h].timer.value);
        }
      }
      hide Valid;
      Forget(gone);
    }

    method FreeAll(generation: nat)
      requires Valid() && Running() == map[]
      requires forall id | id in timers && timers[id].generation == generation ::
        !timers[id].active && timers[id].handle == None
      modifies this`timers, this`linked, this`Freed
      ensures Valid() && Running() == map[]
      ensures Kept(old(timers), timers, generation) && Freed == old(Freed) + (old(timers).Keys - timers.Keys)
    {
      hide InHeaps, Handled, Accounted, Sane;
      var rest := linked;
      while rest != {}
        invariant Valid() && Running() == map[] && rest <= timers.Keys <= old(timers).Keys
        invariant Freed == old(Freed) + (old(timers).Keys - timers.Keys)
        invariant forall id | id in timers :: timers[id] == old(timers)[id]
        invariant forall id | id in old(timers) :: id in timers <==>
          old(timers)[id].generation != generation || id in rest
        decreases |rest|
      {
        var id :| id in rest;
        rest := rest - {id};
        if timers[id].generation == generation {
          assert timers[id].running ==> id in Running();
          Unlink(id);
        }
      }
    }
  }

  lemma {:induction false} RunningSet(timers: map<nat, Logical>, id: nat, t: Logical)
    requires id in timers
    ensures RunningOf(timers[id := t]) == if t.running then RunningOf(timers)[id := KindOf(t)]
      else RunningOf(timers) - {id}
  {
  }

  function NewTimer(block: nat, generation: nat, onRealtime: bool, repeats: bool, starts: bool, handle: nat): Logical {
    Logical(block, generation, onRealtime, repeats, starts, false, false, Some(handle))
  }

  /** After activation a timer of the new generation is in its heap, unless it is cancelled or its block is faulted. */
  lemma {:induction false} StartedOrStopped(was: map<nat, Logical>, now: map<nat, Logical>, generation: nat,
                                            refused: set<nat>,
                                            faultedBefore: set<nat>, id: nat)
    requires var troubled := TimerSystem.Troubled(was, generation, refused, {});
             TimerSystem.AllActivated(was, now, generation, refused, {}, troubled - faultedBefore)
    requires id in now && now[id].generation == generation && !now[id].cancelled
    requires now[id].block !in faultedBefore + TimerSystem.Troubled(was, generation, refused, {})
    ensures now[id].active && now[id] == was[id].(active := true)
  {
  }

  /** What the event loop does between callbacks. */
  datatype Event =
    | Notify(script: seq<Act>)
    | Due(id: nat, script: seq<Act>, called: bool, fits: bool)
    | DueRealtime(id: nat, script: seq<Act>, called: bool)
    | Poll(block: nat, fits: bool)
    | Load(generation: nat)
    | Commit(generation: nat, refused: set<nat>)
    | Retirement(generation: nat)

  /**
   Any run, whatever generations come and go: each timer ever made is either live or released, never both,
   and nothing released is referenced. A timer called is a repeating one or is never called again.
   */
  method Run(system: TimerSystem, events: seq<Event>)
    requires system.Valid() && system.RanOnce() && system.Running() == map[]
    requires forall e | e in events && (e.Notify? || e.Due? || e.DueRealtime?) :: TimerSystem.GoodScript(e.script)
    modifies system
    ensures system.Valid() && system.Running() == map[] && old(system.Freed) <= system.Freed
    ensures forall id | 0 <= id < system.nextId :: id in system.timers <==> id !in system.Freed
    ensures system.RanOnce() && old(system.Ran) <= system.Ran
    // The callback of a one-shot or realtime timer runs at most once, and the timer is released after it.
    ensures forall i, j | 0 <= i < j < |system.Ran| && system.Ran[i].timer == system.Ran[j].timer ::
      CallsAgain(system.Ran[i].kind) && system.Ran[i].kind == system.Ran[j].kind
    ensures forall i | 0 <= i < |system.Ran| && !CallsAgain(system.Ran[i].kind) ::
      system.Ran[i].timer in system.Freed
  {
    hide TimerSystem.GoodScript, RunningOf, InHeaps, Handled, Sane;
    for i := 0 to |events|
      invariant system.Valid() && system.Running() == map[] && old(system.Freed) <= system.Freed
      invariant system.RanOnce() && old(system.Ran) <= system.Ran
    {
      Turn(system, events[i]);
    }
  }

  method Turn(system: TimerSystem, event: Event)
    requires system.Valid() && system.RanOnce() && system.Running() == map[]
    requires event.Notify? || event.Due? || event.DueRealtime? ==> TimerSystem.GoodScript(event.script)
    modifies system
    ensures system.Valid() && system.Running() == map[] && old(system.Freed) <= system.Freed
    ensures system.RanOnce() && old(system.Ran) <= system.Ran
    // Only committing a configuration changes which timers count, and only to those of that configuration.
    ensures system.current == if event.Commit? then Some(event.generation) else old(system.current)
  {
    hide TimerSystem.GoodScript, TimerSystem.Valid, RunningOf, Follows, CalledOnce, TimerSystem.FaultsOnce,
         TimerSystem.AllActivated, TimerSystem.Troubled, TimerSystem.Kept, TimerSystem.KeptHandles,
         TimerSystem.FaultedTimers;
    ghost var was, next, ran := system.timers, system.nextId, system.Ran;
    match event
    case Notify(script) =>
      system.Callback(script);
      CallsFollow(ran, was, next, system.timers, system.nextId);
    case Due(id, script, called, fits) =>
      if id in system.monotonic {
        system.Fire(id, script, called, fits);
      }
    case DueRealtime(id, script, called) =>
      if id in system.realtime {
        system.FireRealtime(id, script, called);
      }
    case Poll(block, fits) =>
      var ok := system.AddPollTimer(block, fits);
      FollowsAt(was, next, system.timers, next);
      CallsFollow(ran, was, next, system.timers, system.nextId);
      if !ok {
        ghost var before, faulted := system.timers, system.faulted;
        system.FaultBlock(block);
        TimerSystem.FaultFollows(before, system.nextId, system.timers, block, faulted);
        CallsFollow(ran, before, system.nextId, system.timers, system.nextId);
      }
    case Load(generation) => system.Stage(generation);
    case Commit(generation, refused) =>
      ghost var faulted := system.faulted;
      system.Activate(generation, refused);
      ActivatedFollow(was, next, system.timers, generation, refused,
                      TimerSystem.Troubled(was, generation, refused, {}) - faulted);
      CallsFollow(ran, was, next, system.timers, system.nextId);
    case Retirement(generation) =>
      system.Destroy(generation);
      KeptFollow(was, next, system.timers, generation);
      CallsFollow(ran, was, next, system.timers, system.nextId);
  }

  lemma {:induction false} ActivatedFollow(was: map<nat, Logical>, nextId: nat, now: map<nat, Logical>,
                                           generation: nat, refused: set<nat>, stopped: set<nat>)
    requires TimerSystem.AllActivated(was, now, generation, refused, {}, stopped)
    ensures Follows(was, nextId, now)
  {
  }

  lemma {:induction false} KeptFollow(was: map<nat, Logical>, nextId: nat, now: map<nat, Logical>, generation: nat)
    requires TimerSystem.Kept(was, now, generation)
    ensures Follows(was, nextId, now)
  {
  }
}
