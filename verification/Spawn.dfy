/**
 Spawned children in eight slots. A child's callback runs when its pipe is closed and it is reaped; the
 slot is released before the callback, which may open and cancel other children. Serials tell a child
 from a later one in the same slot.
 */
module Spawns {
  import opened Bytes
  import opened Items

  const MAX_SPAWNS: nat := 8
  const READ_BUDGET: nat := 65536
  const EXEC_FAILED: int := 0x7F00

  datatype Slot = Slot(active: bool, serial: nat, block: nat, pid: nat, reading: bool, limit: nat, deadline: nat,
                       status: int, output: Bytes, outputClosed: bool, exited: bool, overflow: bool, ioError: bool,
                       timedOut: bool, finishPending: bool)

  const FREE := Slot(false, 0, 0, 0, false, 0, 0, 0, [], false, false, false, false, false, false)

  /** What a callback is told. */
  datatype Completion = Completion(serial: nat, stdout: Bytes, overflow: bool, ioError: bool, timedOut: bool,
                                   status: int)

  datatype Opening = SetupFails | ExecFails | Unwatchable(pid: nat) | Started(pid: nat)

  datatype ReadResult = Data(bytes: Bytes) | End | Failed | Interrupted | Again

  /** What a callback does to the table. */
  datatype Act =
    | Spawn(block: nat, limit: nat, deadline: nat, opening: Opening)
    | CancelSerial(serial: nat)
    | CancelBlock(block: nat)

  function First(bytes: Bytes, limit: nat): Bytes {
    if |bytes| <= limit then bytes else bytes[..limit]
  }

  /** Where a child is, or how it ended: reported to its callback, stopped, or nobody left to tell. */
  datatype Fate = InSlot(index: nat) | Reported | Stopped | Unheard

  /** What has ended stays as it ended. */
  ghost predicate Advances(was: map<nat, Fate>, now: map<nat, Fate>) {
    forall n | n in was :: n in now && (!was[n].InSlot? ==> now[n] == was[n])
  }

  lemma {:induction false} AdvancesStart(fates: map<nat, Fate>)
    ensures Advances(fates, fates)
  {
  }

  lemma {:induction false} AdvancesThen(a: map<nat, Fate>, b: map<nat, Fate>, c: map<nat, Fate>)
    requires Advances(a, b) && Advances(b, c)
    ensures Advances(a, c)
  {
  }

  /** What was read of a child stays read. */
  ghost predicate Keeps(was: map<nat, Bytes>, now: map<nat, Bytes>) {
    forall n | n in was :: n in now && now[n] == was[n]
  }

  lemma {:induction false} KeepsThen(a: map<nat, Bytes>, b: map<nat, Bytes>, c: map<nat, Bytes>)
    requires Keeps(a, b) && Keeps(b, c)
    ensures Keeps(a, c)
  {
  }

  /** More of one child was read, and nothing more of any other. */
  ghost predicate ReadsMore(was: map<nat, Bytes>, now: map<nat, Bytes>, serial: nat, more: Bytes) {
    && serial in was && serial in now && now[serial] == was[serial] + more
    && forall n | n in was && n != serial :: n in now && now[n] == was[n]
  }

  lemma {:induction false} ReadsMoreThen(a: map<nat, Bytes>, b: map<nat, Bytes>, c: map<nat, Bytes>, serial: nat,
                                         more: Bytes)
    requires ReadsMore(a, b, serial, more) && Keeps(b, c)
    ensures ReadsMore(a, c, serial, more)
  {
  }

  // ---- One slot ----

  predicate Complete(s: Slot) {
    s.active && s.outputClosed && s.exited
  }

  predicate OutOfTime(s: Slot, now: nat) {
    s.active && !s.finishPending && 0 < s.deadline <= now
  }

  /** A child just opened: running, or complete at once because its exec failed. */
  function Opened(serial: nat, block: nat, limit: nat, deadline: nat, opening: Opening): Slot {
    var slot := FREE.(active := true, serial := serial, block := block, limit := limit);
    match opening
    case Started(pid) => slot.(pid := pid, deadline := deadline, reading := true)
    case _ => slot.(status := EXEC_FAILED, exited := true, outputClosed := true, finishPending := true)
  }

  /** More output: its first bytes up to the limit are kept, and the rest only noticed. */
  function WithRead(s: Slot, before: Bytes, more: Bytes): Slot {
    s.(output := First(before + more, s.limit), overflow := |before + more| > s.limit)
  }

  /** The output is over; an error and a deadline leave their marks. */
  function ClosedSlot(s: Slot, failed: bool, timedOut: bool): Slot {
    s.(reading := false, outputClosed := true, ioError := s.ioError || failed,
       timedOut := s.timedOut || timedOut, deadline := if timedOut then 0 else s.deadline)
  }

  function ReapedSlot(s: Slot, status: int): Slot {
    s.(pid := 0, status := status, exited := true)
  }

  function Freed(s: Slot): Slot {
    s.(active := false, pid := 0, reading := false, finishPending := false, output := [])
  }

  function Report(s: Slot): Completion {
    Completion(s.serial, s.output, s.overflow, s.ioError, s.timedOut, s.status)
  }

  /** The slot the next child goes to. */
  function FirstFree(slots: seq<Slot>): (index: nat)
    ensures index <= |slots| && (index < |slots| ==> !slots[index].active)
    ensures forall i | 0 <= i < index :: slots[i].active
  {
    if slots == [] then 0
    else
      var index := FirstFree(slots[..|slots| - 1]);
      if index == |slots| - 1 && slots[index].active then index + 1 else index
  }

  /** However the reads are cut, what is kept is the first bytes of the whole output. */
  lemma {:induction false} Captured(read: Bytes, more: Bytes, limit: nat)
    ensures var kept := First(read, limit);
            var retained := if |more| < limit - |kept| then |more| else limit - |kept|;
            && |kept| <= limit && kept + more[..retained] == First(read + more, limit)
            && (|read| > limit || |more| > retained <==> |read + more| > limit)
  {
  }

  /** The bytes of a run of reads. */
  ghost function DataOf(results: seq<ReadResult>): Bytes {
    if results == [] then []
    else
      var last := results[|results| - 1];
      DataOf(results[..|results| - 1]) + if last.Data? then last.bytes else []
  }

  /** Whether a run of reads came to the end of the pipe, or failed. */
  predicate Ends(results: seq<ReadResult>) {
    results != [] && results[|results| - 1] in {End, Failed}
  }

  /** Reading goes on until the pipe blocks, ends or fails, or the budget is used. */
  ghost predicate ReadsOn(results: seq<ReadResult>, taken: nat) {
    && taken <= |results| && (forall k | 0 <= k < taken - 1 :: results[k].Data? || results[k].Interrupted?)
    && (taken < |results| ==>
          || (taken > 0 && results[taken - 1] in {Again, End, Failed})
          || |DataOf(results[..taken])| >= READ_BUDGET)
  }

  // ---- The table's invariant, on values ----

  /** Captured output is a prefix of what was read; the pipe is open until the output is closed. */
  ghost predicate GoodSlot(s: Slot, input: map<nat, Bytes>, limits: map<nat, nat>) {
    s.active ==>
      && s.serial in input && s.serial in limits && s.limit == limits[s.serial]
      && s.output == First(input[s.serial], s.limit) && (s.overflow <==> |input[s.serial]| > s.limit)
      && (s.reading <==> !s.outputClosed) && (s.pid > 0 ==> !s.exited)
      && (s.finishPending ==> s.outputClosed && s.exited)
  }

  ghost predicate GoodSlots(slots: seq<Slot>, input: map<nat, Bytes>, limits: map<nat, nat>) {
    |slots| == MAX_SPAWNS && forall i | 0 <= i < |slots| :: GoodSlot(slots[i], input, limits)
  }

  /** Only a child that never ran waits, complete, for the event loop. */
  predicate Waits(s: Slot) {
    Complete(s) ==> s.finishPending
  }

  ghost predicate AllWait(slots: seq<Slot>, except: nat) {
    forall i | 0 <= i < |slots| && i != except :: Waits(slots[i])
  }

  /** Serials name slots one to one, and every serial has one fate. */
  ghost predicate GoodFates(slots: seq<Slot>, fates: map<nat, Fate>, lastSerial: nat) {
    && (forall i | 0 <= i < |slots| && slots[i].active ::
          slots[i].serial in fates && fates[slots[i].serial] == InSlot(i))
    && (forall n | n in fates && fates[n].InSlot? ::
          fates[n].index < |slots| && slots[fates[n].index].active && slots[fates[n].index].serial == n)
    && forall n | n in fates :: 0 < n <= lastSerial
  }

  /** What a callback was told of its child's output: the first bytes of all that was read. */
  ghost predicate Told(c: Completion, input: map<nat, Bytes>, limits: map<nat, nat>) {
    && c.serial in input && c.serial in limits
    && c.stdout == First(input[c.serial], limits[c.serial])
    && (c.overflow <==> |input[c.serial]| > limits[c.serial])
  }

  /** Every report is of a child whose fate it is, once, and tells the truth about its output. */
  ghost predicate GoodLog(log: seq<Completion>, fates: map<nat, Fate>, input: map<nat, Bytes>, limits: map<nat, nat>) {
    && (forall k | 0 <= k < |log| ::
          log[k].serial in fates && fates[log[k].serial] == Reported && Told(log[k], input, limits))
    && forall i, j | 0 <= i < j < |log| :: log[i].serial != log[j].serial
  }

  lemma {:induction false} SlotsSet(slots: seq<Slot>, input: map<nat, Bytes>, limits: map<nat, nat>, index: nat,
                                    s: Slot)
    requires GoodSlots(slots, input, limits) && index < MAX_SPAWNS && GoodSlot(s, input, limits)
    ensures GoodSlots(slots[index := s], input, limits)
  {
    hide GoodSlot;
  }

  lemma {:induction false} WaitSet(slots: seq<Slot>, index: nat, s: Slot)
    requires AllWait(slots, index) && index < |slots|
    ensures AllWait(slots[index := s], index)
    ensures Waits(s) ==> AllWait(slots[index := s], MAX_SPAWNS)
  {
    hide Waits;
  }

  /** A new serial's first output, and nobody else's. */
  lemma {:induction false} SlotsEnter(slots: seq<Slot>, fates: map<nat, Fate>, lastSerial: nat, input: map<nat, Bytes>,
                                      limits: map<nat, nat>, serial: nat, limit: nat)
    requires GoodSlots(slots, input, limits) && GoodFates(slots, fates, lastSerial) && serial !in fates
    ensures GoodSlots(slots, input[serial := []], limits[serial := limit])
  {
    forall i | 0 <= i < |slots|
      ensures GoodSlot(slots[i], input[serial := []], limits[serial := limit])
    {
      assert slots[i].active ==> slots[i].serial in fates;
    }
  }

  lemma {:induction false} FatesEnter(slots: seq<Slot>, fates: map<nat, Fate>, serial: nat, index: nat, s: Slot)
    requires GoodFates(slots, fates, serial) && index < |slots| && !slots[index].active && serial > 0
    requires serial !in fates
    requires s.active && s.serial == serial
    ensures GoodFates(slots[index := s], fates[serial := InSlot(index)], serial)
  {
  }

  lemma {:induction false} FatesKeep(slots: seq<Slot>, fates: map<nat, Fate>, lastSerial: nat, index: nat, s: Slot)
    requires GoodFates(slots, fates, lastSerial) && index < |slots| && slots[index].active && s.active
    requires s.serial == slots[index].serial
    ensures GoodFates(slots[index := s], fates, lastSerial)
  {
  }

  lemma {:induction false} FatesLeave(slots: seq<Slot>, fates: map<nat, Fate>, lastSerial: nat, index: nat, s: Slot,
                                      fate: Fate)
    requires GoodFates(slots, fates, lastSerial) && index < |slots| && slots[index].active && !s.active && !fate.InSlot?
    ensures GoodFates(slots[index := s], fates[slots[index].serial := fate], lastSerial)
    ensures slots[index].serial in fates && fates[slots[index].serial] == InSlot(index)
  {
  }

  /** Nothing reported is touched when a new child, or one still in its slot, changes. */
  lemma {:induction false} LogKeeps(log: seq<Completion>, fates: map<nat, Fate>, input: map<nat, Bytes>,
                                    limits: map<nat, nat>,
                                    serial: nat, fate: Fate, read: Bytes, limit: nat)
    requires GoodLog(log, fates, input, limits) && (serial in fates ==> fates[serial].InSlot?)
    ensures GoodLog(log, fates[serial := fate], input[serial := read], limits[serial := limit])
  {
  }

  lemma {:induction false} LogGrows(log: seq<Completion>, fates: map<nat, Fate>, input: map<nat, Bytes>,
                                    limits: map<nat, nat>,
                                    c: Completion)
    requires GoodLog(log, fates, input, limits) && c.serial in fates && fates[c.serial].InSlot?
    requires Told(c, input, limits)
    ensures GoodLog(log + [c], fates[c.serial := Reported], input, limits)
  {
    hide Told;
  }

  // ---- The table ----

  class SpawnTable {
    var slots: seq<Slot>
    var lastSerial: nat
    var log: seq<Completion>

    // What each child wrote that was read, how much of it was asked for, and the fate of every serial.
    ghost var Reads: map<nat, Bytes>
    ghost var Limits: map<nat, nat>
    ghost var Fates: map<nat, Fate>

    /** Valid but for one slot that may just have become complete. */
    ghost predicate ValidBut(index: nat)
      reads this
    {
      && GoodSlots(slots, Reads, Limits) && AllWait(slots, index) && GoodFates(slots, Fates, lastSerial)
      && Reads.Keys == Limits.Keys == Fates.Keys && GoodLog(log, Fates, Reads, Limits)
    }

    ghost predicate Valid()
      reads this
    {
      ValidBut(MAX_SPAWNS)
    }

    constructor ()
      ensures Valid() && log == [] && Fates == map[] && lastSerial == 0
    {
      slots := seq(MAX_SPAWNS, _ => FREE);
      lastSerial, log, Reads, Limits, Fates := 0, [], map[], map[], map[];
    }

    lemma {:induction false} InFates(index: nat)
      requires GoodFates(slots, Fates, lastSerial) && index < |slots| && slots[index].active
      ensures slots[index].serial in Fates && Fates[slots[index].serial] == InSlot(index)
    {
    }

    // ---- Opening ----

    /** Opening a child in the first free slot; a failed start may be retried, a failed exec completes later. */
    method Open(block: nat, limit: nat, deadline: nat, opening: Opening) returns (ok: bool)
      requires Valid()
      modifies this`slots, this`lastSerial, this`Reads, this`Limits, this`Fates
      ensures Valid() && lastSerial == old(lastSerial) + 1 && lastSerial !in old(Fates)
      ensures Advances(old(Fates), Fates) && Keeps(old(Reads), Reads)
      ensures ok <==> FirstFree(old(slots)) < MAX_SPAWNS && (opening.Started? || opening.ExecFails?)
      ensures ok ==>
        && slots == old(slots)[FirstFree(old(slots)) := Opened(lastSerial, block, limit, deadline, opening)]
        && Fates == old(Fates)[lastSerial := InSlot(FirstFree(old(slots)))]
        && Reads == old(Reads)[lastSerial := []] && Limits == old(Limits)[lastSerial := limit]
      ensures !ok ==> slots == old(slots) && Fates == old(Fates) && Reads == old(Reads) && Limits == old(Limits)
    {
      hide GoodSlots, GoodLog, AllWait, FirstFree;
      TakeSerial();
      var index := 0;
      while index < MAX_SPAWNS && slots[index].active
        invariant index <= MAX_SPAWNS && forall i | 0 <= i < index :: slots[i].active
      {
        index := index + 1;
      }
      assert index == FirstFree(slots);
      if index == MAX_SPAWNS || opening.SetupFails? || opening.Unwatchable? {
        // A child that started but cannot be watched is killed, and its slot is free again.
        return false;
      }
      Enter(index, Opened(lastSerial, block, limit, deadline, opening));
      return true;
    }

    /** A new serial was never used before. */
    method TakeSerial()
      requires Valid()
      modifies this`lastSerial
      ensures Valid() && lastSerial == old(lastSerial) + 1 && lastSerial !in Fates && |slots| == MAX_SPAWNS
    {
      lastSerial := lastSerial + 1;
    }

    method Enter(index: nat, s: Slot)
      requires Valid() && index < MAX_SPAWNS && !slots[index].active && lastSerial > 0 && lastSerial !in Fates
      requires s.serial == lastSerial && GoodSlot(s, map[lastSerial := []], map[lastSerial := s.limit]) && s.active
      requires Waits(s)
      modifies this`slots, this`Reads, this`Limits, this`Fates
      ensures Valid() && slots == old(slots)[index := s] && Fates == old(Fates)[lastSerial := InSlot(index)]
      ensures Reads == old(Reads)[lastSerial := []] && Limits == old(Limits)[lastSerial := s.limit]
      ensures Keeps(old(Reads), Reads) && Advances(old(Fates), Fates)
    {
      hide GoodFates, GoodSlots, GoodLog;
      SlotsEnter(slots, Fates, lastSerial, Reads, Limits, lastSerial, s.limit);
      FatesEnter(slots, Fates, lastSerial, index, s);
      LogKeeps(log, Fates, Reads, Limits, lastSerial, InSlot(index), [], s.limit);
      Loosen(index);
      WaitSet(slots, index, s);
      Reads, Limits := Reads[s.serial := []], Limits[s.serial := s.limit];
      assert GoodSlot(s, Reads, Limits);
      hide GoodSlots, GoodSlot, GoodFates, GoodLog, AllWait, Waits;
      SlotsSet(slots, Reads, Limits, index, s);
      slots := slots[index := s];
      Fates := Fates[s.serial := InSlot(index)];
    }

    lemma {:induction false} Loosen(index: nat)
      requires Valid()
      ensures ValidBut(index)
    {
    }

    lemma {:induction false} Tighten(index: nat)
      requires ValidBut(index) && (index < |slots| ==> Waits(slots[index]))
      ensures Valid()
    {
    }

    // ---- Ending ----

    /** Freeing a slot; its serial gets its final fate. */
    method Release(index: nat, fate: Fate)
      requires index < MAX_SPAWNS && ValidBut(index) && slots[index].active && (fate == Stopped || fate == Unheard)
      modifies this`slots, this`Fates
      ensures Valid() && slots == old(slots)[index := Freed(old(slots[index]))]
      ensures Fates == old(Fates)[old(slots[index].serial) := fate] && Advances(old(Fates), Fates)
      ensures old(slots[index].serial) in old(Fates) && old(Fates)[old(slots[index].serial)] == InSlot(index)
    {
      var s := slots[index];
      FatesLeave(slots, Fates, lastSerial, index, Freed(s), fate);
      LogKeeps(log, Fates, Reads, Limits, s.serial, fate, Reads[s.serial], Limits[s.serial]);
      SlotsSet(slots, Reads, Limits, index, Freed(s));
      WaitSet(slots, index, Freed(s));
      hide GoodSlots, GoodFates, GoodLog, AllWait;
      assert Reads[s.serial := Reads[s.serial]] == Reads && Limits[s.serial := Limits[s.serial]] == Limits;
      slots := slots[index := Freed(s)];
      Fates := Fates[s.serial := fate];
    }

    /** Freeing the slot of a complete child whose callback is about to run. */
    method ReleaseReported(index: nat)
      requires index < MAX_SPAWNS && ValidBut(index) && Complete(slots[index])
      modifies this`slots, this`Fates, this`log
      ensures Valid() && log == old(log) + [Report(old(slots[index]))]
      ensures slots == old(slots)[index := Freed(old(slots[index]))]
      ensures Fates == old(Fates)[old(slots[index].serial) := Reported] && Advances(old(Fates), Fates)
    {
      var s := slots[index];
      assert GoodSlot(s, Reads, Limits);
      FatesLeave(slots, Fates, lastSerial, index, Freed(s), Reported);
      LogGrows(log, Fates, Reads, Limits, Report(s));
      SlotsSet(slots, Reads, Limits, index, Freed(s));
      WaitSet(slots, index, Freed(s));
      hide GoodSlots, GoodFates, GoodLog, AllWait;
      slots := slots[index := Freed(s)];
      Fates := Fates[s.serial := Reported];
      log := log + [Report(s)];
    }

    /** Cancelling kills the child, if it still runs, and frees its slot without a callback. */
    method Cancel(index: nat)
      requires Valid() && index < MAX_SPAWNS && slots[index].active
      modifies this`slots, this`Fates
      ensures Valid() && slots == old(slots)[index := Freed(old(slots[index]))]
      ensures Fates == old(Fates)[old(slots[index].serial) := Stopped] && Advances(old(Fates), Fates)
      ensures old(slots[index].serial) in old(Fates) && old(Fates)[old(slots[index].serial)] == InSlot(index)
    {
      Loosen(index);
      hide ValidBut;
      Release(index, Stopped);
    }

    /** A handle cancels the child it was made for and no other; a stale handle cancels nothing. */
    method CancelSerial(serial: nat)
      requires Valid()
      modifies this`slots, this`Fates
      ensures Valid() && Advances(old(Fates), Fates)
      ensures if serial in old(Fates) && old(Fates)[serial].InSlot? then
                && old(Fates)[serial].index < MAX_SPAWNS
                && slots == old(slots)[old(Fates)[serial].index := Freed(old(slots)[old(Fates)[serial].index])]
                && Fates == old(Fates)[serial := Stopped]
              else Fates == old(Fates) && slots == old(slots)
    {
      hide GoodLog, AllWait, GoodSlot;
      for index := 0 to MAX_SPAWNS
        invariant Valid() && slots == old(slots) && Fates == old(Fates)
        invariant forall i | 0 <= i < index :: !(slots[i].active && slots[i].serial == serial)
      {
        if slots[index].active && slots[index].serial == serial {
          hide GoodSlots, GoodFates;
          Cancel(index);
          return;
        }
      }
    }

    /** Cancelling exactly the children of a block or of a generation. */
    method CancelOwned(owned: nat -> bool)
      requires Valid()
      modifies this`slots, this`Fates
      ensures Valid() && Advances(old(Fates), Fates)
      ensures forall i | 0 <= i < MAX_SPAWNS ::
                slots[i] == if old(slots[i].active) && owned(old(slots[i].block)) then Freed(old(slots[i]))
                else old(slots[i])
      ensures forall n | n in Fates ::
        n in old(Fates) && (Fates[n] == old(Fates)[n] || (Fates[n] == Stopped && old(Fates)[n].InSlot?))
    {
      hide GoodFates, GoodLog, AllWait, GoodSlot, Advances, Freed;
      AdvancesStart(Fates);
      for index := 0 to MAX_SPAWNS
        invariant Valid() && Advances(old(Fates), Fates)
        invariant forall i | 0 <= i < MAX_SPAWNS ::
                    slots[i] == if i < index && old(slots[i].active) && owned(old(slots[i].block))
                                then Freed(old(slots[i]))
                                else old(slots[i])
        invariant forall n | n in Fates ::
                    n in old(Fates) && (Fates[n] == old(Fates)[n] || (Fates[n] == Stopped && old(Fates)[n].InSlot?))
      {
        if slots[index].active && owned(slots[index].block) {
          ghost var before := Fates;
          Cancel(index);
          AdvancesThen(old(Fates), before, Fates);
        }
      }
    }

    // ---- Callbacks ----

    /** What a callback may do: it never ends in another callback. */
    method Perform(act: Act)
      requires Valid()
      modifies this`slots, this`lastSerial, this`Reads, this`Limits, this`Fates
      ensures Valid() && Advances(old(Fates), Fates) && Keeps(old(Reads), Reads)
    {
      hide ValidBut, Advances;
      match act
      case Spawn(block, limit, deadline, opening) =>
        var ok := Open(block, limit, deadline, opening);
      case CancelSerial(serial) => CancelSerial(serial);
      case CancelBlock(block) => CancelOwned(b => b == block);
    }

    method Callback(script: seq<Act>)
      requires Valid()
      modifies this`slots, this`lastSerial, this`Reads, this`Limits, this`Fates
      ensures Valid() && Advances(old(Fates), Fates) && Keeps(old(Reads), Reads)
    {
      hide ValidBut, Advances;
      AdvancesStart(Fates);
      for i := 0 to |script|
        invariant Valid() && Advances(old(Fates), Fates) && Keeps(old(Reads), Reads)
      {
        ghost var fates, input := Fates, Reads;
        Perform(script[i]);
        AdvancesThen(old(Fates), fates, Fates);
        KeepsThen(old(Reads), input, Reads);
      }
    }

    /**
     Reporting a child that is complete: its pipe closed and itself reaped. The callback runs if its block
     still counts, after the slot is free; a child not complete is left alone.
     */
    method Finish(index: nat, heard: bool, script: seq<Act>)
      requires index < MAX_SPAWNS && ValidBut(index) && |slots| == MAX_SPAWNS
      modifies this
      ensures Valid() && Advances(old(Fates), Fates) && Keeps(old(Reads), Reads)
      ensures !Complete(old(slots[index])) ==>
        log == old(log) && slots == old(slots) && Fates == old(Fates) && lastSerial == old(lastSerial)
      ensures Complete(old(slots[index])) ==>
        && log == old(log) + (if heard then [Report(old(slots[index]))] else [])
        && old(slots[index].serial) in Fates && Fates[old(slots[index].serial)] == (if heard then Reported else Unheard)
        && (!heard ==> slots == old(slots)[index := Freed(old(slots[index]))] && lastSerial == old(lastSerial))
    {
      var s := slots[index];
      hide ValidBut, Valid, Advances, Freed;
      AdvancesStart(Fates);
      if !s.active || !s.outputClosed || !s.exited {
        Tighten(index);
        return;
      }
      if heard {
        ReleaseReported(index);
        ghost var before := Fates;
        Callback(script);
        AdvancesHas(before, Fates, s.serial);
        AdvancesThen(old(Fates), before, Fates);
      } else {
        Release(index, Unheard);
      }
    }

    static lemma {:induction false} AdvancesHas(was: map<nat, Fate>, now: map<nat, Fate>, n: nat)
      requires Advances(was, now) && n in was && !was[n].InSlot?
      ensures n in now && now[n] == was[n]
    {
    }

    // ---- Child events ----

    /** Changing a slot's state without touching its output. */
    method Change(index: nat, s: Slot)
      requires Valid() && index < MAX_SPAWNS && slots[index].active && s.active
      requires s.serial == slots[index].serial && s.limit == slots[index].limit && s.output == slots[index].output
      requires s.overflow == slots[index].overflow && (s.reading <==> !s.outputClosed) && (s.pid > 0 ==> !s.exited)
      requires s.finishPending ==> s.outputClosed && s.exited
      modifies this`slots
      ensures ValidBut(index) && slots == old(slots)[index := s] && |slots| == MAX_SPAWNS
    {
      Loosen(index);
      assert GoodSlot(slots[index], Reads, Limits);
      FatesKeep(slots, Fates, lastSerial, index, s);
      SlotsSet(slots, Reads, Limits, index, s);
      WaitSet(slots, index, s);
      hide GoodSlot, GoodFates, GoodLog, AllWait;
      slots := slots[index := s];
    }

    /** Reading what the pipe holds, keeping the first bytes up to the limit. */
    method Append(index: nat, bytes: Bytes)
      requires Valid() && index < MAX_SPAWNS && slots[index].active && Waits(slots[index])
      modifies this`slots, this`Reads
      ensures Valid() && old(slots[index].serial) in old(Reads)
      ensures slots == old(slots)[index := WithRead(old(slots[index]), old(Reads)[old(slots[index].serial)], bytes)]
      ensures Reads == old(Reads)[old(slots[index].serial) := old(Reads)[old(slots[index].serial)] + bytes]
    {
      var s := slots[index];
      assert GoodSlot(s, Reads, Limits);
      var available := s.limit - |s.output|;
      var retained := if |bytes| < available then |bytes| else available;
      Captured(Reads[s.serial], bytes, s.limit);
      var overflow := s.overflow || |bytes| > retained;
      assert s.(output := s.output + bytes[..retained], overflow := overflow) == WithRead(s, Reads[s.serial], bytes);
      TakeIn(index, bytes);
      slots := slots[index := s.(output := s.output + bytes[..retained], overflow := overflow)];
      Reads := Reads[s.serial := Reads[s.serial] + bytes];
    }

    /** What was read goes to one slot, and to nothing that was reported. */
    lemma {:induction false} TakeIn(index: nat, bytes: Bytes)
      requires Valid() && index < MAX_SPAWNS && slots[index].active && Waits(slots[index])
      ensures var n := slots[index].serial;
              && n in Reads
              && var input := Reads[n := Reads[n] + bytes];
                 var now := slots[index := WithRead(slots[index], Reads[n], bytes)];
                 && GoodSlots(now, input, Limits) && AllWait(now, MAX_SPAWNS) && GoodFates(now, Fates, lastSerial)
                 && GoodLog(log, Fates, input, Limits) && input.Keys == Reads.Keys
    {
      var s := slots[index];
      assert GoodSlot(s, Reads, Limits);
      InFates(index);
      var input, t := Reads[s.serial := Reads[s.serial] + bytes], WithRead(s, Reads[s.serial], bytes);
      FatesKeep(slots, Fates, lastSerial, index, t);
      LogKeeps(log, Fates, Reads, Limits, s.serial, Fates[s.serial], Reads[s.serial] + bytes, Limits[s.serial]);
      assert Limits[s.serial := Limits[s.serial]] == Limits && Fates[s.serial := Fates[s.serial]] == Fates;
      hide GoodLog, First;
      forall i | 0 <= i < MAX_SPAWNS && i != index
        ensures GoodSlot(slots[i], input, Limits)
      {
        if slots[i].active {
          InFates(i);
        }
      }
      assert GoodSlot(t, input, Limits);
    }

    /** Closing the output, for good or for an error, reports the child if it is already reaped. */
    method CloseOutput(index: nat, failed: bool, timedOut: bool, heard: bool, script: seq<Act>)
      requires Valid() && index < MAX_SPAWNS && |slots| == MAX_SPAWNS && slots[index].active
      requires !slots[index].finishPending
      modifies this
      ensures Valid() && Advances(old(Fates), Fates) && Keeps(old(Reads), Reads)
      ensures log == old(log) + if old(slots[index].exited) && heard
                                then [Report(ClosedSlot(old(slots[index]), failed, timedOut))] else []
      ensures if old(slots[index].exited) then
                old(slots[index].serial) in Fates && Fates[old(slots[index].serial)] == if heard then Reported
                else Unheard
              else slots == old(slots)[index := ClosedSlot(old(slots[index]), failed, timedOut)] && Fates == old(Fates)
    {
      assert GoodSlot(slots[index], Reads, Limits);
      hide ValidBut, Valid, Advances, GoodSlot;
      Change(index, ClosedSlot(slots[index], failed, timedOut));
      Finish(index, heard, script);
    }

    /** One slot has read more, and nothing else has changed. */
    static ghost predicate SoFar(was: seq<Slot>, input: map<nat, Bytes>, index: nat, more: Bytes, now: seq<Slot>,
                                 inputNow: map<nat, Bytes>)
    {
      && index < |was| && was[index].serial in input
      && now == was[index := WithRead(was[index], input[was[index].serial], more)]
      && inputNow == input[was[index].serial := input[was[index].serial] + more]
    }

    static lemma {:induction false} SoFarStart(was: seq<Slot>, input: map<nat, Bytes>, limits: map<nat, nat>,
                                               index: nat)
      requires index < |was| && was[index].active && GoodSlot(was[index], input, limits)
      ensures SoFar(was, input, index, [], was, input)
    {
      var s := was[index];
      assert input[s.serial] + [] == input[s.serial];
      assert WithRead(s, input[s.serial], []) == s;
    }

    static lemma {:induction false} SoFarMore(was: seq<Slot>, input: map<nat, Bytes>, index: nat, more: Bytes,
                                              now: seq<Slot>,
                                              inputNow: map<nat, Bytes>, bytes: Bytes)
      requires SoFar(was, input, index, more, now, inputNow)
      ensures index < |now| && now[index].serial in inputNow && now[index].active == was[index].active
      ensures Waits(now[index]) == Waits(was[index])
      ensures var n := now[index].serial;
              SoFar(was, input, index, more + bytes, now[index := WithRead(now[index], inputNow[n], bytes)],
                    inputNow[n := inputNow[n] + bytes])
    {
      var s := was[index];
      var read := input[s.serial];
      assert (read + more) + bytes == read + (more + bytes);
    }

    /** What reading changed, seen from the slot and from what was read. */
    static lemma {:induction false} SoFarEnd(was: seq<Slot>, input: map<nat, Bytes>, index: nat, more: Bytes,
                                             now: seq<Slot>,
                                             inputNow: map<nat, Bytes>)
      requires SoFar(was, input, index, more, now, inputNow)
      ensures index < |now| == |was| && was[index].serial in input
      ensures now == was[index := now[index]] && now[index] == WithRead(was[index], input[was[index].serial], more)
      ensures now[index].active == was[index].active && now[index].serial == was[index].serial
      ensures now[index].finishPending == was[index].finishPending && now[index].exited == was[index].exited
      ensures ReadsMore(input, inputNow, was[index].serial, more)
    {
    }

    /** Reading until the pipe blocks, ends or fails, or the budget is used up; the end is not acted upon yet. */
    method ReadSome(index: nat, results: seq<ReadResult>) returns (taken: nat)
      requires Valid() && index < |slots| == MAX_SPAWNS && slots[index].active && slots[index].reading
      modifies this`slots, this`Reads
      ensures Valid() && |slots| == MAX_SPAWNS && ReadsOn(results, taken) && !old(slots[index].finishPending)
      ensures SoFar(old(slots), old(Reads), index, DataOf(results[..taken]), slots, Reads)
    {
      hide ValidBut, Valid, GoodSlot, DataOf, SoFar, Waits, WithRead;
      ReadStarts(index);
      NoData(results);
      taken := 0;
      var consumed := 0;
      while consumed < READ_BUDGET && taken < |results|
        invariant taken <= |results| && Valid() && |slots| == MAX_SPAWNS
        invariant SoFar(old(slots), old(Reads), index, DataOf(results[..taken]), slots, Reads)
        invariant consumed == |DataOf(results[..taken])|
        invariant forall k | 0 <= k < taken :: results[k].Data? || results[k].Interrupted?
        decreases |results| - taken
      {
        var result := results[taken];
        ReadStep(results, taken);
        taken := taken + 1;
        match result
        case Data(bytes) =>
          consumed := consumed + |bytes|;
          Absorb(old(slots), old(Reads), index, DataOf(results[..taken - 1]), bytes);
        case Interrupted =>
        case _ => break;
      }
    }

    /** A slot that is reading is not complete, and nothing is read yet. */
    lemma {:induction false} ReadStarts(index: nat)
      requires Valid() && index < |slots| && slots[index].active && slots[index].reading
      ensures SoFar(slots, Reads, index, [], slots, Reads) && Waits(slots[index]) && !slots[index].finishPending
    {
      assert GoodSlot(slots[index], Reads, Limits);
      SoFarStart(slots, Reads, Limits, index);
    }

    /** Data read on top of what was read before. */
    method Absorb(ghost was: seq<Slot>, ghost input: map<nat, Bytes>, index: nat, ghost more: Bytes, bytes: Bytes)
      requires Valid() && |slots| == MAX_SPAWNS && SoFar(was, input, index, more, slots, Reads) && index < |was|
      requires was[index].active && Waits(was[index])
      modifies this`slots, this`Reads
      ensures Valid() && |slots| == MAX_SPAWNS && SoFar(was, input, index, more + bytes, slots, Reads)
    {
      hide ValidBut, Valid, GoodSlot, SoFar, Waits, WithRead;
      SoFarMore(was, input, index, more, slots, Reads, bytes);
      Append(index, bytes);
    }

    static lemma {:induction false} NoData(results: seq<ReadResult>)
      ensures DataOf(results[..0]) == []
    {
    }

    /** One more read result. */
    static lemma {:induction false} ReadStep(results: seq<ReadResult>, taken: nat)
      requires taken < |results|
      ensures DataOf(results[..taken + 1])
           == if results[taken].Data? then DataOf(results[..taken]) + results[taken].bytes else DataOf(results[..taken])
    {
      assert results[..taken + 1][..taken] == results[..taken];
      assert DataOf(results[..taken]) + [] == DataOf(results[..taken]);
    }

    /**
     A readable pipe: data until it blocks, ends or the budget is used up. If it ends the output is closed,
     and the child is reported if it is already reaped.
     */
    method ReadReady(index: nat, results: seq<ReadResult>, heard: bool, script: seq<Act>) returns (taken: nat)
      requires Valid() && index < MAX_SPAWNS && |slots| == MAX_SPAWNS
      modifies this
      ensures Valid() && Advances(old(Fates), Fates) && taken <= |results|
      ensures !old(slots[index].active && slots[index].reading) ==>
        log == old(log) && slots == old(slots) && Fates == old(Fates) && Reads == old(Reads) && taken == 0
      ensures old(slots[index].active && slots[index].reading) ==>
        && ReadsOn(results, taken) && old(slots[index].serial) in old(Reads)
        && ReadsMore(old(Reads), Reads, old(slots[index].serial), DataOf(results[..taken]))
        && var s := WithRead(old(slots[index]), old(Reads)[old(slots[index].serial)], DataOf(results[..taken]));
           if !Ends(results[..taken]) then slots == old(slots)[index := s] && Fates == old(Fates) && log == old(log)
           else
             var closed := ClosedSlot(s, results[taken - 1] == Failed, false);
             if s.exited then
               && log == old(log) + (if heard then [Report(closed)] else [])
               && s.serial in Fates && Fates[s.serial] == if heard then Reported else Unheard
             else slots == old(slots)[index := closed] && Fates == old(Fates) && log == old(log)
    {
      hide Valid;
      AdvancesStart(Fates);
      taken := 0;
      if !slots[index].active || !slots[index].reading {
        return;
      }
      hide ValidBut, Valid, Advances, DataOf, WithRead, ReadsMore, ReadsOn, Keeps, SoFar;
      var s := slots[index];
      taken := ReadSome(index, results);
      SoFarEnd(old(slots), old(Reads), index, DataOf(results[..taken]), slots, Reads);
      if taken > 0 && results[taken - 1] in {End, Failed} {
        assert results[..taken][taken - 1] == results[taken - 1];
        ghost var input := Reads;
        CloseOutput(index, results[taken - 1] == Failed, false, heard, script);
        ReadsMoreThen(old(Reads), input, Reads, s.serial, DataOf(results[..taken]));
      }
    }

    /** The first slot that runs the child of a process id, or one past the last slot. */
    static function Runner(slots: seq<Slot>, pid: nat): (index: nat)
      ensures index <= |slots| && (index < |slots| ==> slots[index].active && slots[index].pid == pid)
      ensures forall i | 0 <= i < index :: !(slots[i].active && slots[i].pid == pid)
    {
      if slots == [] then 0
      else
        var index := Runner(slots[..|slots| - 1], pid);
        var last := slots[|slots| - 1];
        if index == |slots| - 1 && !(last.active && last.pid == pid) then index + 1 else index
    }

    /**
     A reaped child: the slot that runs it, if any still does, remembers its status, and the child is
     reported if and only if its pipe is closed already.
     */
    method Reaped(pid: nat, status: int, heard: bool, script: seq<Act>)
      requires Valid() && pid > 0 && |slots| == MAX_SPAWNS
      modifies this
      ensures Valid() && Advances(old(Fates), Fates) && Keeps(old(Reads), Reads)
      ensures var i := Runner(old(slots), pid);
              if i == MAX_SPAWNS then log == old(log) && slots == old(slots) && Fates == old(Fates)
              else
                var s := ReapedSlot(old(slots)[i], status);
                if s.outputClosed then
                  && log == old(log) + (if heard then [Report(s)] else [])
                  && s.serial in Fates && Fates[s.serial] == if heard then Reported else Unheard
                else log == old(log) && slots == old(slots)[i := s] && Fates == old(Fates)
    {
      AdvancesStart(Fates);
      hide Advances, Runner;
      for index := 0 to MAX_SPAWNS
        invariant Valid() && slots == old(slots) && Fates == old(Fates) && log == old(log) && Reads == old(Reads)
        invariant forall i | 0 <= i < index :: !(slots[i].active && slots[i].pid == pid)
      {
        if slots[index].active && slots[index].pid == pid {
          var s := slots[index];
          assert GoodSlot(s, Reads, Limits);
          hide ValidBut, Valid, GoodSlot;
          assert index == Runner(old(slots), pid);
          Change(index, ReapedSlot(s, status));
          Finish(index, heard, script);
          return;
        }
      }
    }

    /** One slot at a deadline check: a failed exec completes, and a child out of time is killed. */
    method ExpireSlot(index: nat, now: nat, heard: bool, script: seq<Act>)
      requires Valid() && index < MAX_SPAWNS && |slots| == MAX_SPAWNS
      modifies this
      ensures Valid() && Advances(old(Fates), Fates) && Keeps(old(Reads), Reads) && |slots| == MAX_SPAWNS
      ensures var s := old(slots[index]);
              if s.active && s.finishPending then
                && log == old(log) + (if heard then [Report(s)] else [])
                && s.serial in Fates && Fates[s.serial] == if heard then Reported else Unheard
              else if OutOfTime(s, now) && s.exited then
                && log == old(log) + (if heard then [Report(ClosedSlot(s, false, true))] else [])
                && s.serial in Fates && Fates[s.serial] == if heard then Reported else Unheard
              else
                && log == old(log) && Fates == old(Fates)
                && slots == if OutOfTime(s, now) then old(slots)[index := ClosedSlot(s, false, true)] else old(slots)
    {
      AdvancesStart(Fates);
      var s := slots[index];
      assert GoodSlot(s, Reads, Limits);
      hide ValidBut, Valid, GoodSlot, Advances;
      if s.active {
        if s.finishPending {
          Change(index, s.(finishPending := false));
          Finish(index, heard, script);
        } else if s.deadline != 0 && s.deadline <= now {
          CloseOutput(index, false, true, heard, script);
        }
      }
      EightSlots();
    }

    lemma {:induction false} EightSlots()
      requires Valid()
      ensures |slots| == MAX_SPAWNS
    {
    }

    /** No child is reported twice, and none that was cancelled is reported. */
    lemma {:induction false} ReportedOnce(i: nat)
      requires Valid() && i < |log|
      ensures log[i].serial in Fates && Fates[log[i].serial] == Reported && Told(log[i], Reads, Limits)
      ensures forall j | 0 <= j < |log| && j != i :: log[j].serial != log[i].serial
    {
      assert GoodLog(log, Fates, Reads, Limits);
    }

    /** Every slot in turn; callbacks may open and cancel children on the way. */
    method Expire(now: nat, hears: nat -> bool, scripts: nat -> seq<Act>)
      requires Valid()
      modifies this
      ensures Valid() && Advances(old(Fates), Fates) && Keeps(old(Reads), Reads) && old(log) <= log
    {
      EightSlots();
      AdvancesStart(Fates);
      hide ValidBut, Valid, Advances, Keeps;
      KeepsStart(Reads);
      for index := 0 to MAX_SPAWNS
        invariant Valid() && |slots| == MAX_SPAWNS && Advances(old(Fates), Fates) && Keeps(old(Reads), Reads)
        invariant old(log) <= log
      {
        ghost var fates, input := Fates, Reads;
        ExpireSlot(index, now, hears(index), scripts(index));
        AdvancesThen(old(Fates), fates, Fates);
        KeepsThen(old(Reads), input, Reads);
      }
    }
  }

  lemma {:induction false} KeepsStart(input: map<nat, Bytes>)
    ensures Keeps(input, input)
  {
  }

  // ---- Runs ----

  /** What happens to the children, in any order. */
  datatype Event =
    | Lua(script: seq<Act>)
    | Readable(index: nat, results: seq<ReadResult>, heard: bool, script: seq<Act>)
    | Exited(pid: nat, status: int, heard: bool, script: seq<Act>)
    | Deadlines(now: nat, hears: nat -> bool, scripts: nat -> seq<Act>)

  method Turn(table: SpawnTable, event: Event)
    requires table.Valid()
    modifies table
    ensures table.Valid() && Advances(old(table.Fates), table.Fates) && old(table.log) <= table.log
  {
    table.EightSlots();
    AdvancesStart(table.Fates);
    hide SpawnTable.ValidBut, SpawnTable.Valid, Advances, Ends, DataOf, WithRead, ReadsMore, ReadsOn;
    match event
    case Lua(script) => table.Callback(script);
    case Readable(index, results, heard, script) =>
      if index < MAX_SPAWNS {
        var taken := table.ReadReady(index, results, heard, script);
      }
    case Exited(pid, status, heard, script) =>
      if pid > 0 {
        table.Reaped(pid, status, heard, script);
      }
    case Deadlines(now, hears, scripts) => table.Expire(now, hears, scripts);
  }

  /**
   Over any run: no child is reported twice, none that was stopped is reported, every report holds the
   first bytes of all that was ever read of its child, and no child that is complete stays unreported,
   but for one whose exec failed, which waits for the next deadline check.
   */
  method Run(table: SpawnTable, events: seq<Event>)
    requires table.Valid()
    modifies table
    ensures table.Valid() && Advances(old(table.Fates), table.Fates) && old(table.log) <= table.log
    ensures forall i, j | 0 <= i < j < |table.log| :: table.log[i].serial != table.log[j].serial
    ensures forall k | 0 <= k < |table.log| ::
              && table.log[k].serial in table.Fates && table.Fates[table.log[k].serial] == Reported
              && Told(table.log[k], table.Reads, table.Limits)
    ensures forall i | 0 <= i < |table.slots| && Complete(table.slots[i]) :: table.slots[i].finishPending
  {
    AdvancesStart(table.Fates);
    for i := 0 to |events|
      invariant table.Valid() && Advances(old(table.Fates), table.Fates) && old(table.log) <= table.log
    {
      hide SpawnTable.ValidBut, SpawnTable.Valid, Advances;
      ghost var before := table.Fates;
      Turn(table, events[i]);
      AdvancesThen(old(table.Fates), before, table.Fates);
    }
    hide Told, GoodSlots, GoodFates, Advances;
    AllWaiting(table.slots);
  }

  lemma {:induction false} AllWaiting(slots: seq<Slot>)
    requires |slots| == MAX_SPAWNS ==> AllWait(slots, MAX_SPAWNS)
    ensures |slots| == MAX_SPAWNS ==> forall i | 0 <= i < |slots| && Complete(slots[i]) :: slots[i].finishPending
  {
  }
}
