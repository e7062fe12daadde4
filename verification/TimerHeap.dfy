/** The indexed binary heap of timers, and fixed-rate rescheduling on 64-bit deadlines. */
module TimerHeaps {
  const UINT64_END: nat := 0x1_0000_0000_0000_0000
  const UINT64_MAX: nat := 0xFFFF_FFFF_FFFF_FFFF

  /** Deadline first, then the order of adding. */
  datatype Key = Key(deadline: nat, sequence: nat)

  predicate Before(a: Key, b: Key) {
    a.deadline < b.deadline || (a.deadline == b.deadline && a.sequence < b.sequence)
  }

  // ---- Heaps of keys ----

  function Parent(i: nat): nat
    requires i > 0
  {
    (i - 1) / 2
  }

  /** No key comes before its parent's. */
  ghost predicate HeapOrder(keys: seq<Key>) {
    forall i | 0 < i < |keys| :: !Before(keys[i], keys[Parent(i)])
  }

  /** Ordered except that one key may come before its parent's. */
  ghost predicate UpOrder(keys: seq<Key>, index: nat) {
    && index < |keys|
    && (forall i | 0 < i < |keys| && i != index :: !Before(keys[i], keys[Parent(i)]))
    && forall i | 0 < i < |keys| && Parent(i) == index > 0 :: !Before(keys[i], keys[Parent(index)])
  }

  /** Ordered except that the children of one key may come before it. */
  ghost predicate DownOrder(keys: seq<Key>, index: nat) {
    && index < |keys|
    && (forall i | 0 < i < |keys| && Parent(i) != index :: !Before(keys[i], keys[Parent(i)]))
    && forall i | 0 < i < |keys| && Parent(i) == index > 0 :: !Before(keys[i], keys[Parent(index)])
  }

  function Swapped<T>(s: seq<T>, i: nat, j: nat): seq<T>
    requires i < |s| && j < |s|
  {
    s[i := s[j]][j := s[i]]
  }

  lemma {:induction false} NotBeforeIsTransitive(a: Key, b: Key, c: Key)
    requires !Before(b, a) && !Before(c, b)
    ensures !Before(c, a)
  {
  }

  lemma {:induction false} SwapUp(keys: seq<Key>, index: nat)
    requires UpOrder(keys, index) && index > 0 && Before(keys[index], keys[Parent(index)])
    ensures UpOrder(Swapped(keys, index, Parent(index)), Parent(index))
  {
    var parent := Parent(index);
    var now := Swapped(keys, index, parent);
    forall i | 0 < i < |keys| && i != parent
      ensures !Before(now[i], now[Parent(i)])
    {
      if i != index && Parent(i) == parent {
        NotBeforeIsTransitive(keys[index], keys[parent], keys[i]);
      }
    }
    forall i | 0 < i < |keys| && Parent(i) == parent > 0
      ensures !Before(now[i], now[Parent(parent)])
    {
      NotBeforeIsTransitive(keys[Parent(parent)], keys[parent], if i == index then keys[parent] else keys[i]);
    }
  }

  lemma {:induction false} UpIndex(keys: seq<Key>, index: nat)
    requires UpOrder(keys, index)
    ensures index < |keys|
  {
  }

  lemma {:induction false} DownIndex(keys: seq<Key>, index: nat)
    requires DownOrder(keys, index)
    ensures index < |keys|
  {
  }

  lemma {:induction false} UpDone(keys: seq<Key>, index: nat)
    requires UpOrder(keys, index) && (index > 0 ==> !Before(keys[index], keys[Parent(index)]))
    ensures HeapOrder(keys)
  {
  }

  /** The earliest of a key and its children. */
  ghost predicate Earliest(keys: seq<Key>, index: nat, earliest: nat) {
    && index < |keys| && earliest < |keys| && (earliest == index || (earliest > 0 && Parent(earliest) == index))
    && !Before(keys[index], keys[earliest])
    && forall i | 0 < i < |keys| && Parent(i) == index :: !Before(keys[i], keys[earliest])
  }

  lemma {:induction false} SwapDown(keys: seq<Key>, index: nat, child: nat)
    requires DownOrder(keys, index) && Earliest(keys, index, child) && child != index
    ensures DownOrder(Swapped(keys, index, child), child)
  {
  }

  lemma {:induction false} DownDone(keys: seq<Key>, index: nat)
    requires DownOrder(keys, index) && Earliest(keys, index, index)
    ensures HeapOrder(keys)
  {
  }

  lemma {:induction false} RootIsFirst(keys: seq<Key>, i: nat)
    requires HeapOrder(keys) && i < |keys|
    ensures !Before(keys[i], keys[0])
  {
    if i > 0 {
      RootIsFirst(keys, Parent(i));
    }
  }

  /** The keys after the last one has moved into a freed place. */
  function Refilled<T>(s: seq<T>, index: nat): seq<T>
    requires index < |s|
  {
    var shorter := s[..|s| - 1];
    if index == |s| - 1 then shorter else shorter[index := s[|s| - 1]]
  }

  lemma {:induction false} RefillOrder(keys: seq<Key>, index: nat)
    requires HeapOrder(keys) && index < |keys| - 1
    ensures var now := Refilled(keys, index);
            if index > 0 && Before(now[index], now[Parent(index)]) then UpOrder(now, index) else DownOrder(now, index)
  {
    var now := Refilled(keys, index);
    forall i | 0 < i < |now| && Parent(i) == index
      ensures !Before(now[i], keys[index]) && (index > 0 ==> !Before(now[i], now[Parent(index)]))
    {
      assert !Before(keys[i], keys[Parent(i)]);
    }
  }

  // ---- Timers ----

  class Timer {
    var deadline: nat
    var interval: nat
    var sequence: nat
    var heapIndex: nat
    var active: bool

    constructor ()
      ensures !active
    {
      deadline, interval, sequence, heapIndex, active := 0, 0, 0, 0, false;
    }

    method Start(deadline: nat, interval: nat, sequence: nat, index: nat)
      modifies this
      ensures this.deadline == deadline && this.interval == interval && this.sequence == sequence
      ensures heapIndex == index && active
    {
      this.deadline, this.interval, this.sequence, heapIndex, active := deadline, interval, sequence, index, true;
    }

    function Rank(): Key
      reads this`deadline, this`sequence
    {
      Key(deadline, sequence)
    }
  }

  ghost function Members(items: seq<Timer>): set<Timer> {
    set t | t in items
  }

  ghost function Ranks(items: seq<Timer>): (keys: seq<Key>)
    reads Members(items)`deadline, Members(items)`sequence
    ensures |keys| == |items| && forall i | 0 <= i < |items| :: keys[i] == items[i].Rank()
  {
    if items == [] then [] else Ranks(items[..|items| - 1]) + [items[|items| - 1].Rank()]
  }

  lemma {:induction false} MembersAt(items: seq<Timer>, t: Timer)
    ensures t in Members(items) <==> exists i :: 0 <= i < |items| && items[i] == t
  {
  }

  /** Swapping two slots keeps the members and swaps the ranks. */
  lemma {:induction false} SwapFacts(items: seq<Timer>, i: nat, j: nat)
    requires i < |items| && j < |items|
    ensures Members(Swapped(items, i, j)) == Members(items)
    ensures Ranks(Swapped(items, i, j)) == Swapped(Ranks(items), i, j)
  {
    hide Ranks;
    SwapMembers(items, i, j);
  }

  lemma {:induction false} SwapMembers(items: seq<Timer>, i: nat, j: nat)
    requires i < |items| && j < |items|
    ensures Members(Swapped(items, i, j)) == Members(items)
  {
    var now := Swapped(items, i, j);
    forall t | t in Members(items)
      ensures t in Members(now)
    {
      var k :| 0 <= k < |items| && items[k] == t;
      assert now[if k == i then j else if k == j then i else k] == t;
    }
  }

  class TimerHeap {
    var items: seq<Timer>
    var nextSequence: nat

    /** Every slot's timer is active and knows its slot. */
    ghost predicate Indexed()
      reads this`items, Members(items)`heapIndex, Members(items)`active
    {
      forall i | 0 <= i < |items| :: items[i].heapIndex == i && items[i].active
    }

    ghost predicate Valid()
      reads this, Members(items)
    {
      Indexed() && HeapOrder(Ranks(items)) && nextSequence < UINT64_END
    }

    constructor ()
      ensures Valid() && items == [] && nextSequence == 0
    {
      items, nextSequence := [], 0;
    }

    method Swap(left: nat, right: nat)
      requires Indexed() && left < |items| && right < |items|
      modifies this`items, Members(items)`heapIndex
      ensures Indexed() && items == Swapped(old(items), left, right) && |items| == old(|items|)
      ensures Members(items) == old(Members(items)) && Ranks(items) == Swapped(old(Ranks(items)), left, right)
    {
      SwapFacts(items, left, right);
      items := Swapped(items, left, right);
      items[left].heapIndex := left;
      items[right].heapIndex := right;
    }

    method SiftUp(start: nat)
      requires Indexed() && UpOrder(Ranks(items), start)
      modifies this`items, Members(items)`heapIndex
      ensures Indexed() && HeapOrder(Ranks(items)) && Members(items) == old(Members(items)) && |items| == old(|items|)
    {
      hide Ranks, UpOrder, HeapOrder, Before, Indexed, Members, Swapped;
      var index: nat := start;
      UpIndex(Ranks(items), index);
      while index > 0
        invariant index < |items| && Indexed() && UpOrder(Ranks(items), index)
        invariant Members(items) == old(Members(items)) && |items| == old(|items|)
      {
        var parent := (index - 1) / 2;
        if !Before(items[index].Rank(), items[parent].Rank()) {
          break;
        }
        SwapUp(Ranks(items), index);
        Swap(index, parent);
        index := parent;
      }
      UpDone(Ranks(items), index);
    }

    method EarliestOf(index: nat) returns (earliest: nat)
      requires index < |items|
      ensures Earliest(Ranks(items), index, earliest) && (earliest != index ==> index < earliest < |items|)
    {
      var left := index * 2 + 1;
      var right := left + 1;
      earliest := index;
      if left < |items| && Before(items[left].Rank(), items[earliest].Rank()) {
        earliest := left;
      }
      if right < |items| && Before(items[right].Rank(), items[earliest].Rank()) {
        earliest := right;
      }
      assert forall i | 0 < i < |items| && Parent(i) == index :: i == left || i == right;
    }

    method SiftDown(start: nat)
      requires Indexed() && DownOrder(Ranks(items), start)
      modifies this`items, Members(items)`heapIndex
      ensures Indexed() && HeapOrder(Ranks(items)) && Members(items) == old(Members(items)) && |items| == old(|items|)
    {
      hide Ranks, DownOrder, HeapOrder, Before, Indexed, Swapped, Earliest;
      var index: nat := start;
      DownIndex(Ranks(items), index);
      while true
        invariant index < |items| && Indexed() && DownOrder(Ranks(items), index)
        invariant Members(items) == old(Members(items)) && |items| == old(|items|)
        decreases |items| - index
      {
        var earliest := EarliestOf(index);
        if earliest == index {
          DownDone(Ranks(items), index);
          return;
        }
        SwapDown(Ranks(items), index, earliest);
        Swap(index, earliest);
        index := earliest;
      }
    }

    /** Starting an inactive timer; fails when the 64-bit sequence wraps. */
    method Add(timer: Timer, deadline: nat, interval: nat) returns (ok: bool)
      requires Valid()
      modifies this, timer, Members(items)`heapIndex
      ensures Valid() && (ok <==> !old(timer.active) && old(nextSequence) < UINT64_MAX)
      ensures ok ==>
        && timer !in old(Members(items)) && Members(items) == old(Members(items)) + {timer} && timer.active
        && timer.deadline == deadline && timer.interval == interval
        && timer.sequence == nextSequence == old(nextSequence) + 1
      ensures !ok ==> items == old(items) && unchanged(timer) && (!timer.active ==> nextSequence == 0)
    {
      hide Ranks, HeapOrder, UpOrder, Before, Indexed;
      if timer.active {
        return false;
      }
      nextSequence := (nextSequence + 1) % UINT64_END;
      if nextSequence == 0 {
        return false;
      }
      Append(timer, deadline, interval);
      SiftUp(timer.heapIndex);
      return true;
    }

    method Append(timer: Timer, deadline: nat, interval: nat)
      requires Indexed() && HeapOrder(Ranks(items)) && !timer.active
      modifies this`items, timer
      ensures Indexed() && items == old(items) + [timer] && timer.heapIndex == |items| - 1
      ensures UpOrder(Ranks(items), timer.heapIndex)
      ensures timer !in old(Members(items)) && Members(items) == old(Members(items)) + {timer} && timer.active
      ensures timer.deadline == deadline && timer.interval == interval && timer.sequence == nextSequence
    {
      hide Before, HeapOrder, UpOrder, Ranks;
      assert timer !in Members(items);
      ghost var before := Ranks(items);
      timer.Start(deadline, interval, nextSequence, |items|);
      AppendOrder(before, timer.Rank());
      AppendRanks(items, timer);
      items := items + [timer];
    }

    lemma {:induction false} AppendRanks(items: seq<Timer>, timer: Timer)
      ensures Ranks(items + [timer]) == Ranks(items) + [timer.Rank()]
      ensures Members(items + [timer]) == Members(items) + {timer}
    {
      hide Ranks;
    }

    lemma {:induction false} Located(timer: Timer)
      requires Indexed() && timer in Members(items)
      ensures timer.heapIndex < |items| && items[timer.heapIndex] == timer
    {
    }

    /** Stopping a timer of this heap; stopping an inactive one does nothing. */
    method Cancel(timer: Timer)
      requires Valid() && (timer.active ==> timer in Members(items))
      modifies this`items, timer`active, Members(items)`heapIndex
      ensures Valid() && !timer.active
      ensures Members(items) == if old(timer.active) then old(Members(items)) - {timer} else old(Members(items))
      ensures !old(timer.active) ==> items == old(items)
    {
      if !timer.active {
        return;
      }
      hide Ranks, HeapOrder, UpOrder, DownOrder, Before, Indexed;
      var index := timer.heapIndex;
      ghost var keys := Ranks(items);
      Located(timer);
      Detach(timer, index);
      if index == |items| {
        PrefixOrder(keys);
        return;
      }
      RefillOrder(keys, index);
      Resift(index);
    }

    /** Moving the timer that filled a place up or down to where it belongs. */
    method Resift(index: nat)
      requires Indexed() && index < |items|
      requires if index > 0 && Before(Ranks(items)[index], Ranks(items)[Parent(index)])
               then UpOrder(Ranks(items), index) else DownOrder(Ranks(items), index)
      modifies this`items, Members(items)`heapIndex
      ensures Indexed() && HeapOrder(Ranks(items)) && Members(items) == old(Members(items)) && |items| == old(|items|)
    {
      hide Ranks, HeapOrder, UpOrder, DownOrder, Before, Indexed, Members;
      if index > 0 && Before(items[index].Rank(), items[(index - 1) / 2].Rank()) {
        SiftUp(index);
      } else {
        SiftDown(index);
      }
    }

    /** Taking a timer out, the last one filling its place. */
    method Detach(timer: Timer, index: nat)
      requires Indexed() && index < |items| && items[index] == timer
      modifies this`items, timer`active, Members(items)`heapIndex
      ensures Indexed() && !timer.active && |items| == old(|items|) - 1
      ensures Ranks(items) == Refilled(old(Ranks(items)), index)
      ensures Members(items) == old(Members(items)) - {timer}
    {
      hide Ranks;
      ghost var was := items;
      RefillMembers(items, index);
      RefillRanks(items, index);
      timer.active := false;
      var last := |items| - 1;
      if index == last {
        items := items[..last];
      } else {
        items := items[..last][index := items[last]];
        items[index].heapIndex := index;
      }
      assert items == Refilled(was, index);
    }

    /** Removing the members of a refilled heap other than the one taken out. */
    lemma {:induction false} RefillMembers(was: seq<Timer>, index: nat)
      requires index < |was| && forall i | 0 <= i < |was| :: was[i].heapIndex == i
      ensures Members(Refilled(was, index)) == Members(was) - {was[index]}
    {
      var now := Refilled(was, index);
      forall t | t in Members(was) && t != was[index]
        ensures t in now
      {
        var i :| 0 <= i < |was| && was[i] == t;
        assert now[if i == |was| - 1 then index else i] == t;
      }
      forall i | 0 <= i < |now|
        ensures now[i] in Members(was) && now[i] != was[index]
      {
        assert now[i] == was[if i == index then |was| - 1 else i];
      }
    }

    lemma {:induction false} RefillRanks(was: seq<Timer>, index: nat)
      requires index < |was|
      ensures Ranks(Refilled(was, index)) == Refilled(Ranks(was), index)
    {
      hide Ranks;
      var a, b := Ranks(Refilled(was, index)), Refilled(Ranks(was), index);
      assert |a| == |b|;
      forall i | 0 <= i < |a|
        ensures a[i] == b[i]
      {
        assert Refilled(was, index)[i] == was[if i == index then |was| - 1 else i];
      }
    }

    /** Taking the first timer if it is due. */
    method PopDue(now: nat) returns (timer: Timer?)
      requires Valid()
      modifies this`items, Members(items)`active, Members(items)`heapIndex
      ensures Valid()
      ensures timer == null ==> items == old(items) && forall t | t in old(Members(items)) :: t.deadline > now
      ensures timer != null ==>
        && timer in old(Members(items)) && old(timer.active) && timer.deadline <= now && !timer.active
        && Members(items) == old(Members(items)) - {timer}
        && forall t | t in old(Members(items)) :: !Before(t.Rank(), timer.Rank())
      ensures forall t | t in old(Members(items)) && t != timer :: t.active == old(t.active)
    {
      FirstOfAll();
      if |items| == 0 || items[0].deadline > now {
        return null;
      }
      timer := items[0];
      Cancel(timer);
    }

    lemma {:induction false} FirstOfAll()
      requires Valid()
      ensures forall t | t in Members(items) :: |items| > 0 && !Before(t.Rank(), items[0].Rank())
    {
      forall t | t in Members(items)
        ensures |items| > 0 && !Before(t.Rank(), items[0].Rank())
      {
        var i :| 0 <= i < |items| && items[i] == t;
        RootIsFirst(Ranks(items), i);
      }
    }

    /** Popping again and again yields exactly the due timers, in order; timers added first win ties. */
    method Drain(now: nat) returns (popped: seq<Timer>)
      requires Valid()
      modifies this`items, Members(items)`active, Members(items)`heapIndex
      ensures Valid() && InOrder(popped) && Distinct(popped)
      ensures Members(popped) == set t | t in old(Members(items)) && t.deadline <= now
      ensures Members(items) == old(Members(items)) - Members(popped)
    {
      hide Indexed, HeapOrder, Ranks, Before, InOrder, Distinct, NotAfter, Valid, Parent;
      popped := [];
      DrainStart(Members(items));
      while true
        invariant Valid() && InOrder(popped) && Distinct(popped) && NotAfter(popped, Members(items))
        invariant Members(items) == old(Members(items)) - Members(popped)
        invariant forall t | t in popped :: t in old(Members(items)) && t.deadline <= now
        decreases |Members(items)|
      {
        ghost var rest := Members(items);
        var timer := PopDue(now);
        if timer == null {
          AllDue(popped, old(Members(items)), now);
          return;
        }
        DrainStep(popped, timer, rest);
        popped := popped + [timer];
      }
    }

    /** Starting a repeating timer again on its own grid of deadlines. */
    method RescheduleFixed(timer: Timer, now: nat) returns (ok: bool)
      requires Valid() && timer.deadline < UINT64_END && timer.interval < UINT64_END && now < UINT64_END
      modifies this, timer, Members(items)`heapIndex
      ensures Valid()
      ensures ok <==> !old(timer.active) && timer.interval != 0 && old(nextSequence) < UINT64_MAX
                      && NextDeadline(old(timer.deadline), timer.interval, now) != Never
      ensures timer.interval == old(timer.interval)
      ensures ok ==>
        && timer !in old(Members(items)) && Members(items) == old(Members(items)) + {timer} && timer.active
        && NextDeadline(old(timer.deadline), timer.interval, now) == At(timer.deadline)
        && timer.sequence == nextSequence == old(nextSequence) + 1
      ensures !ok ==> items == old(items) && unchanged(timer)
      ensures !ok && !timer.active && timer.interval != 0 ==>
        NextDeadline(timer.deadline, timer.interval, now) == Never || nextSequence == 0
    {
      hide Indexed, HeapOrder, Ranks, Before;
      if timer.active || timer.interval == 0 {
        return false;
      }
      var next := NextDeadline(timer.deadline, timer.interval, now);
      if next == Never {
        return false;
      }
      ok := Add(timer, next.deadline, timer.interval);
    }

    /** One thing a callback does: a new timer, or stopping one that is in the heap. */
    method Perform(act: Act) returns (ghost stopped: set<Timer>)
      requires Valid() && GoodAct(act)
      modifies this, Members(items)`active, Members(items)`heapIndex
      ensures Valid() && old(Members(items)) - stopped <= Members(items) && (act.Start? ==> stopped == {})
      ensures forall t | t in Members(items) :: t in old(Members(items)) || (fresh(t) && Bounded(t))
    {
      hide Indexed, HeapOrder, Ranks, Before;
      stopped := {};
      AllActive();
      match act
      case Start(deadline, interval) =>
        var timer := new Timer();
        var ok := Add(timer, deadline, interval);
      case StopAt(index) =>
        if index < |items| {
          stopped := {items[index]};
          Cancel(items[index]);
        }
    }

    lemma {:induction false} AllActive()
      requires Valid()
      ensures forall t | t in Members(items) :: t.active
    {
    }

    /** A callback: its new timers may be due already, but none is one that was taken before. */
    method Callback(acts: seq<Act>) returns (ghost stopped: set<Timer>)
      requires Valid() && forall act | act in acts :: GoodAct(act)
      modifies this, Members(items)`active, Members(items)`heapIndex
      ensures Valid() && old(Members(items)) - stopped <= Members(items)
      ensures (forall act | act in acts :: act.Start?) ==> stopped == {}
      ensures forall t | t in Members(items) :: t in old(Members(items)) || (fresh(t) && Bounded(t))
    {
      hide Indexed, HeapOrder, Ranks, Before;
      stopped := {};
      for i := 0 to |acts|
        invariant Valid() && old(Members(items)) - stopped <= Members(items)
        invariant (forall k | 0 <= k < i :: acts[k].Start?) ==> stopped == {}
        invariant forall t | t in Members(items) :: t in old(Members(items)) || (fresh(t) && Bounded(t))
      {
        ghost var more := Perform(acts[i]);
        stopped := stopped + more;
      }
    }

    /** One due timer: taken, its callback run, and started again if it repeats and goes on. */
    method DispatchOne(now: nat, script: Script) returns (timer: Timer?, lost: bool, ghost stopped: set<Timer>)
      requires Valid() && now < UINT64_MAX && (forall t | t in Members(items) :: Bounded(t)) && GoodScript(script)
      modifies this, Members(items)
      ensures Valid() && forall t | t in Members(items) :: (t in old(Members(items)) || fresh(t)) && Bounded(t)
      ensures forall t | t in old(Members(items)) && t != timer ::
        t.deadline == old(t.deadline) && t.interval == old(t.interval)
      ensures timer == null ==>
        Members(items) == old(Members(items)) && forall t | t in Members(items) :: t.deadline > now
      ensures timer != null ==>
        && timer in old(Members(items)) && old(timer.deadline) <= now
        && old(Members(items)) - {timer} - stopped <= Members(items)
        && (timer in Members(items) ==>
              && timer.interval != 0 && timer.deadline > now
              && NextDeadline(old(timer.deadline), timer.interval, now) == At(timer.deadline))
        && (timer.interval != 0 && script.resumes ==> timer in Members(items) || lost)
        && (lost ==> timer.interval != 0 && script.resumes
                     && (NextDeadline(old(timer.deadline), timer.interval, now) == Never || nextSequence == 0))
    {
      hide Indexed, HeapOrder, Ranks, Before, NextDeadline;
      lost, stopped := false, {};
      timer := PopDue(now);
      if timer == null {
        return;
      }
      stopped := Callback(script.acts);
      if timer.interval != 0 && script.resumes {
        FixedRate(timer.deadline, timer.interval, now);
        var again := RescheduleFixed(timer, now);
        lost := !again;
      }
    }

    /**
     One dispatch at a fixed time: due timers are taken one by one, each one's callback adds and stops timers
     as it likes, and repeating ones are started again unless they were stopped or their deadline overflows.
     No timer is taken twice however many periods it missed.
     */
    method Dispatch(now: nat, budget: nat, scripts: nat -> Script)
      returns (fired: seq<Timer>, failed: set<nat>, ghost stopped: set<Timer>)
      requires Valid() && now < UINT64_MAX && (forall t | t in Members(items) :: Bounded(t)) && forall n ::
        GoodScript(scripts(n))
      modifies this, Members(items)
      ensures Valid() && Distinct(fired) && |fired| <= budget
      ensures forall t | t in fired :: t in old(Members(items)) || fresh(t)
      ensures forall t | t in fired && t in old(Members(items)) :: old(t.deadline) <= now
      // A repeating timer is in the heap again, unless a callback stopped it or it could not be started.
      ensures forall k | 0 <= k < |fired| && fired[k].interval != 0 && scripts(k).resumes ::
                fired[k] in Members(items) || fired[k] in stopped || k in failed
      ensures forall k | k in failed :: k < |fired| && scripts(k).resumes
      // What is in the heap again is due again only after now, on its own grid.
      ensures forall t | t in fired && t in Members(items) :: t.deadline > now && t.interval != 0
      ensures forall t | t in fired && t in old(Members(items)) && t in Members(items) ::
                NextDeadline(old(t.deadline), t.interval, now) == At(t.deadline)
      ensures |fired| < budget ==> forall t | t in Members(items) :: t.deadline > now
    {
      hide Indexed, HeapOrder, Ranks, Before, NextDeadline, Distinct, Bounded, GoodScript, Valid, InOrder;
      fired, failed, stopped := [], {}, {};
      DrainStart({});
      for count := 0 to budget
        invariant Valid() && Distinct(fired) && |fired| == count
        invariant forall t | t in Members(items) :: (t in old(Members(items)) || fresh(t)) && Bounded(t)
        invariant forall t | t in fired :: t in old(Members(items)) || fresh(t)
        invariant forall t | t in fired && t in old(Members(items)) :: old(t.deadline) <= now
        invariant forall k | 0 <= k < |fired| && fired[k].interval != 0 && scripts(k).resumes ::
                    fired[k] in Members(items) || fired[k] in stopped || k in failed
        invariant forall k | k in failed :: k < |fired| && scripts(k).resumes
        invariant forall t | t in fired && t in Members(items) :: t.deadline > now && t.interval != 0
        invariant forall t | t in fired && t in old(Members(items)) && t in Members(items) ::
                    NextDeadline(old(t.deadline), t.interval, now) == At(t.deadline)
        invariant forall t | t in old(Members(items)) && t !in fired ::
          t.deadline == old(t.deadline) && t.interval == old(t.interval)
      {
        var timer, lost, more := DispatchOne(now, scripts(count));
        if timer == null {
          return;
        }
        DistinctMore(fired, timer);
        fired, stopped := fired + [timer], stopped + more;
        if lost {
          failed := failed + {count};
        }
      }
    }
  }

  /** What a callback does to the heap. */
  datatype Act = Start(deadline: nat, interval: nat) | StopAt(index: nat)

  /** A callback, and whether its timer goes on, if it repeats. */
  datatype Script = Script(acts: seq<Act>, resumes: bool)

  /** Deadlines and intervals are 64-bit numbers. */
  predicate GoodAct(act: Act) {
    act.Start? ==> act.deadline < UINT64_END && act.interval < UINT64_END
  }

  predicate GoodScript(script: Script) {
    forall act | act in script.acts :: GoodAct(act)
  }

  predicate Bounded(t: Timer)
    reads t`deadline, t`interval
  {
    t.deadline < UINT64_END && t.interval < UINT64_END
  }

  lemma {:induction false} DistinctMore(timers: seq<Timer>, timer: Timer)
    requires Distinct(timers) && timer !in timers
    ensures Distinct(timers + [timer])
  {
  }

  ghost predicate Distinct(timers: seq<Timer>) {
    forall i, j | 0 <= i < j < |timers| :: timers[i] != timers[j]
  }

  ghost predicate InOrder(timers: seq<Timer>)
    reads Members(timers)`deadline, Members(timers)`sequence
  {
    forall i, j | 0 <= i < j < |timers| :: !Before(timers[j].Rank(), timers[i].Rank())
  }

  /** No timer of a set comes before one already taken. */
  ghost predicate NotAfter(popped: seq<Timer>, rest: set<Timer>)
    reads Members(popped)`deadline, Members(popped)`sequence, rest`deadline, rest`sequence
  {
    forall i, t | 0 <= i < |popped| && t in rest :: !Before(t.Rank(), popped[i].Rank())
  }

  lemma {:induction false} AllDue(popped: seq<Timer>, all: set<Timer>, now: nat)
    requires forall t | t in popped :: t in all && t.deadline <= now
    requires forall t | t in all - Members(popped) :: t.deadline > now
    ensures Members(popped) == set t | t in all && t.deadline <= now
  {
  }

  lemma {:induction false} DrainStart(rest: set<Timer>)
    ensures InOrder([]) && Distinct([]) && NotAfter([], rest)
  {
  }

  lemma {:induction false} DrainStep(popped: seq<Timer>, timer: Timer, rest: set<Timer>)
    requires InOrder(popped) && Distinct(popped) && NotAfter(popped, rest) && timer in rest && timer !in popped
    requires forall t | t in rest :: !Before(t.Rank(), timer.Rank())
    ensures InOrder(popped + [timer]) && Distinct(popped + [timer]) && NotAfter(popped + [timer], rest - {timer})
    ensures Members(popped + [timer]) == Members(popped) + {timer}
  {
  }

  // ---- Fixed-rate deadlines ----

  datatype Due = Never | At(deadline: nat)

  function Quotient(a: nat, d: nat): nat
    requires d > 0
  {
    a / d
  }

  /** Whole periods to the next deadline, in 64-bit arithmetic. */
  function Periods(previous: nat, interval: nat, now: nat): nat
    requires interval > 0
  {
    if now >= previous then (Quotient(now - previous, interval) + 1) % UINT64_END else 1
  }

  function NextDeadline(previous: nat, interval: nat, now: nat): Due
    requires previous < UINT64_END
  {
    if interval == 0 then Never
    else if Periods(previous, interval, now) > Quotient(UINT64_MAX - previous, interval) then Never
    else At(previous + Periods(previous, interval, now) * interval)
  }

  lemma {:induction false} Division(a: nat, d: nat)
    requires d > 0
    ensures var q := Quotient(a, d); q * d <= a && a < q * d + d
  {
    assert a == d * (a / d) + a % d;
  }

  lemma {:induction false} SmallQuotient(q: nat, d: nat, a: nat)
    requires d > 1 && a > 0 && q * d <= a
    ensures q < a
  {
    Scale(2, d, q);
  }

  /** The only input on which the period count wraps: a deadline of zero, one nanosecond, the last instant. */
  predicate Wraps(previous: nat, interval: nat, now: nat) {
    previous == 0 && interval == 1 && now == UINT64_MAX
  }

  /** The next deadline lies strictly after now unless the period count wraps to zero. */
  lemma {:induction false} FixedRate(previous: nat, interval: nat, now: nat)
    requires previous < UINT64_END && 0 < interval < UINT64_END && now < UINT64_END
    ensures NextDeadline(previous, interval, now).At? ==>
      && (NextDeadline(previous, interval, now).deadline > now <==> !Wraps(previous, interval, now))
      && NextDeadline(previous, interval, now).deadline < UINT64_END
  {
    hide Quotient;
    var periods, most := Periods(previous, interval, now), Quotient(UINT64_MAX - previous, interval);
    Division(UINT64_MAX - previous, interval);
    if periods <= most {
      Scale(periods, most, interval);
      PastNow(previous, interval, now);
    }
  }

  lemma {:induction false} PastNow(previous: nat, interval: nat, now: nat)
    requires previous < UINT64_END && 0 < interval < UINT64_END && now < UINT64_END
    ensures previous + Periods(previous, interval, now) * interval > now <==> !Wraps(previous, interval, now)
  {
    hide Quotient;
    if now >= previous {
      var whole := Quotient(now - previous, interval);
      Division(now - previous, interval);
      NoWrap(previous, interval, now);
    }
  }

  /** The period count wraps to zero on exactly one input. */
  lemma {:induction false} NoWrap(previous: nat, interval: nat, now: nat)
    requires previous <= now < UINT64_END && 0 < interval < UINT64_END
    ensures Periods(previous, interval, now) ==
            if Wraps(previous, interval, now) then 0 else Quotient(now - previous, interval) + 1
  {
    hide Quotient;
    var whole := Quotient(now - previous, interval);
    Division(now - previous, interval);
    if interval > 1 && now > previous {
      SmallQuotient(whole, interval, now - previous);
    } else if interval > 1 {
      Scale(1, interval, whole);
    }
    assert whole + 1 < UINT64_END ==> (whole + 1) % UINT64_END == whole + 1;
  }

  lemma {:induction false} Scale(a: nat, b: nat, d: nat)
    requires a <= b
    ensures a * d <= b * d
  {
    assert (b - a) * d >= 0;
    assert b * d == a * d + (b - a) * d;
  }

  /** A deadline on the timer's own grid. */
  ghost predicate OnGrid(previous: nat, interval: nat, k: nat, deadline: nat) {
    k >= 1 && deadline == previous + k * interval
  }

  /** Phase never drifts: the next deadline is the first point of the grid after now, if it fits 64 bits. */
  lemma {:induction false} FixedRateIsLeast(previous: nat, interval: nat, now: nat, k: nat, deadline: nat)
    requires previous < UINT64_END && 0 < interval < UINT64_END && now < UINT64_END && !Wraps(previous, interval, now)
    requires OnGrid(previous, interval, k, deadline) && now < deadline < UINT64_END
    ensures NextDeadline(previous, interval, now).At? && NextDeadline(previous, interval, now).deadline <= deadline
    ensures exists j :: OnGrid(previous, interval, j, NextDeadline(previous, interval, now).deadline)
  {
    hide Quotient;
    var periods := Periods(previous, interval, now);
    LeastPeriods(previous, interval, now, k);
    Scale(periods, k, interval);
    Fits(UINT64_MAX - previous, interval, periods);
    assert OnGrid(previous, interval, periods, NextDeadline(previous, interval, now).deadline);
  }

  lemma {:induction false} LeastPeriods(previous: nat, interval: nat, now: nat, k: nat)
    requires previous < UINT64_END && 0 < interval < UINT64_END && now < UINT64_END && !Wraps(previous, interval, now)
    requires k >= 1 && now < previous + k * interval
    ensures 1 <= Periods(previous, interval, now) <= k
  {
    hide Quotient;
    if now >= previous {
      var whole := Quotient(now - previous, interval);
      Division(now - previous, interval);
      NoWrap(previous, interval, now);
      if k <= whole {
        Scale(k, whole, interval);
      }
    }
  }

  lemma {:induction false} Fits(room: nat, d: nat, n: nat)
    requires d > 0 && n * d <= room
    ensures n <= Quotient(room, d)
  {
    hide Quotient;
    Division(room, d);
    if n > Quotient(room, d) {
      Scale(Quotient(room, d) + 1, n, d);
    }
  }

  lemma {:induction false} AppendOrder(keys: seq<Key>, key: Key)
    requires HeapOrder(keys)
    ensures UpOrder(keys + [key], |keys|)
  {
  }

  lemma {:induction false} PrefixOrder(keys: seq<Key>)
    requires HeapOrder(keys) && keys != []
    ensures HeapOrder(keys[..|keys| - 1])
  {
  }
}
