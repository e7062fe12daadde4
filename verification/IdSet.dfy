/**
 The fixed-size open-addressing set of ids: 512 slots, 256 entries, linear probing.
 The hash is a parameter, so every statement holds for any hash function.
 */
module IdSet {
  import opened Bytes

  const CAPACITY := 256
  const SLOTS := 512

  datatype InsertResult = Inserted | Duplicate | Full

  datatype Entry = Entry(key: Bytes, hash: nat, value: nat)

  /** The slot-count mask; the slot count is a power of two. */
  function Masked(i: nat): (slot: nat)
    ensures slot < SLOTS
  {
    if i < SLOTS then i else Masked(i - SLOTS)
  }

  lemma {:induction false} MaskedIsRemainder(i: nat)
    ensures Masked(i) == i % SLOTS
  {
    if i >= SLOTS {
      MaskedIsRemainder(i - SLOTS);
    }
  }

  /** Slot reached from a home slot after a number of probe steps. */
  function ProbeSlot(home: nat, steps: nat): (slot: nat)
    requires home < SLOTS && steps <= SLOTS
    ensures slot < SLOTS
  {
    if home + steps < SLOTS then home + steps else home + steps - SLOTS
  }

  /** Every slot is fewer than SLOTS steps away from every home slot. */
  function Distance(home: nat, slot: nat): (steps: nat)
    requires home < SLOTS && slot < SLOTS
    ensures steps < SLOTS && ProbeSlot(home, steps) == slot
  {
    if home <= slot then slot - home else slot + SLOTS - home
  }

  function Below(n: nat): (s: set<nat>)
    ensures |s| == n && forall i: nat :: i in s <==> i < n
  {
    if n == 0 then {} else Below(n - 1) + {n - 1}
  }

  function Elements(s: seq<nat>): (all: set<nat>)
    ensures |all| <= |s| && forall i: nat :: i in all <==> i in s
  {
    if s == [] then {} else Elements(s[1..]) + {s[0]}
  }

  /** Fewer occupied slots than slots: one is left over. */
  lemma {:induction false} PigeonHole(occupied: seq<nat>) returns (free: nat)
    requires |occupied| < SLOTS
    ensures free < SLOTS && free !in occupied
  {
    var all, slots := Elements(occupied), Below(SLOTS);
    assert |slots - all| >= |slots| - |all|;
    free :| free in slots - all;
  }

  // ---- The table as a value: slot array, live entries, and the slot each entry sits in ----

  /** Entries and occupied slots correspond one to one. */
  ghost predicate Linked(slots: seq<nat>, places: seq<nat>) {
    && |slots| == SLOTS
    && (forall e | 0 <= e < |places| :: places[e] < SLOTS && slots[places[e]] == e + 1)
    && (forall s | 0 <= s < SLOTS :: Occupied(slots, places, s))
  }

  /** An occupied slot points at the entry that is placed there. */
  ghost predicate Occupied(slots: seq<nat>, places: seq<nat>, s: nat)
    requires s < |slots|
  {
    slots[s] != 0 ==> slots[s] <= |places| && places[slots[s] - 1] == s
  }

  /** No empty slot among the first steps of a probe path. */
  ghost predicate Unbroken(slots: seq<nat>, home: nat, steps: nat)
    requires |slots| == SLOTS && home < SLOTS && steps <= SLOTS
  {
    forall n: nat | n < steps :: slots[ProbeSlot(home, n)] != 0
  }

  ghost predicate Reachable(hash: Bytes -> nat, slots: seq<nat>, key: Bytes, place: nat)
    requires |slots| == SLOTS && place < SLOTS
  {
    Unbroken(slots, Masked(hash(key)), Distance(Masked(hash(key)), place))
  }

  ghost predicate Table(hash: Bytes -> nat, slots: seq<nat>, entries: seq<Entry>, places: seq<nat>) {
    && Linked(slots, places) && |entries| == |places| <= CAPACITY
    && (forall e | 0 <= e < |entries| ::
          entries[e].hash == hash(entries[e].key) && Reachable(hash, slots, entries[e].key, places[e]))
  }

  /** The map that the live entries stand for. */
  ghost predicate Represents(contents: map<Bytes, nat>, entries: seq<Entry>) {
    && |contents| == |entries|
    && (forall e | 0 <= e < |entries| ::
          entries[e].key in contents && contents[entries[e].key] == entries[e].value)
    && (forall k | k in contents :: HasKey(entries, k))
  }

  ghost predicate HasKey(entries: seq<Entry>, key: Bytes) {
    exists e :: 0 <= e < |entries| && entries[e].key == key
  }

  /** An empty slot always exists, so probing ends. */
  lemma {:induction false} EmptySlotExists(slots: seq<nat>, places: seq<nat>) returns (slot: nat)
    requires Linked(slots, places) && |places| <= CAPACITY
    ensures slot < SLOTS && slots[slot] == 0
  {
    slot := PigeonHole(places);
    assert Occupied(slots, places, slot);
  }

  /** The first slots on a key's probe path all hold other keys. */
  ghost predicate Passed(hash: Bytes -> nat, slots: seq<nat>, entries: seq<Entry>, key: Bytes, steps: nat)
    requires |slots| == SLOTS && steps <= SLOTS
  {
    forall n: nat | n < steps :: HoldsOther(slots, entries, ProbeSlot(Masked(hash(key)), n), key)
  }

  ghost predicate HoldsOther(slots: seq<nat>, entries: seq<Entry>, slot: nat, key: Bytes)
    requires slot < |slots|
  {
    0 < slots[slot] <= |entries| && entries[slots[slot] - 1].key != key
  }

  /** Meeting an empty slot before the key proves that the key was never inserted. */
  lemma {:induction false} EmptySlotMeansAbsent(hash: Bytes -> nat, slots: seq<nat>, entries: seq<Entry>,
                                                places: seq<nat>,
                             key: Bytes, steps: nat)
    requires Table(hash, slots, entries, places) && steps < SLOTS
    requires slots[ProbeSlot(Masked(hash(key)), steps)] == 0 && Passed(hash, slots, entries, key, steps)
    ensures !HasKey(entries, key)
    ensures Reachable(hash, slots, key, ProbeSlot(Masked(hash(key)), steps))
  {
    forall n: nat | n < steps
      ensures slots[ProbeSlot(Masked(hash(key)), n)] != 0
    {
      assert HoldsOther(slots, entries, ProbeSlot(Masked(hash(key)), n), key);
    }
    forall e | 0 <= e < |entries|
      ensures entries[e].key != key
    {
      var home := Masked(hash(entries[e].key));
      var d := Distance(home, places[e]);
      assert Reachable(hash, slots, entries[e].key, places[e]);
      if home == Masked(hash(key)) && d < steps {
        assert HoldsOther(slots, entries, ProbeSlot(home, d), key);
      }
    }
  }

  /** A slot with another key is passed, and probing moves one step closer to the empty slot. */
  lemma {:induction false} StepPast(hash: Bytes -> nat, slots: seq<nat>, entries: seq<Entry>, key: Bytes, steps: nat,
                                    empty: nat)
    requires |slots| == SLOTS && empty < SLOTS && slots[empty] == 0
    requires steps <= Distance(Masked(hash(key)), empty) && Passed(hash, slots, entries, key, steps)
    requires HoldsOther(slots, entries, ProbeSlot(Masked(hash(key)), steps), key)
    ensures var home := Masked(hash(key));
            && steps + 1 <= Distance(home, empty) && Passed(hash, slots, entries, key, steps + 1)
            && Masked(ProbeSlot(home, steps) + 1) == ProbeSlot(home, steps + 1)
  {
  }

  /** Filling the empty slot that ends a probe path keeps the table well formed. */
  lemma {:induction false} FillSlot(hash: Bytes -> nat, slots: seq<nat>, entries: seq<Entry>, places: seq<nat>,
                 slot: nat, entry: Entry)
    requires Table(hash, slots, entries, places) && |entries| < CAPACITY
    requires slot < SLOTS && slots[slot] == 0 && entry.hash == hash(entry.key)
    requires Reachable(hash, slots, entry.key, slot)
    ensures Table(hash, slots[slot := |entries| + 1], entries + [entry], places + [slot])
  {
    var slots', entries', places' := slots[slot := |entries| + 1], entries + [entry], places + [slot];
    forall s | 0 <= s < SLOTS
      ensures Occupied(slots', places', s)
    {
      assert Occupied(slots, places, s);
    }
    assert forall e | 0 <= e < |places| :: places'[e] == places[e] != slot;
    forall e | 0 <= e < |entries'|
      ensures Reachable(hash, slots', entries'[e].key, places'[e])
    {
      assert e < |entries| ==> Reachable(hash, slots, entries[e].key, places[e]);
    }
  }

  lemma {:induction false} KeyMembership(contents: map<Bytes, nat>, entries: seq<Entry>, e: nat)
    requires Represents(contents, entries) && e < |entries|
    ensures entries[e].key in contents && contents[entries[e].key] == entries[e].value
  {
  }

  lemma {:induction false} AddKey(contents: map<Bytes, nat>, entries: seq<Entry>, entry: Entry)
    requires Represents(contents, entries) && !HasKey(entries, entry.key)
    ensures Represents(contents[entry.key := entry.value], entries + [entry])
  {
    var entries' := entries + [entry];
    assert entries'[|entries|] == entry;
    forall k | k in contents
      ensures HasKey(entries', k)
    {
      var e :| 0 <= e < |entries| && entries[e].key == k;
      assert entries'[e].key == k;
    }
  }

  /** The slot and entry arrays are part of the structure itself; entries holds its first count entries. */
  class IdSet {
    const hash: Bytes -> nat
    // Entry index plus one; zero is empty.
    var slots: seq<nat>
    var entries: seq<Entry>

    ghost var Contents: map<Bytes, nat>
    ghost var Places: seq<nat>

    ghost predicate Valid()
      reads this
    {
      Table(hash, slots, entries, Places) && Represents(Contents, entries)
    }

    constructor (hash: Bytes -> nat)
      ensures Valid() && this.hash == hash && Contents == map[]
    {
      this.hash := hash;
      slots := seq(SLOTS, _ => 0);
      entries, Places, Contents := [], [], map[];
    }

    /** Clearing the slots forgets every entry. */
    method Init()
      modifies this
      ensures Valid() && Contents == map[]
    {
      slots := seq(SLOTS, _ => 0);
      entries, Places, Contents := [], [], map[];
    }

    /** The slot holding the key, or the empty slot where it belongs. */
    method Probe(key: Bytes) returns (slot: nat)
      requires Valid()
      ensures slot < SLOTS && slots[slot] <= |entries|
      ensures slots[slot] == 0 ==> !HasKey(entries, key) && Reachable(hash, slots, key, slot)
      ensures slots[slot] != 0 ==> entries[slots[slot] - 1].key == key
    {
      hide Represents, HasKey;
      var h := hash(key);
      ghost var home := Masked(h);
      slot := Masked(h);
      ghost var empty := EmptySlotExists(slots, Places);
      ghost var steps: nat := 0;
      while true
        invariant steps <= Distance(home, empty) && slot == ProbeSlot(home, steps)
        invariant Passed(hash, slots, entries, key, steps)
        decreases Distance(home, empty) - steps
      {
        var occupant := slots[slot];
        assert Occupied(slots, Places, slot);
        if occupant == 0 {
          EmptySlotMeansAbsent(hash, slots, entries, Places, key, steps);
          return;
        }
        var entry := entries[occupant - 1];
        if entry.hash == h && entry.key == key {
          return;
        }
        StepPast(hash, slots, entries, key, steps, empty);
        slot := Masked(slot + 1);
        steps := steps + 1;
      }
    }

    method Insert(key: Bytes, value: nat) returns (result: InsertResult)
      requires Valid()
      modifies this
      ensures Valid()
      ensures result == (if key in old(Contents) then Duplicate
                         else if |old(Contents)| == CAPACITY then Full else Inserted)
      ensures Contents == if result == Inserted then old(Contents)[key := value] else old(Contents)
    {
      var slot := Probe(key);
      if slots[slot] != 0 {
        KeyMembership(Contents, entries, slots[slot] - 1);
        return Duplicate;
      }
      assert key !in Contents;
      if |entries| == CAPACITY {
        return Full;
      }
      var entry := Entry(key, hash(key), value);
      FillSlot(hash, slots, entries, Places, slot, entry);
      AddKey(Contents, entries, entry);
      entries := entries + [entry];
      slots := slots[slot := |entries|];
      Places := Places + [slot];
      Contents := Contents[key := value];
      return Inserted;
    }

    method Find(key: Bytes) returns (found: bool, value: nat)
      requires Valid()
      ensures found <==> key in Contents
      ensures found ==> value == Contents[key]
    {
      var slot := Probe(key);
      if slots[slot] == 0 {
        return false, 0;
      }
      KeyMembership(Contents, entries, slots[slot] - 1);
      return true, entries[slots[slot] - 1].value;
    }
  }
}
