/** The bounded list of names a directory listing fills: the lexically first ones, in order. */
module NameLists {
  import opened Bytes

  /** The lexically first names of a set, as many as fit. */
  ghost predicate FirstOf(all: set<Bytes>, capacity: nat, kept: set<Bytes>) {
    && kept <= all && |kept| == (if |all| < capacity then |all| else capacity)
    && forall a, b | a in kept && b in all - kept :: Precedes(a, b)
  }

  lemma {:induction false} SubsetOfSize(a: set<Bytes>, b: set<Bytes>)
    requires a <= b && |a| >= |b|
    ensures a == b
  {
    if b - a != {} {
      var x :| x in b - a;
      SubsetSize(a, b - {x});
    }
  }

  lemma {:induction false} SubsetSize(a: set<Bytes>, b: set<Bytes>)
    requires a <= b
    ensures |a| <= |b|
    decreases a
  {
    if x :| x in a {
      SubsetSize(a - {x}, b - {x});
    }
  }

  /** Which names fit is determined by the set of names alone. */
  lemma {:induction false} FirstOfIsUnique(all: set<Bytes>, capacity: nat, kept: set<Bytes>, other: set<Bytes>)
    requires FirstOf(all, capacity, kept) && FirstOf(all, capacity, other)
    ensures kept == other
  {
    if kept != other {
      assert forall n ::
        (n in kept ==> n in kept - other || n in other) && (n in other ==> n in other - kept || n in kept);
      if kept - other == {} {
        SubsetOfSize(kept, other);
      } else if other - kept == {} {
        SubsetOfSize(other, kept);
      } else {
        var a :| a in kept - other;
        var b :| b in other - kept;
        PrecedesTotal(a, b);
      }
    }
  }

  lemma {:induction false} RoomForAll(all: set<Bytes>, capacity: nat, kept: set<Bytes>)
    requires FirstOf(all, capacity, kept) && |kept| < capacity
    ensures kept == all
  {
    SubsetOfSize(kept, all);
  }

  /**
   Filtering after the cut gives the first names of the filtered set exactly when the filter removes
   nothing that was kept or keeps nothing that was cut.
   */
  lemma {:induction false} FilteredCut(all: set<Bytes>, capacity: nat, kept: set<Bytes>, wanted: set<Bytes>)
    requires FirstOf(all, capacity, kept) && wanted <= all
    ensures FirstOf(wanted, capacity, kept * wanted) <==> kept <= wanted || wanted <= kept
  {
    if kept <= wanted {
      assert kept * wanted == kept;
      SubsetSize(kept, wanted);
      if |all| <= capacity {
        SubsetOfSize(kept, all);
        assert wanted == kept;
      }
    } else if wanted <= kept {
      assert kept * wanted == wanted;
      SubsetSize(wanted, kept);
    } else {
      var u :| u in kept && u !in wanted;
      var r :| r in wanted && r !in kept;
      SubsetSize(kept * wanted, kept - {u});
      SubsetSize(kept * wanted + {r}, wanted);
    }
  }

  ghost predicate Ascending(names: seq<Bytes>) {
    forall i, j | 0 <= i < j < |names| :: Precedes(names[i], names[j])
  }

  ghost function Elements(names: seq<Bytes>): set<Bytes> {
    set n | n in names
  }

  lemma {:induction false} AscendingSize(names: seq<Bytes>)
    requires Ascending(names)
    ensures |Elements(names)| == |names|
  {
    if names != [] {
      var last := names[|names| - 1];
      AscendingSize(names[..|names| - 1]);
      assert Elements(names) == Elements(names[..|names| - 1]) + {last};
      forall i | 0 <= i < |names| - 1
        ensures names[i] != last
      {
        PrecedesTotal(names[i], last);
      }
    }
  }

  /** Where a name belongs in an ascending list. */
  ghost predicate Belongs(names: seq<Bytes>, name: Bytes, at: nat) {
    && at <= |names|
    && (forall i | 0 <= i < at :: Precedes(names[i], name))
    && forall i | at <= i < |names| :: Precedes(name, names[i])
  }

  lemma {:induction false} InsertAscending(names: seq<Bytes>, name: Bytes, at: nat)
    requires Ascending(names) && Belongs(names, name, at)
    ensures Ascending(names[..at] + [name] + names[at..])
    ensures Elements(names[..at] + [name] + names[at..]) == Elements(names) + {name}
  {
    var grown := names[..at] + [name] + names[at..];
    assert forall i | 0 <= i < |grown| && i != at :: grown[i] == names[if i < at then i else i - 1];
    assert grown[at] == name;
    forall n | n in Elements(names)
      ensures n in grown
    {
      var i :| 0 <= i < |names| && names[i] == n;
      assert grown[if i < at then i else i + 1] == n;
    }
  }

  /** A name after all of a full list is dropped. */
  lemma {:induction false} DropsNew(all: set<Bytes>, capacity: nat, kept: set<Bytes>, name: Bytes)
    requires FirstOf(all, capacity, kept) && |kept| == capacity && name !in all && forall a | a in kept ::
      Precedes(a, name)
    ensures FirstOf(all + {name}, capacity, kept)
  {
    hide Precedes;
    SubsetSize(kept, all);
    assert |all + {name}| == |all| + 1;
    forall a, b | a in kept && b in all + {name} - kept
      ensures Precedes(a, b)
    {
      assert b == name || b in all - kept;
    }
  }

  /** A name before the last of a full list takes that one's place. */
  lemma {:induction false} DropsLast(all: set<Bytes>, capacity: nat, others: set<Bytes>, last: Bytes, name: Bytes)
    requires last !in others && FirstOf(all, capacity, others + {last}) && |others| + 1 == capacity && name !in all
    requires Precedes(name, last) && forall a | a in others :: Precedes(a, last)
    ensures FirstOf(all + {name}, capacity, others + {name})
  {
    hide Precedes;
    SubsetSize(others + {last}, all);
    assert |all + {name}| == |all| + 1 && |others + {name}| == |others| + 1;
    forall a, b | a in others + {name} && b in all + {name} - (others + {name})
      ensures Precedes(a, b)
    {
      if b != last {
        assert b in all - (others + {last});
        PrecedesTransitive(a, last, b);
      }
    }
  }

  /** Adding a name to a full list: it is dropped, or the last kept name is. */
  lemma {:induction false} FullList(all: set<Bytes>, names: seq<Bytes>, name: Bytes, at: nat)
    requires Ascending(names) && Belongs(names, name, at) && name !in all && |names| > 0
    requires FirstOf(all, |names|, Elements(names))
    ensures at == |names| ==> FirstOf(all + {name}, |names|, Elements(names))
    ensures at < |names| ==>
      FirstOf(all + {name}, |names|, Elements(names[..|names| - 1]) + {name})
  {
    hide Precedes, FirstOf;
    AscendingSize(names);
    if at == |names| {
      DropsNew(all, |names|, Elements(names), name);
    } else {
      LastApart(names);
      DropsLast(all, |names|, Elements(names[..|names| - 1]), names[|names| - 1], name);
    }
  }

  /** The last of an ascending list comes after all others. */
  lemma {:induction false} LastApart(names: seq<Bytes>)
    requires Ascending(names) && names != []
    ensures var others, last := names[..|names| - 1], names[|names| - 1];
            && last !in Elements(others) && |Elements(others)| == |names| - 1
            && Elements(names) == Elements(others) + {last}
            && forall a | a in Elements(others) :: Precedes(a, last)
  {
    hide Precedes;
    var others, last := names[..|names| - 1], names[|names| - 1];
    assert Ascending(others);
    AscendingSize(others);
    PrecedesTotal(last, last);
  }

  /** The list after adding a name where it belongs, the last name making room if none is left. */
  ghost function Added(names: seq<Bytes>, capacity: nat, name: Bytes, at: nat): seq<Bytes>
    requires at <= |names| <= capacity && at < capacity
  {
    var kept := if |names| < capacity then names else names[..capacity - 1];
    kept[..at] + [name] + kept[at..]
  }

  lemma {:induction false} AddKeepsFirst(all: set<Bytes>, names: seq<Bytes>, capacity: nat, name: Bytes, at: nat)
    requires Ascending(names) && Belongs(names, name, at) && name !in all && at < capacity
    requires |names| <= capacity && FirstOf(all, capacity, Elements(names))
    ensures Ascending(Added(names, capacity, name, at))
    ensures FirstOf(all + {name}, capacity, Elements(Added(names, capacity, name, at)))
    ensures |names| < capacity <==> |all| < capacity
  {
    AscendingSize(names);
    if |names| < capacity {
      RoomForAll(all, capacity, Elements(names));
      InsertAscending(names, name, at);
    } else {
      FullList(all, names, name, at);
      InsertAscending(names[..capacity - 1], name, at);
    }
  }

  /** A new name is in no list of kept names, and a full list means that many names. */
  lemma {:induction false} KeptOf(all: set<Bytes>, capacity: nat, names: seq<Bytes>, name: Bytes)
    requires FirstOf(all, capacity, Elements(names)) && |Elements(names)| == |names| && name !in all
    ensures name !in names && (|names| == capacity ==> |all| >= capacity)
  {
    assert name in names <==> name in Elements(names);
  }

  class NameList {
    var names: array<Bytes>
    var count: nat

    ghost predicate Valid()
      reads this, names
    {
      count <= names.Length && names.Length > 0 && Ascending(names[..count])
    }

    /** The list holds the lexically first of all the names that were added. */
    ghost predicate Holds(all: set<Bytes>)
      requires Valid()
      reads this, names
    {
      FirstOf(all, names.Length, Elements(names[..count]))
    }

    constructor (capacity: nat)
      requires capacity > 0
      ensures Valid() && Holds({}) && names.Length == capacity && count == 0 && fresh(names)
    {
      names := new Bytes[capacity](_ => []);
      count := 0;
    }

    method Search(name: Bytes) returns (low: nat)
      requires Valid() && name !in names[..count]
      ensures Belongs(names[..count], name, low)
    {
      low := 0;
      var high := count;
      while low < high
        invariant low <= high <= count
        invariant forall i | 0 <= i < low :: Precedes(names[..count][i], name)
        invariant forall i | high <= i < count :: Precedes(name, names[..count][i])
      {
        var middle := low + (high - low) / 2;
        CompareIdsIsOrder(names[middle], name);
        assert names[..count][middle] == names[middle] != name;
        ghost var mid := middle;
        if CompareIds(names[middle], name) < 0 {
          low := middle + 1;
          BelowPivot(names[..count], mid, name);
        } else {
          high := middle;
          AbovePivot(names[..count], mid, name);
        }
      }
    }

    /** Adding a name not added before; the result says whether every name so far still fits. */
    method Add(name: Bytes, ghost all: set<Bytes>) returns (fits: bool)
      requires Valid() && Holds(all) && name !in all
      modifies this`count, names
      ensures Valid() && Holds(all + {name}) && (fits <==> |all| < names.Length)
    {
      ghost var before := names[..count];
      AscendingSize(before);
      KeptOf(all, names.Length, before, name);
      hide FirstOf, Ascending, Precedes, Elements;
      var low := Search(name);
      if low == names.Length {
        FullList(all, before, name, low);
        return false;
      }
      AddKeepsFirst(all, before, names.Length, name, low);
      fits := count < names.Length;
      Enter(low, name);
    }

    /** Writing a name where it belongs, over the last one if there is no room left. */
    method Enter(low: nat, name: Bytes)
      requires low <= count <= names.Length && low < names.Length
      modifies this`count, names
      ensures count <= names.Length && names[..count] == Added(old(names[..count]), names.Length, name, low)
    {
      ghost var before := names[..count];
      var kept := if count < names.Length then count else names.Length - 1;
      assert before[..kept] == names[..kept] && (kept == |before| ==> before[..kept] == before);
      Shift(low, kept, name);
      count := kept + 1;
    }

    /** Moving the names from a position up by one and writing the new one there. */
    method Shift(low: nat, kept: nat, name: Bytes)
      requires low <= kept < names.Length
      modifies names
      ensures names[..kept + 1] == old(names[..kept])[..low] + [name] + old(names[..kept])[low..]
    {
      forall k | low < k <= kept {
        names[k] := names[k - 1];
      }
      names[low] := name;
    }

    method Contains(name: Bytes) returns (found: bool)
      requires Valid()
      ensures found <==> name in Elements(names[..count])
    {
      var low, high := 0, count;
      while low < high
        invariant low <= high <= count
        invariant forall i | 0 <= i < low :: Precedes(names[..count][i], name)
        invariant forall i | high <= i < count :: Precedes(name, names[..count][i])
      {
        var middle := low + (high - low) / 2;
        var order := CompareIds(names[middle], name);
        CompareIdsIsOrder(names[middle], name);
        assert names[..count][middle] == names[middle];
        ghost var mid := middle;
        if order == 0 {
          return true;
        }
        if order < 0 {
          low := middle + 1;
          BelowPivot(names[..count], mid, name);
        } else {
          high := middle;
          AbovePivot(names[..count], mid, name);
        }
      }
      PrecedesTotal(name, name);
      return false;
    }
  }

  lemma {:induction false} BelowPivot(names: seq<Bytes>, middle: nat, name: Bytes)
    requires Ascending(names) && middle < |names| && Precedes(names[middle], name)
    ensures forall i | 0 <= i <= middle :: Precedes(names[i], name)
  {
    forall i | 0 <= i < middle
      ensures Precedes(names[i], name)
    {
      PrecedesTransitive(names[i], names[middle], name);
    }
  }

  lemma {:induction false} AbovePivot(names: seq<Bytes>, middle: nat, name: Bytes)
    requires Ascending(names) && middle < |names| && Precedes(name, names[middle])
    ensures forall i | middle <= i < |names| :: Precedes(name, names[i])
  {
    forall i | middle < i < |names|
      ensures Precedes(name, names[i])
    {
      PrecedesTransitive(name, names[middle], names[i]);
    }
  }
}
