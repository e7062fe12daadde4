/** Lists of items sorted by id, and the finite map from ids to states that such a list shows. */
module SortedStore {
  import opened Bytes
  import opened Items

  ghost predicate SortedFaces(faces: seq<Face>) {
    && (forall k | 0 <= k < |faces| :: faces[k].id.Some?)
    && forall i, j | 0 <= i < j < |faces| :: Precedes(faces[i].id.value, faces[j].id.value)
  }

  /** The map shown by a list: the same pairs of id and state, no more and no fewer. */
  ghost predicate Shows(shown: map<Bytes, State>, faces: seq<Face>) {
    && |shown| == |faces|
    && (forall k | 0 <= k < |faces| ::
          faces[k].id.Some? && faces[k].id.value in shown && shown[faces[k].id.value] == faces[k].state)
    && (forall b | b in shown :: HasId(faces, b))
  }

  ghost predicate HasId(faces: seq<Face>, id: Bytes) {
    exists k :: 0 <= k < |faces| && faces[k].id == Some(id)
  }

  /** Where an id belongs: everything before it precedes it, everything from there on follows it. */
  ghost predicate Splits(faces: seq<Face>, id: Bytes, position: nat) {
    && position <= |faces| && SortedFaces(faces)
    && (forall k | 0 <= k < position :: Precedes(faces[k].id.value, id))
    && (forall k | position <= k < |faces| :: Precedes(id, faces[k].id.value))
  }

  lemma {:induction false} SplitMeansAbsent(shown: map<Bytes, State>, faces: seq<Face>, id: Bytes, position: nat)
    requires Shows(shown, faces) && Splits(faces, id, position)
    ensures id !in shown && shown - {id} == shown && |shown| == |faces|
  {
    if id in shown {
      assert HasId(faces, id);
      PrecedesTotal(id, id);
    }
  }

  /** All ids shown lie strictly before (or strictly after) a split at an end of the list. */
  lemma {:induction false} SplitAtEnd(shown: map<Bytes, State>, faces: seq<Face>, id: Bytes)
    requires Shows(shown, faces) && Splits(faces, id, |faces|)
    ensures forall b | b in shown :: Precedes(b, id)
  {
    forall b | b in shown
      ensures Precedes(b, id)
    {
      assert HasId(faces, b);
    }
  }

  function Without<T>(s: seq<T>, k: nat): seq<T>
    requires k < |s|
  {
    s[..k] + s[k + 1..]
  }

  function With<T>(s: seq<T>, k: nat, x: T): seq<T>
    requires k <= |s|
  {
    s[..k] + [x] + s[k..]
  }

  lemma {:induction false} InsertKeepsOrder(faces: seq<Face>, position: nat, face: Face)
    requires face.id.Some? && Splits(faces, face.id.value, position)
    ensures SortedFaces(With(faces, position, face))
  {
    var grown := With(faces, position, face);
    assert forall k | 0 <= k < |grown| && k != position :: grown[k] == faces[if k < position then k else k - 1];
  }

  lemma {:induction false} IdsAfterInsert(faces: seq<Face>, position: nat, face: Face, b: Bytes)
    requires position <= |faces| && (face.id == Some(b) || HasId(faces, b))
    ensures HasId(With(faces, position, face), b)
  {
    var grown := With(faces, position, face);
    if face.id == Some(b) {
      assert grown[position].id == Some(b);
    } else {
      var k :| 0 <= k < |faces| && faces[k].id == Some(b);
      assert grown[if k < position then k else k + 1].id == Some(b);
    }
  }

  lemma {:induction false} InsertFace(shown: map<Bytes, State>, faces: seq<Face>, position: nat, face: Face)
    requires Shows(shown, faces) && position <= |faces| && face.id.Some? && face.id.value !in shown
    ensures Shows(shown[face.id.value := face.state], With(faces, position, face))
  {
    forall b | b in shown[face.id.value := face.state]
      ensures HasId(With(faces, position, face), b)
    {
      IdsAfterInsert(faces, position, face, b);
    }
  }

  lemma {:induction false} DistinctIds(faces: seq<Face>, i: nat, j: nat)
    requires SortedFaces(faces) && i < |faces| && j < |faces| && i != j
    ensures faces[i].id != faces[j].id
  {
    PrecedesTotal(faces[i].id.value, faces[j].id.value);
  }

  lemma {:induction false} RemoveKeepsOrder(faces: seq<Face>, position: nat)
    requires SortedFaces(faces) && position < |faces|
    ensures SortedFaces(Without(faces, position))
    ensures Splits(Without(faces, position), faces[position].id.value, position)
  {
    var rest := Without(faces, position);
    assert forall k | 0 <= k < |rest| :: rest[k] == faces[if k < position then k else k + 1];
  }

  lemma {:induction false} SizeWithout<K, V>(m: map<K, V>, key: K)
    requires key in m
    ensures |m - {key}| == |m| - 1
  {
    assert (m - {key}).Keys + {key} == m.Keys && |(m - {key}).Keys| == |m - {key}|;
  }

  lemma {:induction false} IdsAfterRemove(faces: seq<Face>, position: nat, b: Bytes)
    requires position < |faces| && HasId(faces, b) && faces[position].id != Some(b)
    ensures HasId(Without(faces, position), b)
  {
    var k :| 0 <= k < |faces| && faces[k].id == Some(b);
    assert Without(faces, position)[if k < position then k else k - 1].id == Some(b);
  }

  lemma {:induction false} RemoveFace(shown: map<Bytes, State>, faces: seq<Face>, position: nat)
    requires Shows(shown, faces) && SortedFaces(faces) && position < |faces|
    ensures Shows(shown - {faces[position].id.value}, Without(faces, position))
  {
    var rest, id := Without(faces, position), faces[position].id.value;
    SizeWithout(shown, id);
    forall k | 0 <= k < |rest|
      ensures rest[k].id.Some? && rest[k].id.value in shown - {id} && (shown - {id})[rest[k].id.value] == rest[k].state
    {
      DistinctIds(faces, position, if k < position then k else k + 1);
    }
    forall b | b in shown - {id}
      ensures HasId(rest, b)
    {
      IdsAfterRemove(faces, position, b);
    }
  }

  /** Replacing a face by one with the same id. */
  lemma {:induction false} ReplaceFace(shown: map<Bytes, State>, faces: seq<Face>, position: nat, face: Face)
    requires Shows(shown, faces) && SortedFaces(faces) && position < |faces| && face.id == faces[position].id
    ensures SortedFaces(faces[position := face])
    ensures Shows(shown[face.id.value := face.state], faces[position := face])
  {
    var changed := faces[position := face];
    forall k | 0 <= k < |faces| && k != position
      ensures faces[k].id.value != face.id.value
    {
      DistinctIds(faces, k, position);
    }
    forall b | b in shown[face.id.value := face.state]
      ensures HasId(changed, b)
    {
      assert HasId(faces, b);
      var k :| 0 <= k < |faces| && faces[k].id == Some(b);
      assert changed[k].id == Some(b);
    }
    assert shown[face.id.value := face.state].Keys == shown.Keys;
  }

  // ---- Shifting: the array while an empty slot travels through it ----

  /** The empty slot has travelled from the count down to a gap, each item it met moving up by one. */
  ghost function GapUp(was: seq<Item>, gap: nat, count: nat): (now: seq<Item>)
    requires gap <= count < |was|
    ensures |now| == |was| && (was[count] == Empty ==> now[gap] == Empty)
    ensures forall k | 0 <= k < gap :: now[k] == was[k]
    decreases count - gap
  {
    if gap == count then was else GapUp(was, gap + 1, count)[gap + 1 := was[gap]][gap := Empty]
  }

  lemma {:induction false} GapUpNext(was: seq<Item>, gap: nat, count: nat)
    requires 0 < gap <= count < |was|
    ensures var now := GapUp(was, gap, count);
            GapUp(was, gap - 1, count) == now[gap := now[gap - 1]][gap - 1 := Empty]
  {
  }

  lemma {:induction false} GapUpShape(was: seq<Item>, gap: nat, count: nat)
    requires gap <= count < |was| && was[count] == Empty
    ensures GapUp(was, gap, count) == was[..gap] + [Empty] + was[gap..count] + was[count + 1..]
    decreases count - gap
  {
    if gap < count {
      GapUpShape(was, gap + 1, count);
    }
  }

  /** The empty slot has travelled from a position up to a gap, each item it met moving down by one. */
  ghost function GapDown(was: seq<Item>, position: nat, gap: nat): (now: seq<Item>)
    requires position <= gap < |was|
    ensures |now| == |was| && (was[position] == Empty ==> now[gap] == Empty)
    ensures forall k | gap < k < |was| :: now[k] == was[k]
  {
    if gap == position then was else GapDown(was, position, gap - 1)[gap - 1 := was[gap]][gap := Empty]
  }

  lemma {:induction false} GapDownNext(was: seq<Item>, position: nat, gap: nat)
    requires position <= gap < |was| - 1
    ensures var now := GapDown(was, position, gap);
            GapDown(was, position, gap + 1) == now[gap := now[gap + 1]][gap + 1 := Empty]
  {
  }

  /** The block move: what was after the position down by one, and the gap behind it. */
  ghost function MovedDown(was: seq<Item>, position: nat, gap: nat): (now: seq<Item>)
    requires position <= gap < |was|
    ensures |now| == |was|
  {
    was[..position] + was[position + 1..gap + 1] + [Empty] + was[gap + 1..]
  }

  lemma {:induction false} MovedDownNext(was: seq<Item>, position: nat, gap: nat)
    requires position <= gap < |was| - 1
    ensures var now := MovedDown(was, position, gap);
            now[gap + 1] == was[gap + 1]
            && MovedDown(was, position, gap + 1) == now[gap := was[gap + 1]][gap + 1 := Empty]
  {
    var now, next := MovedDown(was, position, gap), MovedDown(was, position, gap + 1);
    var moved := now[gap := was[gap + 1]][gap + 1 := Empty];
    forall k | 0 <= k < |was|
      ensures next[k] == moved[k]
    {
    }
  }

  lemma {:induction false} GapDownStart(was: seq<Item>, position: nat)
    requires position < |was|
    ensures GapDown(was, position, position) == was
    ensures was[position] == Empty ==> MovedDown(was, position, position) == was
  {
    assert was[position + 1..position + 1] == [];
    assert was == was[..position] + [was[position]] + was[position + 1..];
  }

  lemma {:induction false} GapDownMoves(was: seq<Item>, position: nat, gap: nat)
    requires position <= gap < |was| && was[position] == Empty
    ensures GapDown(was, position, gap) == MovedDown(was, position, gap)
  {
    hide GapDown, MovedDown;
    if gap == position {
      GapDownStart(was, position);
    } else {
      GapDownMoves(was, position, gap - 1);
      GapDownNext(was, position, gap - 1);
      MovedDownNext(was, position, gap - 1);
    }
  }

  lemma {:induction false} GapDownShape(was: seq<Item>, position: nat, gap: nat)
    requires position <= gap < |was| && was[position] == Empty
    ensures GapDown(was, position, gap) == was[..position] + was[position + 1..gap + 1] + [Empty] + was[gap + 1..]
  {
    hide GapDown;
    GapDownMoves(was, position, gap);
  }

  /** Filling the gap that was opened inserts exactly one face. */
  lemma {:induction false} FilledGap(was: seq<Item>, position: nat, count: nat, item: Item)
    requires position <= count < |was| && AllItems(was[..count]) && AllEmpty(was[count..]) && item.Item?
    ensures var now := GapUp(was, position, count)[position := item];
            && AllItems(now[..count + 1]) && AllEmpty(now[count + 1..])
            && SlotFaces(now[..count + 1]) == With(SlotFaces(was[..count]), position, item.face)
  {
    assert was[count..][0] == Empty;
    GapUpShape(was, position, count);
    var now := GapUp(was, position, count)[position := item];
    assert now[..count + 1] == was[..count][..position] + [item] + was[..count][position..];
    assert now[count + 1..] == was[count..][1..];
  }

  lemma {:induction false} EmptiedSlot(was: seq<Item>, position: nat, count: nat)
    requires position < count <= |was| && AllItems(was[..count])
    ensures OneGap(was[position := Empty], position, count)
  {
    assert forall k | 0 <= k < count :: was[k] == was[..count][k];
  }

  /** Closing the gap left by a destroyed item removes exactly its face. */
  lemma {:induction false} ClosedGap(was: seq<Item>, position: nat, count: nat)
    requires position < count <= |was| && AllItems(was[..count]) && AllEmpty(was[count..])
    ensures var now := GapDown(was[position := Empty], position, count - 1);
            && AllItems(now[..count - 1]) && AllEmpty(now[count - 1..])
            && SlotFaces(now[..count - 1]) == Without(SlotFaces(was[..count]), position)
  {
    GapDownShape(was[position := Empty], position, count - 1);
    hide GapDown;
    var now := GapDown(was[position := Empty], position, count - 1);
    assert was[position := Empty][..position] == was[..count][..position];
    assert was[position := Empty][position + 1..count] == was[..count][position + 1..];
    assert was[position := Empty][count..] == was[count..];
    assert now[..count - 1] == was[..count][..position] + was[..count][position + 1..];
    assert now[count - 1..] == [Empty] + was[count..];
  }

  // ---- Sorted lists of named items are valid block contents ----

  /** A named face does not depend on its position. */
  ghost predicate FreshNamed(rules: Rules, face: Face) {
    face.id.Some? && Fresh(rules, true, 0, face)
  }

  /** What a view without an obstacle builds at any position is fresh under its id. */
  lemma {:induction false} BuiltIsFresh(rules: Rules, position: nat, view: View)
    requires view.id.Some? && Obstacle(rules, true, position, view).None?
    ensures Build(rules, true, position, view.id, Stored(view)).Some? && Obstacle(rules, true, 0, view).None?
    ensures FreshNamed(rules, Build(rules, true, position, view.id, Stored(view)).value)
  {
  }

  ghost predicate AllFreshNamed(rules: Rules, faces: seq<Face>) {
    forall k | 0 <= k < |faces| :: FreshNamed(rules, faces[k])
  }

  lemma {:induction false} NamedFacesMove(rules: Rules, faces: seq<Face>)
    requires forall k | 0 <= k < |faces| :: faces[k].id.Some?
    ensures AllFresh(rules, true, faces) <==> AllFreshNamed(rules, faces)
  {
    forall k | 0 <= k < |faces|
      ensures Fresh(rules, true, k, faces[k]) <==> FreshNamed(rules, faces[k])
    {
    }
  }

  lemma {:induction false} SortedIsUnique(faces: seq<Face>)
    requires SortedFaces(faces)
    ensures forall i, j | 0 <= i < j < |faces| :: faces[i].id != faces[j].id
  {
    forall i, j | 0 <= i < j < |faces|
      ensures faces[i].id != faces[j].id
    {
      DistinctIds(faces, i, j);
    }
  }

  /** One emptied slot among the first count items. */
  ghost predicate OneGap(slots: seq<Item>, position: nat, count: nat) {
    && position < count <= |slots| && slots[position] == Empty
    && forall k | position < k < count :: slots[k].Item?
  }

  lemma {:induction false} GapBounds(slots: seq<Item>, position: nat, count: nat)
    requires OneGap(slots, position, count)
    ensures position < count <= |slots|
  {
  }

  /** Everything that makes a list the valid contents of a native producer's block. */
  ghost predicate GoodList(rules: Rules, shown: map<Bytes, State>, faces: seq<Face>) {
    SortedFaces(faces) && AllFreshNamed(rules, faces) && Shows(shown, faces)
  }

  lemma {:induction false} InsertKeepsFresh(rules: Rules, faces: seq<Face>, position: nat, face: Face)
    requires AllFreshNamed(rules, faces) && FreshNamed(rules, face) && position <= |faces|
    ensures AllFreshNamed(rules, With(faces, position, face))
  {
    var grown := With(faces, position, face);
    forall k | 0 <= k < |grown|
      ensures FreshNamed(rules, grown[k])
    {
      assert grown[k] == if k < position then faces[k] else if k == position then face else faces[k - 1];
    }
  }

  lemma {:induction false} InsertKeepsGood(rules: Rules, shown: map<Bytes, State>, faces: seq<Face>, position: nat,
                                           face: Face)
    requires GoodList(rules, shown, faces) && FreshNamed(rules, face) && Splits(faces, face.id.value, position)
    ensures GoodList(rules, shown[face.id.value := face.state], With(faces, position, face))
  {
    InsertKeepsFresh(rules, faces, position, face);
    InsertKeepsOrder(faces, position, face);
    SplitMeansAbsent(shown, faces, face.id.value, position);
    InsertFace(shown, faces, position, face);
  }

  lemma {:induction false} RemoveKeepsGood(rules: Rules, shown: map<Bytes, State>, faces: seq<Face>, position: nat)
    requires GoodList(rules, shown, faces) && position < |faces|
    ensures GoodList(rules, shown - {faces[position].id.value}, Without(faces, position))
  {
    RemoveKeepsOrder(faces, position);
    RemoveFace(shown, faces, position);
  }

  lemma {:induction false} ReplaceKeepsGood(rules: Rules, shown: map<Bytes, State>, faces: seq<Face>, position: nat,
                                            face: Face)
    requires GoodList(rules, shown, faces) && FreshNamed(rules, face)
    requires position < |faces| && face.id == faces[position].id
    ensures GoodList(rules, shown[face.id.value := face.state], faces[position := face])
  {
    ReplaceFace(shown, faces, position, face);
  }

  // ---- What storing one item does to the map ----

  datatype PutResult = Unchanged | Changed | Evicted | Full | Failed

  ghost predicate IsLast(shown: map<Bytes, State>, last: Bytes) {
    last in shown && forall b | b in shown && b != last :: Precedes(b, last)
  }

  /** The lexically first ids are kept: an outcome of storing a view under an id, and the map after it. */
  ghost predicate PutOutcome(rules: Rules, maxItems: nat, shown: map<Bytes, State>, id: Bytes, view: View,
                             result: PutResult, after: map<Bytes, State>) {
    match result
    case Unchanged => id in shown && shown[id] == Stored(view) && after == shown
    case Failed => Obstacle(rules, true, 0, view).Some? && after == shown
    case Full => id !in shown && |shown| == maxItems && (forall b | b in shown :: Precedes(b, id)) && after == shown
    case Changed =>
      && Obstacle(rules, true, 0, view).None? && after == shown[id := Stored(view)]
      && (if id in shown then shown[id] != Stored(view) else |shown| < maxItems)
    case Evicted =>
      && Obstacle(rules, true, 0, view).None? && id !in shown && |shown| == maxItems
      && exists last :: IsLast(shown, last) && Precedes(id, last) && after == (shown - {last})[id := Stored(view)]
  }

  lemma {:induction false} EvictedOutcome(rules: Rules, maxItems: nat, shown: map<Bytes, State>, id: Bytes, view: View,
                                          last: Bytes)
    requires Obstacle(rules, true, 0, view).None? && id !in shown && |shown| == maxItems && IsLast(shown, last)
    requires Precedes(id, last)
    ensures PutOutcome(rules, maxItems, shown, id, view, Evicted, (shown - {last})[id := Stored(view)])
  {
  }

  lemma {:induction false} ChangedOutcome(rules: Rules, maxItems: nat, shown: map<Bytes, State>, id: Bytes, view: View)
    requires Obstacle(rules, true, 0, view).None? && if id in shown then shown[id] != Stored(view)
      else |shown| < maxItems
    ensures PutOutcome(rules, maxItems, shown, id, view, Changed, shown[id := Stored(view)])
  {
  }

  /** The last face has the last id; an id that belongs before it keeps its place when it goes. */
  lemma {:induction false} LastFaceIsLast(shown: map<Bytes, State>, faces: seq<Face>, id: Bytes, position: nat)
    requires Shows(shown, faces) && Splits(faces, id, position) && position < |faces|
    ensures IsLast(shown, faces[|faces| - 1].id.value) && Precedes(id, faces[|faces| - 1].id.value)
    ensures Splits(Without(faces, |faces| - 1), id, position)
  {
    forall b | b in shown && b != faces[|faces| - 1].id.value
      ensures Precedes(b, faces[|faces| - 1].id.value)
    {
      assert HasId(faces, b);
    }
    RemoveKeepsOrder(faces, |faces| - 1);
  }
}
