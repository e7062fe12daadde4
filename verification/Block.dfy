/**
 A block and its items: reconciliation of ctx:set, and the id-sorted store of native producers.
 Slots own allocations; the ghost Owner says which slot holds each live one, so a leak or a double
 release cannot verify.
 */
module Blocks {
  import opened Bytes
  import opened IdSet
  import opened IdIndexes
  import opened Items
  import opened Reconcile
  import opened SortedStore

  datatype Request = Single(entry: Parsed) | Sequence(entries: seq<Parsed>) | NotASequence

  datatype SetError = FeedOwned | NoSequence | TooMany | AtItem(number: nat, reason: Reason)

  datatype SetResult = Done(changed: bool) | Rejected(error: SetError)

  /** In the single form a state table has no id field: naming one is a parse error. */
  function ParseSingle(entry: Parsed): Parsed {
    if entry.Parsed? && entry.view.id.Some? then NotAState else entry
  }

  function EntriesOf(request: Request): seq<Parsed> {
    match request
    case Single(entry) => [ParseSingle(entry)]
    case Sequence(entries) => entries
    case NotASequence => []
  }

  class Block {
    const rules: Rules
    const hash: Bytes -> nat
    const maxItems: nat
    const hasFeed: bool
    var items: array<Item>
    var spare: array<Item>
    var count: nat
    var listMode: bool
    var nextCell: nat
    // Whether this block belongs to the generation on display, and the frame is out of date.
    var live: bool
    var renderDirty: bool

    // Where each live allocation is held.
    ghost var Owner: map<nat, (array<Item>, nat)>

    ghost predicate Shape()
      reads this
    {
      && items != spare && items.Length == spare.Length == maxItems
      && 1 <= maxItems <= MAX_FRAME_ITEMS && count <= maxItems
    }

    /** Every live allocation is held by exactly one slot: nothing leaks and nothing is held twice. */
    ghost predicate Owns()
      reads this, items, spare
    {
      && (forall c | c in Owner :: c < nextCell && Holds(Owner[c], c))
      && (forall i | 0 <= i < items.Length && items[i].Item? ::
            items[i].cell in Owner && Owner[items[i].cell] == (items, i))
      && (forall i | 0 <= i < spare.Length && spare[i].Item? ::
            spare[i].cell in Owner && Owner[spare[i].cell] == (spare, i))
    }

    ghost predicate Holds(place: (array<Item>, nat), cell: nat)
      reads this, items, spare
    {
      && (place.0 == items || place.0 == spare) && place.1 < place.0.Length
      && place.0[place.1].Item? && place.0[place.1].cell == cell
    }

    /** The rendered items, as seen from outside. */
    ghost function Faces(): (faces: seq<Face>)
      requires Shape() && AllItems(items[..count])
      reads this, items
      ensures |faces| == count
    {
      SlotFaces(items[..count])
    }

    ghost predicate Valid()
      reads this, items, spare
    {
      && Shape() && Owns()
      && AllItems(items[..count]) && AllEmpty(items[count..])
      // Between calls the spare array is empty.
      && AllEmpty(spare[..])
      && AllFresh(rules, listMode, Faces())
      && UniqueIds(FaceIds(Faces()))
    }

    constructor (rules: Rules, hash: Bytes -> nat, maxItems: nat, hasFeed: bool, live: bool)
      requires 1 <= maxItems <= MAX_FRAME_ITEMS
      ensures Valid() && Faces() == [] && fresh(items) && fresh(spare)
      ensures this.rules == rules && this.maxItems == maxItems && this.hasFeed == hasFeed && this.live == live
    {
      this.rules, this.hash, this.maxItems, this.hasFeed, this.live := rules, hash, maxItems, hasFeed, live;
      items := new Item[maxItems](_ => Empty);
      spare := new Item[maxItems](_ => Empty);
      count, listMode, nextCell, renderDirty, Owner := 0, false, 0, false, map[];
    }

    // ---- Slots ----

    /** Releasing a slot releases exactly the allocation it holds. */
    method Destroy(slots: array<Item>, i: nat)
      requires Shape() && Owns() && (slots == items || slots == spare) && i < slots.Length
      modifies slots, this`Owner
      ensures Owns() && slots[..] == old(slots[..])[i := Empty]
    {
      if slots[i].Item? {
        Owner := Owner - {slots[i].cell};
      }
      slots[i] := Empty;
    }

    /** Releasing the first n slots of an array whose other slots are empty. */
    method DestroyFirst(slots: array<Item>, n: nat)
      requires Shape() && Owns() && (slots == items || slots == spare)
      requires n <= slots.Length && AllEmpty(slots[n..])
      modifies slots, this`Owner
      ensures Owns() && AllEmpty(slots[..])
    {
      for i := 0 to n
        invariant Owns()
        invariant forall j | 0 <= j < slots.Length :: j < i || n <= j ==> slots[j] == Empty
      {
        Destroy(slots, i);
      }
    }

    /** Moving an item into an empty slot; the source slot is zeroed. */
    method Move(from: array<Item>, i: nat, to: array<Item>, j: nat)
      requires Shape() && Owns() && {from, to} == {items, spare} && i < from.Length && j < to.Length
      requires from[i].Item? && to[j] == Empty
      modifies from, to, this`Owner
      ensures Owns()
      ensures to[..] == old(to[..])[j := old(from[i])] && from[..] == old(from[..])[i := Empty]
    {
      Owner := Owner[from[i].cell := (to, j)];
      to[j] := from[i];
      from[i] := Empty;
    }

    /** Validating, copying and serializing one view into an empty slot. */
    method Materialize(listMode: bool, position: nat, view: View, slots: array<Item>, at: nat)
      returns (problem: Option<Reason>)
      requires Shape() && Owns() && (slots == items || slots == spare)
      requires at < slots.Length && slots[at] == Empty
      modifies slots, this`Owner, this`nextCell
      ensures Owns() && problem == Obstacle(rules, listMode, position, view)
      ensures problem.Some? ==> slots[..] == old(slots[..]) && Owner == old(Owner) && nextCell == old(nextCell)
      ensures problem.None? ==>
        && Build(rules, listMode, position, view.id, Stored(view)).Some?
        && slots[..] == old(slots[..])[at :=
             Item(Build(rules, listMode, position, view.id, Stored(view)).value, old(nextCell))]
    {
      if view.id.Some? && !rules.validId(view.id.value) {
        return Some(BadId);
      }
      if !rules.validState(Stored(view)) {
        return Some(BadState);
      }
      var face := Build(rules, listMode, position, view.id, Stored(view));
      if face.None? {
        return Some(TooLarge);
      }
      Place(slots, at, face.value);
      return None;
    }

    /** Putting a new item, with an allocation of its own, into an empty slot. */
    method Place(slots: array<Item>, at: nat, face: Face)
      requires Shape() && Owns() && (slots == items || slots == spare) && at < slots.Length && slots[at] == Empty
      modifies slots, this`Owner, this`nextCell
      ensures Owns() && slots[..] == old(slots[..])[at := Item(face, old(nextCell))]
    {
      var cell := nextCell;
      assert cell !in Owner;
      Owner, nextCell := Owner[cell := (slots, at)], cell + 1;
      slots[at] := Item(face, cell);
      assert slots[..] == old(slots[..])[at := Item(face, cell)];
      assert Holds((slots, at), cell);
      assert forall c | c in old(Owner) ::
        old(Holds(Owner[c], c)) && c != cell && Owner[c] == old(Owner)[c] && Holds(Owner[c], c);
    }

    // ---- ctx:set ----

    /** Reconciling the entry at one index: reuse a cached item, materialize a new one, or refuse. */
    method ReconcileEntry(listMode: bool, reusable: bool, entries: seq<Parsed>, index: nat, reuse: seq<Option<nat>>,
                          newIds: IdSet, oldIds: IdSet, known: bool, ghost olds: seq<Face>)
      returns (built: bool, problem: Option<Reason>, claim: Option<nat>)
      requires Shape() && Owns() && AllItems(items[..count]) && olds == Faces() && UniqueIds(FaceIds(olds))
      requires reusable ==> AllFresh(rules, listMode, olds)
      requires index < |entries| <= maxItems && NoProblems(rules, listMode, entries, index)
      requires Prepared(rules, listMode, reusable, olds, ViewsOf(entries)[..index], reuse, spare[..])
      requires newIds.Valid() && oldIds.Valid() && newIds != oldIds
      requires Knows(known, newIds.Contents, oldIds.Contents, reusable, FaceIds(olds),
                     ViewIds(ViewsOf(entries)[..index]))
      modifies spare, this`Owner, this`nextCell, newIds, oldIds
      ensures Owns() && newIds.Valid() && oldIds.Valid()
      ensures problem == Problem(rules, listMode, entries, index)
      ensures problem.Some? ==> spare[..] == old(spare[..])
      ensures problem.None? ==> NoProblems(rules, listMode, entries, index + 1)
      ensures problem.None? ==>
        Prepared(rules, listMode, reusable, olds, ViewsOf(entries)[..index + 1], reuse + [claim], spare[..])
      ensures problem.None? ==>
        Knows(built, newIds.Contents, oldIds.Contents, reusable, FaceIds(olds), ViewIds(ViewsOf(entries)[..index + 1]))
    {
      hide Owns, AllFresh, UniqueIds, Prepared, Knows, Fresh, Obstacle, Build;
      built, claim := known, None;
      if entries[index].NotAState? {
        return built, Some(Malformed), None;
      }
      var view := entries[index].view;
      NoProblemsMeansParsed(rules, listMode, entries, index);
      ViewsGrow(entries, index);
      var duplicate, found;
      built, duplicate, found :=
        MatchEntry(listMode, reusable, entries, index, reuse, newIds, oldIds, known, olds);
      if duplicate {
        return built, Some(DuplicateId), None;
      }
      problem, claim := Settle(listMode, reusable, view, index, reuse, found, olds, ViewsOf(entries)[..index]);
      if problem.None? {
        NoProblemsGrows(rules, listMode, entries, index);
      }
    }

    /** Looking up a parsed entry among the cached items and among the ids requested before it. */
    method MatchEntry(ghost listMode: bool, reusable: bool, entries: seq<Parsed>, index: nat, reuse: seq<Option<nat>>,
                      newIds: IdSet, oldIds: IdSet, known: bool, ghost olds: seq<Face>)
      returns (built: bool, duplicate: bool, found: Option<nat>)
      requires Shape() && AllItems(items[..count]) && olds == Faces() && UniqueIds(FaceIds(olds))
      requires index < |entries| <= maxItems && AllParsed(entries[..index + 1]) && entries[index].Parsed?
      requires Prepared(rules, listMode, reusable, olds, ViewsOf(entries)[..index], reuse, spare[..])
      requires newIds.Valid() && oldIds.Valid() && newIds != oldIds
      requires Knows(known, newIds.Contents, oldIds.Contents, reusable, FaceIds(olds),
                     ViewIds(ViewsOf(entries)[..index]))
      modifies newIds, oldIds
      ensures newIds.Valid() && oldIds.Valid()
      ensures duplicate <==> entries[index].view.id.Some? && RepeatsId(entries, index)
      ensures !duplicate ==>
        && Knows(built, newIds.Contents, oldIds.Contents, reusable, FaceIds(olds),
                 ViewIds(ViewsOf(entries)[..index + 1]))
        && IsMatch(reusable, FaceIds(olds), index, entries[index].view.id, found)
    {
      var id := entries[index].view.id;
      ghost var views := ViewsOf(entries)[..index];
      ViewsGrow(entries, index);
      if id.Some? {
        RepeatsIdIsMembership(entries, index);
      }
      CarriedIds(listMode, reusable, olds, views, reuse);
      built, duplicate, found := MatchItem(newIds, oldIds, known, items, count, spare, reuse, reusable, id,
                                           FaceIds(olds), ViewIds(views));
    }

    /** Reusing the matching cached item when its state is unchanged, else materializing the view. */
    method Settle(listMode: bool, reusable: bool, view: View, index: nat, reuse: seq<Option<nat>>,
                  found: Option<nat>, ghost olds: seq<Face>, ghost views: seq<View>)
      returns (problem: Option<Reason>, claim: Option<nat>)
      requires Shape() && Owns() && AllItems(items[..count]) && olds == Faces() && UniqueIds(FaceIds(olds))
      requires index == |views| < maxItems && Prepared(rules, listMode, reusable, olds, views, reuse, spare[..])
      requires IsMatch(reusable, FaceIds(olds), index, view.id, found)
      requires reusable ==> AllFresh(rules, listMode, olds)
      modifies spare, this`Owner, this`nextCell
      ensures Owns() && problem == Obstacle(rules, listMode, index, view)
      ensures problem.Some? ==> spare[..] == old(spare[..])
      ensures problem.None? ==>
        Prepared(rules, listMode, reusable, olds, views + [view], reuse + [claim], spare[..])
    {
      if found.Some? {
        MatchIsEquality(items[found.value].face.state, view);
        if StateMatchesView(items[found.value].face.state, view) {
          ReusedIsRebuilt(rules, listMode, reusable, olds, index, view, found.value);
          PreparedGrows(rules, listMode, reusable, olds, views, reuse, spare[..], view, found, Empty);
          return None, found;
        }
      }
      NothingToReuse(reusable, olds, index, view, found);
      ghost var before := spare[..];
      claim := None;
      problem := Materialize(listMode, index, view, spare, index);
      if problem.None? {
        PreparedGrows(rules, listMode, reusable, olds, views, reuse, before, view, None, spare[index]);
      }
    }

    /** The prepared entries carry the requested ids, so indexing them indexes the request. */
    lemma {:induction false} CarriedIds(listMode: bool, reusable: bool, olds: seq<Face>, views: seq<View>,
                                        reuse: seq<Option<nat>>)
      requires Shape() && AllItems(items[..count]) && olds == Faces()
      requires Prepared(rules, listMode, reusable, olds, views, reuse, spare[..])
      ensures HaveIds(items, FaceIds(olds)) && CarryIds(items, spare, reuse, ViewIds(views))
    {
      forall k | 0 <= k < count
        ensures items[k].Item? && items[k].face.id == FaceIds(olds)[k]
      {
        assert items[k] == items[..count][k];
      }
      forall k | 0 <= k < |views|
        ensures if reuse[k].Some? then reuse[k].value < items.Length && items[reuse[k].value].Item? else spare[k].Item?
        ensures ItemId(items, spare, reuse[k], k) == views[k].id
      {
        assert PreparedAt(rules, listMode, reusable, olds, k, views[k], reuse[k], spare[..][k]);
        assert reuse[k].Some? ==> items[reuse[k].value] == items[..count][reuse[k].value];
      }
    }

    /** Moving every reused item to its new position. */
    method Commit(reuse: seq<Option<nat>>, ghost listMode: bool, ghost reusable: bool, ghost views: seq<View>)
      requires Shape() && Owns() && AllItems(items[..count]) && AllEmpty(items[count..])
      requires Prepared(rules, listMode, reusable, Faces(), views, reuse, spare[..]) && UniqueIds(ViewIds(views))
      modifies items, spare, this`Owner
      ensures Owns() && AllEmpty(items[count..]) && AllEmpty(spare[|reuse|..])
      ensures Committed(reuse, old(items[..count]), old(spare[..]), spare[..|reuse|])
    {
      ghost var cached, next := items[..count], spare[..];
      assert items[..][count..] == items[count..];
      for k := 0 to |reuse|
        invariant Owns() && Moving(reuse, cached, next, items[..], spare[..], k)
      {
        MoveStep(rules, listMode, reusable, views, reuse, cached, next, items[..], spare[..], k);
        if reuse[k].Some? {
          Move(items, reuse[k].value, spare, k);
        }
      }
      assert items[count..] == items[..][count..];
      assert spare[|reuse|..] == next[|reuse|..];
    }

    /** Reconciling the entries in order up to the first problem. */
    method ReconcileAll(listMode: bool, reusable: bool, entries: seq<Parsed>, newIds: IdSet, oldIds: IdSet,
                        ghost olds: seq<Face>)
      returns (failed: Option<Reason>, reuse: seq<Option<nat>>, moved: bool)
      requires Shape() && Owns() && AllItems(items[..count]) && AllEmpty(spare[..]) && olds == Faces()
      requires UniqueIds(FaceIds(olds))
      requires |entries| <= maxItems && (reusable ==> AllFresh(rules, listMode, olds))
      requires newIds.Valid() && oldIds.Valid() && newIds != oldIds
      modifies spare, this`Owner, this`nextCell, newIds, oldIds
      ensures Owns() && |reuse| <= |entries| && NoProblems(rules, listMode, entries, |reuse|)
      ensures Prepared(rules, listMode, reusable, olds, ViewsOf(entries)[..|reuse|], reuse, spare[..])
      ensures if |reuse| < |entries| then failed.Some? && failed == Problem(rules, listMode, entries, |reuse|)
              else failed.None?
      ensures moved <==> Moved(reuse)
    {
      hide Owns, AllFresh, UniqueIds, Obstacle, Moved, Prepared, Knows, NoProblems, Problem, IdSet.Valid;
      NothingYet(rules, listMode, reusable, olds, entries, spare[..], newIds.Contents, oldIds.Contents);
      var built := false;
      reuse, moved, failed := [], false, None;
      for index := 0 to |entries|
        invariant failed.None? && |reuse| == index && Owns() && newIds.Valid() && oldIds.Valid()
        invariant NoProblems(rules, listMode, entries, index)
        invariant Prepared(rules, listMode, reusable, olds, ViewsOf(entries)[..index], reuse, spare[..])
        invariant Knows(built, newIds.Contents, oldIds.Contents, reusable, FaceIds(olds),
                        ViewIds(ViewsOf(entries)[..index]))
        invariant moved <==> Moved(reuse)
      {
        var claim;
        built, failed, claim := ReconcileEntry(listMode, reusable, entries, index, reuse, newIds, oldIds, built, olds);
        if failed.Some? {
          return;
        }
        MovedGrows(reuse, claim);
        moved := moved || claim != Some(index);
        reuse := reuse + [claim];
      }
    }

    /** Reconciliation with id indexes that live only as long as the call. */
    method Reconcile(listMode: bool, reusable: bool, entries: seq<Parsed>)
      returns (failed: Option<Reason>, reuse: seq<Option<nat>>, moved: bool)
      requires Shape() && Owns() && AllItems(items[..count]) && AllEmpty(spare[..]) && UniqueIds(FaceIds(Faces()))
      requires |entries| <= maxItems && (reusable ==> AllFresh(rules, listMode, Faces()))
      modifies spare, this`Owner, this`nextCell
      ensures Owns() && |reuse| <= |entries| && NoProblems(rules, listMode, entries, |reuse|)
      ensures Prepared(rules, listMode, reusable, Faces(), ViewsOf(entries)[..|reuse|], reuse, spare[..])
      ensures if |reuse| < |entries| then failed.Some? && failed == Problem(rules, listMode, entries, |reuse|)
              else failed.None?
      ensures moved <==> Moved(reuse)
    {
      var newIds := new IdSet(hash);
      var oldIds := new IdSet(hash);
      failed, reuse, moved := ReconcileAll(listMode, reusable, entries, newIds, oldIds, Faces());
    }

    /** A failed call releases what it materialized. */
    method Discard(reuse: seq<Option<nat>>, ghost views: seq<View>, ghost listMode: bool, ghost reusable: bool)
      requires Shape() && Owns() && AllItems(items[..count]) && AllEmpty(items[count..])
      requires AllFresh(rules, this.listMode, Faces()) && UniqueIds(FaceIds(Faces()))
      requires Prepared(rules, listMode, reusable, Faces(), views, reuse, spare[..])
      modifies spare, this`Owner
      ensures Valid()
    {
      ghost var next := spare[..];
      for index := 0 to |reuse|
        invariant Owns()
        invariant forall j | 0 <= j < spare.Length :: if j < index || |reuse| <= j then spare[j] == Empty
          else spare[j] == next[j]
      {
        assert PreparedAt(rules, listMode, reusable, Faces(), index, views[index], reuse[index], next[index]);
        if reuse[index].None? {
          Destroy(spare, index);
        }
      }
    }

    /** Committing a complete reconciliation: move, retire what is left, swap the arrays. */
    method Finish(listMode: bool, reuse: seq<Option<nat>>, ghost reusable: bool, ghost entries: seq<Parsed>)
      requires Shape() && Owns() && AllItems(items[..count]) && AllEmpty(items[count..])
      requires |reuse| == |entries| && NoProblems(rules, listMode, entries, |entries|)
      requires reusable ==> AllFresh(rules, listMode, Faces())
      requires Prepared(rules, listMode, reusable, Faces(), ViewsOf(entries), reuse, spare[..])
      modifies this, items, spare
      ensures Valid() && items == old(spare) && spare == old(items)
      ensures this.listMode == listMode && live == old(live) && renderDirty == old(renderDirty)
      ensures count == |entries| && IsRebuild(rules, listMode, ViewsOf(entries), Faces())
      ensures Committed(reuse, old(items[..count]), old(spare[..]), items[..count])
    {
      ghost var cached, next, views := items[..count], spare[..], ViewsOf(entries);
      NoProblemMeansUnique(rules, listMode, entries);
      Commit(reuse, listMode, reusable, views);
      DestroyFirst(items, count);
      CommittedIsRebuilt(rules, listMode, reusable, cached, views, reuse, next, spare[..|reuse|]);
      hide NoProblems, Prepared, Committed, IsRebuild, AllFresh, UniqueIds, Owns;
      Swap(listMode, |reuse|);
    }

    /** The prepared items become the items, and the emptied array the spare one. */
    method Swap(listMode: bool, n: nat)
      requires Shape() && Owns() && AllEmpty(items[..]) && n <= maxItems && AllItems(spare[..n]) && AllEmpty(spare[n..])
      requires AllFresh(rules, listMode, SlotFaces(spare[..n])) && UniqueIds(FaceIds(SlotFaces(spare[..n])))
      modifies this`items, this`spare, this`count, this`listMode
      ensures Valid() && items == old(spare) && spare == old(items) && count == n && this.listMode == listMode
    {
      items, spare := spare, items;
      count := n;
      this.listMode := listMode;
    }

    /** Why a request is refused before any entry is looked at. */
    function Refusal(request: Request): Option<SetError> {
      if hasFeed then Some(FeedOwned)
      else if request.NotASequence? then Some(NoSequence)
      else if |EntriesOf(request)| > maxItems then Some(TooMany)
      else None
    }

    /**
     ctx:set. A successful call shows exactly what rebuilding from the request would show, keeps
     unchanged items with their allocation, and reports a change exactly when there is one; a
     refused call names the first problem and leaves the items as they were.
     */
    method Set(request: Request) returns (result: SetResult)
      requires Valid()
      modifies this, items, spare
      ensures Valid() && live == old(live)
      ensures Refusal(request).Some? ==> result == Rejected(Refusal(request).value)
      ensures Refusal(request).None? && result.Rejected? ==>
        && result.error.AtItem? && 1 <= result.error.number <= |EntriesOf(request)|
        && NoProblems(rules, request.Sequence?, EntriesOf(request), result.error.number - 1)
        && Problem(rules, request.Sequence?, EntriesOf(request), result.error.number - 1) == Some(result.error.reason)
      ensures result.Rejected? ==>
        && items == old(items) && items[..] == old(items[..]) && count == old(count)
        && listMode == old(listMode) && renderDirty == old(renderDirty)
      ensures result.Done? ==>
        && Refusal(request).None? && listMode == request.Sequence?
        && NoProblems(rules, listMode, EntriesOf(request), |EntriesOf(request)|)
        && IsRebuild(rules, listMode, ViewsOf(EntriesOf(request)), Faces())
        && renderDirty == (old(renderDirty) || (result.changed && live))
      ensures result.Done? && listMode == old(listMode) ==>
        && (result.changed <==> !SameContent(old(Faces()), ViewsOf(EntriesOf(request))))
        && forall k: nat, m: nat | k < count && Reuses(true, old(Faces()), k, ViewsOf(EntriesOf(request))[k], m) ::
             items[k] == old(items[..count])[m]
      ensures result.Done? && listMode != old(listMode) ==> (result.changed <==> count != 0 || old(count) != 0)
    {
      hide NoProblems, Problem, IsRebuild, SameContent, Reuses, Owns, AllFresh, UniqueIds, AllEmpty;
      var refusal := Refusal(request);
      if refusal.Some? {
        return Rejected(refusal.value);
      }
      result := SetEntries(request.Sequence?, EntriesOf(request));
    }

    method SetEntries(newMode: bool, entries: seq<Parsed>) returns (result: SetResult)
      requires Valid() && |entries| <= maxItems
      modifies this, items, spare
      ensures Valid() && live == old(live)
      ensures result.Rejected? ==>
        && result.error.AtItem? && 1 <= result.error.number <= |entries|
        && NoProblems(rules, newMode, entries, result.error.number - 1)
        && Problem(rules, newMode, entries, result.error.number - 1) == Some(result.error.reason)
        && items == old(items) && items[..] == old(items[..]) && count == old(count)
        && listMode == old(listMode) && renderDirty == old(renderDirty)
      ensures result.Done? ==>
        && listMode == newMode && NoProblems(rules, newMode, entries, |entries|)
        && IsRebuild(rules, newMode, ViewsOf(entries), Faces())
        && renderDirty == (old(renderDirty) || (result.changed && live))
      ensures result.Done? && newMode == old(listMode) ==>
        && (result.changed <==> !SameContent(old(Faces()), ViewsOf(entries)))
        && forall k: nat, m: nat | k < count && Reuses(true, old(Faces()), k, ViewsOf(entries)[k], m) ::
             items[k] == old(items[..count])[m]
      ensures result.Done? && newMode != old(listMode) ==> (result.changed <==> count != 0 || old(count) != 0)
    {
      hide Owns, AllFresh, UniqueIds, AllEmpty, Prepared, NoProblems, Problem, Moved, IsRebuild, SameContent, Reuses;
      var reusable := newMode == listMode;
      ghost var views := ViewsOf(entries);
      var failed, reuse, moved := Reconcile(newMode, reusable, entries);
      if failed.Some? {
        Discard(reuse, views[..|reuse|], newMode, reusable);
        return Rejected(AtItem(|reuse| + 1, failed.value));
      }
      assert views[..|reuse|] == views;
      var changed := Complete(newMode, reusable, reuse, moved, entries);
      return Done(changed);
    }

    /** The successful end of a call: the change flag, the commit, and what was kept. */
    method Complete(newMode: bool, reusable: bool, reuse: seq<Option<nat>>, moved: bool, entries: seq<Parsed>)
      returns (changed: bool)
      requires Shape() && Owns() && AllItems(items[..count]) && AllEmpty(items[count..])
      requires AllFresh(rules, listMode, Faces()) && UniqueIds(FaceIds(Faces())) && reusable == (newMode == listMode)
      requires |reuse| == |entries| && NoProblems(rules, newMode, entries, |entries|) && (moved <==> Moved(reuse))
      requires Prepared(rules, newMode, reusable, Faces(), ViewsOf(entries), reuse, spare[..])
      modifies this, items, spare
      ensures Valid() && live == old(live) && listMode == newMode && count == |entries|
      ensures IsRebuild(rules, newMode, ViewsOf(entries), Faces())
      ensures renderDirty == (old(renderDirty) || (changed && live))
      ensures reusable ==> (changed <==> !SameContent(old(Faces()), ViewsOf(entries)))
      ensures reusable ==>
        forall k: nat, m: nat | k < count && Reuses(true, old(Faces()), k, ViewsOf(entries)[k], m) ::
          items[k] == old(items[..count])[m]
      ensures !reusable ==> (changed <==> count != 0 || old(count) != 0)
    {
      ghost var cached, views, next := items[..count], ViewsOf(entries), spare[..];
      ChangedIsExact(rules, newMode, reusable, Faces(), views, reuse, next);
      changed := |entries| != count || moved;
      if changed && live {
        renderDirty := true;
      }
      Finish(newMode, reuse, reusable, entries);
      KeptItems(reusable, cached, views, reuse, next);
    }

    lemma {:induction false} KeptItems(reusable: bool, cached: seq<Item>, views: seq<View>, reuse: seq<Option<nat>>,
                                       next: seq<Item>)
      requires Shape() && count == |views| && AllItems(cached) && UniqueIds(FaceIds(SlotFaces(cached)))
      requires Prepared(rules, listMode, reusable, SlotFaces(cached), views, reuse, next)
      requires Committed(reuse, cached, next, items[..count])
      ensures forall k: nat, m: nat | k < count && Reuses(reusable, SlotFaces(cached), k, views[k], m) ::
                items[k] == cached[m]
    {
      forall k: nat, m: nat | k < count && Reuses(reusable, SlotFaces(cached), k, views[k], m)
        ensures items[k] == cached[m]
      {
        UnchangedItemsAreKept(rules, listMode, reusable, cached, views, reuse, next, items[..count], k, m);
      }
    }

    // ---- The id-sorted store of a native producer ----

    /** A native producer's block shows this map, as a list sorted by id. */
    ghost predicate Keyed(shown: map<Bytes, State>)
      requires Valid()
      reads this, items, spare
    {
      (count == 0 || listMode) && GoodList(rules, shown, Faces())
    }

    /** Binary search for an id. */
    method FindItem(id: Bytes) returns (found: bool, position: nat)
      requires Shape() && AllItems(items[..count]) && SortedFaces(Faces())
      ensures found ==> position < count && Faces()[position].id == Some(id)
      ensures !found ==> Splits(Faces(), id, position)
    {
      ghost var faces := Faces();
      var low, high := 0, count;
      while low < high
        invariant low <= high <= count
        invariant forall k | 0 <= k < low :: Precedes(faces[k].id.value, id)
        invariant forall k | high <= k < count :: Precedes(id, faces[k].id.value)
      {
        var middle := low + (high - low) / 2;
        assert items[middle] == items[..count][middle];
        assert faces[middle].id.Some?;
        var order := CompareIds(items[middle].face.id.value, id);
        CompareIdsIsOrder(items[middle].face.id.value, id);
        if order == 0 {
          return true, middle;
        }
        if order < 0 {
          BeforeMiddle(faces, middle, id);
          low := middle + 1;
        } else {
          AfterMiddle(faces, middle, id);
          high := middle;
        }
      }
      return false, low;
    }

    /** Moving one item to an empty slot of the same array. */
    method Slide(i: nat, j: nat)
      requires Shape() && Owns() && i < items.Length && j < items.Length && items[i].Item? && items[j] == Empty
      modifies items, this`Owner
      ensures Owns() && items[..] == old(items[..])[j := old(items[i])][i := Empty]
    {
      Owner := Owner[items[i].cell := (items, j)];
      items[j] := items[i];
      items[i] := Empty;
    }

    /** Shifting the items from a position up by one slot. */
    method OpenGap(position: nat)
      requires Shape() && Owns() && position <= count < maxItems && AllItems(items[..count]) && items[count] == Empty
      modifies items, this`Owner
      ensures Owns() && items[..] == GapUp(old(items[..]), position, count)
    {
      ghost var was := items[..];
      var gap := count;
      while gap > position
        invariant position <= gap <= count && Owns() && items[..] == GapUp(was, gap, count)
      {
        GapUpNext(was, gap, count);
        assert was[gap - 1] == was[..count][gap - 1];
        Slide(gap - 1, gap);
        gap := gap - 1;
      }
    }

    method SlideDown(gap: nat, ghost was: seq<Item>, ghost position: nat)
      requires Shape() && Owns() && position <= gap < count - 1 && |was| == items.Length
      requires OneGap(was, position, count) && items[..] == GapDown(was, position, gap)
      modifies items, this`Owner
      ensures Owns() && items[..] == GapDown(was, position, gap + 1)
    {
      GapDownNext(was, position, gap);
      assert items[gap] == items[..][gap] && items[gap + 1] == items[..][gap + 1];
      Slide(gap + 1, gap);
    }

    /** Shifting the items above an emptied position down by one slot. */
    method CloseGap(position: nat)
      requires Shape() && Owns() && OneGap(items[..], position, count)
      modifies items, this`Owner
      ensures Owns() && items[..] == GapDown(old(items[..]), position, count - 1)
    {
      hide GapDown, Owns, OneGap;
      ghost var was := items[..];
      GapBounds(was, position, count);
      var gap := position;
      GapDownStart(was, position);
      while gap < count - 1
        invariant position <= gap < count && Owns() && items[..] == GapDown(was, position, gap)
      {
        SlideDown(gap, was, position);
        gap := gap + 1;
      }
    }

    /** A sorted list of named, fresh faces in the first slots makes the block valid. */
    lemma {:induction false} GoodListIsValid(shown: map<Bytes, State>)
      requires Shape() && Owns() && AllItems(items[..count]) && AllEmpty(items[count..]) && AllEmpty(spare[..])
      requires (count == 0 || listMode) && GoodList(rules, shown, Faces())
      ensures Valid() && Keyed(shown)
    {
      NamedFacesMove(rules, Faces());
      SortedIsUnique(Faces());
    }

    method InsertSlot(position: nat, face: Face)
      requires Shape() && Owns() && AllItems(items[..count]) && AllEmpty(items[count..]) && position <= count < maxItems
      modifies items, this`count, this`Owner, this`nextCell
      ensures Shape() && Owns() && count == old(count) + 1 && AllItems(items[..count]) && AllEmpty(items[count..])
      ensures Faces() == With(old(Faces()), position, face)
    {
      FilledGap(items[..], position, count, Item(face, nextCell));
      GapUpShape(items[..], position, count);
      OpenGap(position);
      Place(items, position, face);
      count := count + 1;
      assert items[count..] == items[..][count..];
    }

    method DestroyAndClose(position: nat)
      requires Shape() && Owns() && AllItems(items[..count]) && position < count
      modifies items, this`Owner
      ensures Owns() && items[..] == GapDown(old(items[..])[position := Empty], position, count - 1)
    {
      EmptiedSlot(items[..], position, count);
      Destroy(items, position);
      CloseGap(position);
    }

    method RemoveSlot(position: nat)
      requires Shape() && Owns() && AllItems(items[..count]) && AllEmpty(items[count..]) && position < count
      modifies items, this`count, this`Owner
      ensures Shape() && Owns() && count == old(count) - 1 && AllItems(items[..count]) && AllEmpty(items[count..])
      ensures Faces() == Without(old(Faces()), position)
    {
      hide GapDown;
      ClosedGap(items[..], position, count);
      DestroyAndClose(position);
      count := count - 1;
      assert items[..count] == items[..][..count] && items[count..] == items[..][count..];
    }

    method ReplaceSlot(position: nat, face: Face)
      requires Shape() && Owns() && AllItems(items[..count]) && AllEmpty(items[count..]) && position < count
      modifies items, this`Owner, this`nextCell
      ensures Shape() && Owns() && AllItems(items[..count]) && AllEmpty(items[count..])
      ensures Faces() == old(Faces())[position := face]
    {
      ghost var was := items[..];
      Destroy(items, position);
      Place(items, position, face);
      assert items[count..] == was[count..];
      assert items[..count] == was[..count][position := items[position]];
    }

    method InsertAt(position: nat, face: Face, ghost shown: map<Bytes, State>)
      requires Valid() && Keyed(shown) && listMode && count < maxItems
      requires FreshNamed(rules, face) && Splits(Faces(), face.id.value, position)
      modifies items, this`count, this`Owner, this`nextCell
      ensures Valid() && Keyed(shown[face.id.value := face.state]) && count == old(count) + 1
    {
      InsertKeepsGood(rules, shown, Faces(), position, face);
      InsertSlot(position, face);
      GoodListIsValid(shown[face.id.value := face.state]);
    }

    method RemoveAt(position: nat, ghost shown: map<Bytes, State>)
      requires Valid() && Keyed(shown) && position < count
      modifies items, this`count, this`Owner
      ensures Valid() && Keyed(shown - {old(Faces()[position].id.value)}) && count == old(count) - 1
      ensures Faces() == Without(old(Faces()), position)
    {
      ghost var id := Faces()[position].id.value;
      RemoveKeepsGood(rules, shown, Faces(), position);
      RemoveSlot(position);
      GoodListIsValid(shown - {id});
    }

    method ReplaceAt(position: nat, face: Face, ghost shown: map<Bytes, State>)
      requires Valid() && Keyed(shown) && position < count
      requires FreshNamed(rules, face) && face.id == Faces()[position].id
      modifies items, this`Owner, this`nextCell
      ensures Valid() && Keyed(shown[face.id.value := face.state])
    {
      ReplaceKeepsGood(rules, shown, Faces(), position, face);
      ReplaceSlot(position, face);
      GoodListIsValid(shown[face.id.value := face.state]);
    }

    /** A native producer's block is always a list; a change on display asks for a new frame. */
    method EnterListMode(ghost shown: map<Bytes, State>)
      requires Valid() && Keyed(shown)
      modifies this`listMode
      ensures Valid() && Keyed(shown) && listMode
    {
      listMode := true;
      GoodListIsValid(shown);
    }

    method MarkChanged(ghost shown: map<Bytes, State>)
      requires Valid() && Keyed(shown)
      modifies this`renderDirty
      ensures Valid() && Keyed(shown) && Faces() == old(Faces()) && renderDirty == (old(renderDirty) || live)
    {
      renderDirty := renderDirty || live;
    }

    /** Storing one item of a native producer; a full block keeps the lexically first ids. */
    method PutItem(id: Bytes, view: View, ghost shown: map<Bytes, State>)
      returns (result: PutResult, ghost after: map<Bytes, State>)
      requires Valid() && Keyed(shown) && view.id == Some(id)
      modifies items, this`count, this`Owner, this`nextCell, this`listMode, this`renderDirty
      ensures Valid() && Keyed(after) && PutOutcome(rules, maxItems, shown, id, view, result, after)
      ensures renderDirty == (old(renderDirty) || (live && (result == Changed || result == Evicted)))
    {
      EnterListMode(shown);
      var found, position := FindItem(id);
      if found {
        result, after := PutFound(id, position, view, shown);
      } else {
        result, after := PutNew(id, position, view, shown);
      }
    }

    method PutFound(id: Bytes, position: nat, view: View, ghost shown: map<Bytes, State>)
      returns (result: PutResult, ghost after: map<Bytes, State>)
      requires Valid() && Keyed(shown) && listMode && view.id == Some(id)
      requires position < count && Faces()[position].id == Some(id)
      modifies items, this`Owner, this`nextCell, this`renderDirty
      ensures Valid() && Keyed(after) && PutOutcome(rules, maxItems, shown, id, view, result, after)
      ensures renderDirty == (old(renderDirty) || (live && (result == Changed || result == Evicted)))
    {
      assert shown[id] == Faces()[position].state;
      MatchIsEquality(items[position].face.state, view);
      if StateMatchesView(items[position].face.state, view) {
        return Unchanged, shown;
      }
      if Obstacle(rules, true, position, view).Some? {
        return Failed, shown;
      }
      MarkChanged(shown);
      ReplaceAt(position, Build(rules, true, position, view.id, Stored(view)).value, shown);
      return Changed, shown[id := Stored(view)];
    }

    method PutNew(id: Bytes, position: nat, view: View, ghost shown: map<Bytes, State>)
      returns (result: PutResult, ghost after: map<Bytes, State>)
      requires Valid() && Keyed(shown) && listMode && view.id == Some(id) && Splits(Faces(), id, position)
      modifies items, this`count, this`Owner, this`nextCell, this`renderDirty
      ensures Valid() && Keyed(after) && PutOutcome(rules, maxItems, shown, id, view, result, after)
      ensures renderDirty == (old(renderDirty) || (live && (result == Changed || result == Evicted)))
    {
      hide Owns, AllFresh, UniqueIds, AllEmpty, Shows, SortedFaces, AllFreshNamed, Precedes, IsLast;
      SplitMeansAbsent(shown, Faces(), id, position);
      if count == maxItems && position == count {
        SplitAtEnd(shown, Faces(), id);
        return PutResult.Full, shown;
      }
      if Obstacle(rules, true, position, view).Some? {
        return Failed, shown;
      }
      result, after := PutBuilt(id, position, view, shown);
    }

    /** A view that builds, under an id that is not shown and belongs before the end of a full list. */
    method PutBuilt(id: Bytes, position: nat, view: View, ghost shown: map<Bytes, State>)
      returns (result: PutResult, ghost after: map<Bytes, State>)
      requires Valid() && Keyed(shown) && listMode && view.id == Some(id) && Splits(Faces(), id, position)
      requires id !in shown
      requires Obstacle(rules, true, position, view).None? && |shown| == count && (position < count || count < maxItems)
      modifies items, this`count, this`Owner, this`nextCell, this`renderDirty
      ensures Valid() && Keyed(after) && PutOutcome(rules, maxItems, shown, id, view, result, after)
      ensures renderDirty == (old(renderDirty) || live) && (result == Changed || result == Evicted)
    {
      BuiltIsFresh(rules, position, view);
      KnownCount();
      hide Valid, Keyed, Splits, FreshNamed, Build, IsLast, Precedes, PutOutcome, Obstacle;
      var face := Build(rules, true, position, view.id, Stored(view)).value;
      MarkChanged(shown);
      result, after := PutFace(position, face, shown);
      if result == Evicted {
        ghost var last :| IsLast(shown, last) && Precedes(id, last) && after == (shown - {last})[id := Stored(view)];
        EvictedOutcome(rules, maxItems, shown, id, view, last);
      } else {
        ChangedOutcome(rules, maxItems, shown, id, view);
      }
    }

    /** A new face where it belongs, the last one making room if none is left. */
    method PutFace(position: nat, face: Face, ghost shown: map<Bytes, State>)
      returns (result: PutResult, ghost after: map<Bytes, State>)
      requires Valid() && Keyed(shown) && listMode && (position < count || count < maxItems)
      requires FreshNamed(rules, face) && Splits(Faces(), face.id.value, position)
      modifies items, this`count, this`Owner, this`nextCell
      ensures Valid() && Keyed(after) && result == if old(count) == maxItems then Evicted else Changed
      ensures result == Changed ==> after == shown[face.id.value := face.state]
      ensures result == Evicted ==> exists last ::
                IsLast(shown, last) && Precedes(face.id.value, last)
                && after == (shown - {last})[face.id.value := face.state]
    {
      KnownCount();
      hide Owns, GoodList, AllFresh, IsLast, Precedes, Splits, FreshNamed, AllEmpty;
      if count == maxItems {
        ghost var last := EvictAndInsert(position, face, shown);
        return Evicted, (shown - {last})[face.id.value := face.state];
      }
      InsertAt(position, face, shown);
      return Changed, shown[face.id.value := face.state];
    }

    lemma {:induction false} KnownCount()
      requires Valid()
      ensures Shape() && AllItems(items[..count]) && |Faces()| == count
    {
    }

    /** Evicting the last item; the new id, which precedes it, keeps its place. */
    method EvictLast(position: nat, ghost id: Bytes, ghost shown: map<Bytes, State>) returns (ghost last: Bytes)
      requires Valid() && Keyed(shown) && position < count && Splits(Faces(), id, position)
      modifies items, this`count, this`Owner
      ensures IsLast(shown, last) && Precedes(id, last)
      ensures Valid() && Keyed(shown - {last}) && count == old(count) - 1 && Splits(Faces(), id, position)
    {
      hide Owns, AllFresh, UniqueIds, AllEmpty, Shows, Splits, AllFreshNamed, Precedes, IsLast;
      last := Faces()[count - 1].id.value;
      LastFaceIsLast(shown, Faces(), id, position);
      RemoveAt(count - 1, shown);
    }

    method EvictAndInsert(position: nat, face: Face, ghost shown: map<Bytes, State>) returns (ghost last: Bytes)
      requires Valid() && Keyed(shown) && listMode && position < count
      requires FreshNamed(rules, face) && Splits(Faces(), face.id.value, position)
      modifies items, this`count, this`Owner, this`nextCell
      ensures IsLast(shown, last) && Precedes(face.id.value, last)
      ensures Valid() && Keyed((shown - {last})[face.id.value := face.state])
    {
      hide GoodList, AllFresh;
      last := EvictLast(position, face.id.value, shown);
      InsertAt(position, face, shown - {last});
    }

    /** Removing an item by id. */
    method RemoveItem(id: Bytes, ghost shown: map<Bytes, State>) returns (removed: bool, ghost position: nat)
      requires Valid() && Keyed(shown)
      modifies items, this`count, this`Owner, this`renderDirty
      ensures Valid() && Keyed(shown - {id}) && (removed <==> id in shown)
      ensures renderDirty == (old(renderDirty) || (live && removed))
      ensures removed ==>
        && position < old(count) && old(Faces())[position].id == Some(id) && Faces() == Without(old(Faces()), position)
      ensures !removed ==> Faces() == old(Faces())
    {
      hide Owns, AllFresh, UniqueIds, AllEmpty, AllFreshNamed, Precedes, Without;
      var at;
      removed, at := FindItem(id);
      position := at;
      if !removed {
        SplitMeansAbsent(shown, Faces(), id, at);
        return;
      }
      assert Faces()[at].id.value in shown;
      MarkChanged(shown);
      RemoveAt(at, shown);
    }
  }

  lemma {:induction false} BeforeMiddle(faces: seq<Face>, middle: nat, id: Bytes)
    requires SortedFaces(faces) && middle < |faces| && Precedes(faces[middle].id.value, id)
    ensures forall k | 0 <= k <= middle :: Precedes(faces[k].id.value, id)
  {
    forall k | 0 <= k < middle
      ensures Precedes(faces[k].id.value, id)
    {
      PrecedesTransitive(faces[k].id.value, faces[middle].id.value, id);
    }
  }

  lemma {:induction false} AfterMiddle(faces: seq<Face>, middle: nat, id: Bytes)
    requires SortedFaces(faces) && middle < |faces| && Precedes(id, faces[middle].id.value)
    ensures forall k | middle <= k < |faces| :: Precedes(id, faces[k].id.value)
  {
    forall k | middle < k < |faces|
      ensures Precedes(id, faces[k].id.value)
    {
      PrecedesTransitive(id, faces[middle].id.value, faces[k].id.value);
    }
  }
}
