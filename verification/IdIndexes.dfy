/** The two lazily built id indexes of one ctx:set call, and the search for a reusable item. */
module IdIndexes {
  import opened Bytes
  import opened IdSet
  import opened Items
  import opened Reconcile

  /** The id of a reconciled entry: of the item it reuses, or of the one just materialized. */
  function ItemId(cached: array<Item>, next: array<Item>, reuse: Option<nat>, k: nat): Option<Bytes>
    requires if reuse.Some? then reuse.value < cached.Length && cached[reuse.value].Item?
      else k < next.Length && next[k].Item?
    reads cached, next
  {
    if reuse.Some? then cached[reuse.value].face.id else next[k].face.id
  }

  /** Prior entries carry the ids requested for them. */
  ghost predicate CarryIds(cached: array<Item>, next: array<Item>, reuse: seq<Option<nat>>, ids: Ids)
    reads cached, next
  {
    && |reuse| == |ids| <= next.Length
    && forall k | 0 <= k < |ids| ::
         && (if reuse[k].Some? then reuse[k].value < cached.Length && cached[reuse[k].value].Item? else next[k].Item?)
         && ItemId(cached, next, reuse[k], k) == ids[k]
  }

  ghost predicate HaveIds(cached: array<Item>, olds: Ids)
    reads cached
  {
    && |olds| <= cached.Length
    && forall k | 0 <= k < |olds| :: cached[k].Item? && cached[k].face.id == olds[k]
  }

  /** Entering one optional id at the next position; repetitions and missing ids change nothing. */
  method AddToIndex(index: IdSet, id: Option<Bytes>, position: nat, ghost before: Ids)
    requires index.Valid() && position == |before| < CAPACITY && Indexes(index.Contents, before)
    modifies index
    ensures index.Valid() && Indexes(index.Contents, before + [id])
  {
    IndexSize(index.Contents, before);
    if id.Some? && id.value !in index.Contents {
      IndexGrows(index.Contents, before, id.value);
    } else {
      IndexSkips(index.Contents, before, id);
    }
    if id.Some? {
      var result := index.Insert(id.value, position);
    }
  }

  lemma {:induction false} PrefixGrows(ids: Ids, k: nat)
    requires k < |ids|
    ensures ids[..k + 1] == ids[..k] + [ids[k]]
  {
  }

  /** Indexing the entries reconciled so far. */
  method IndexNew(index: IdSet, cached: array<Item>, next: array<Item>, reuse: seq<Option<nat>>, ghost ids: Ids)
    requires |ids| <= CAPACITY && CarryIds(cached, next, reuse, ids)
    modifies index
    ensures index.Valid() && Indexes(index.Contents, ids)
  {
    index.Init();
    for prior := 0 to |reuse|
      invariant index.Valid() && Indexes(index.Contents, ids[..prior])
    {
      PrefixGrows(ids, prior);
      AddToIndex(index, ItemId(cached, next, reuse[prior], prior), prior, ids[..prior]);
    }
    assert ids[..|reuse|] == ids;
  }

  /** Indexing the cached items, unless the form changed and none of them is reusable. */
  method IndexOld(index: IdSet, cached: array<Item>, oldCount: nat, reusable: bool, ghost olds: Ids)
    requires oldCount == |olds| <= CAPACITY && HaveIds(cached, olds)
    modifies index
    ensures index.Valid() && Indexes(index.Contents, Candidates(reusable, olds))
  {
    index.Init();
    if reusable {
      for prior := 0 to oldCount
        invariant index.Valid() && Indexes(index.Contents, olds[..prior])
      {
        PrefixGrows(olds, prior);
        AddToIndex(index, cached[prior].face.id, prior, olds[..prior]);
      }
      assert olds[..oldCount] == olds;
    }
  }

  /** Past the first misplaced id: claim the id in one index, search it in the other. */
  method ClaimAndFind(newIds: IdSet, oldIds: IdSet, name: Bytes, position: nat, ghost olds: Ids, ghost ids: Ids)
    returns (duplicate: bool, found: Option<nat>)
    requires newIds.Valid() && oldIds.Valid() && newIds != oldIds && position == |ids| < CAPACITY
    requires Indexes(newIds.Contents, ids) && Indexes(oldIds.Contents, olds)
    modifies newIds
    ensures newIds.Valid() && (duplicate <==> Some(name) in ids)
    ensures !duplicate ==> Indexes(newIds.Contents, ids + [Some(name)])
    ensures !duplicate && found.Some? ==> found.value < |olds| && olds[found.value] == Some(name)
    ensures !duplicate && found.None? ==> Some(name) !in olds
  {
    found := None;
    IndexSize(newIds.Contents, ids);
    if name !in newIds.Contents {
      IndexGrows(newIds.Contents, ids, name);
    }
    var result := newIds.Insert(name, position);
    duplicate := result != Inserted;
    if !duplicate {
      var hit, old_ := oldIds.Find(name);
      found := if hit then Some(old_) else None;
    }
  }

  /** What is known about ids: nothing but positions, or two complete indexes. */
  ghost predicate Knows(built: bool, newIds: map<Bytes, nat>, oldIds: map<Bytes, nat>,
                        reusable: bool, olds: Ids, ids: Ids) {
    if built then Indexes(newIds, ids) && Indexes(oldIds, Candidates(reusable, olds))
    else InPlace(reusable, olds, ids)
  }

  /** Before the first entry nothing is reused, moved or known. */
  lemma {:induction false} NothingYet(rules: Rules, listMode: bool, reusable: bool, olds: seq<Face>,
                                      entries: seq<Parsed>, next: seq<Item>,
                                      newIds: map<Bytes, nat>, oldIds: map<Bytes, nat>)
    requires AllEmpty(next)
    ensures NoProblems(rules, listMode, entries, 0) && !Moved([])
    ensures Prepared(rules, listMode, reusable, olds, ViewsOf(entries)[..0], [], next)
    ensures Knows(false, newIds, oldIds, reusable, FaceIds(olds), ViewIds(ViewsOf(entries)[..0]))
  {
  }

  /**
   Finding the cached item a view may reuse and detecting repeated ids. Positions are compared
   first; the indexes are built only when an id is out of place, and answer from then on.
   */
  method MatchItem(newIds: IdSet, oldIds: IdSet, known: bool,
                   cached: array<Item>, oldCount: nat, next: array<Item>, reuse: seq<Option<nat>>,
                   reusable: bool, id: Option<Bytes>, ghost olds: Ids, ghost ids: Ids)
    returns (built: bool, duplicate: bool, found: Option<nat>)
    requires newIds.Valid() && oldIds.Valid() && newIds != oldIds
    requires Knows(known, newIds.Contents, oldIds.Contents, reusable, olds, ids) && UniqueIds(olds)
    requires oldCount == |olds| <= CAPACITY && |ids| < CAPACITY
    requires HaveIds(cached, olds) && CarryIds(cached, next, reuse, ids)
    modifies newIds, oldIds
    ensures newIds.Valid() && oldIds.Valid() && (duplicate <==> id.Some? && id in ids)
    ensures !duplicate ==> Knows(built, newIds.Contents, oldIds.Contents, reusable, olds, ids + [id])
    ensures !duplicate ==> IsMatch(reusable, olds, |ids|, id, found)
  {
    var index := |reuse|;
    built, duplicate, found := known, false, None;
    if id.None? {
      if built {
        IndexSkips(newIds.Contents, ids, id);
      } else {
        InPlaceSkips(reusable, olds, ids);
      }
      if reusable && index < oldCount && cached[index].face.id.None? {
        found := Some(index);
      }
      return;
    }
    if reusable && !built && index < oldCount && cached[index].face.id == id {
      InPlaceIsNoDuplicate(olds, ids, id);
      return false, false, Some(index);
    }
    if !built {
      IndexNew(newIds, cached, next, reuse, ids);
      IndexOld(oldIds, cached, oldCount, reusable, olds);
      built := true;
    }
    duplicate, found := ClaimAndFind(newIds, oldIds, id.value, index, Candidates(reusable, olds), ids);
    if !duplicate {
      FoundIsMatch(reusable, olds, index, id.value, found);
    }
  }
}
