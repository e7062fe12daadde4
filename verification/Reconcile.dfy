/**
 The theory behind ctx:set: which cached item a requested view may reuse, how the lazily built
 id indexes see duplicates, and what the finished list must look like.
 */
module Reconcile {
  import opened Bytes
  import opened Items

  type Ids = seq<Option<Bytes>>

  datatype Parsed = NotAState | Parsed(view: View)

  ghost predicate UniqueIds(ids: Ids) {
    forall i, j | 0 <= i < j < |ids| :: ids[i].Some? ==> ids[i] != ids[j]
  }

  function ViewIds(views: seq<View>): (ids: Ids)
    ensures |ids| == |views| && forall i | 0 <= i < |ids| :: ids[i] == views[i].id
  {
    seq(|views|, i requires 0 <= i < |views| => views[i].id)
  }

  function FaceIds(faces: seq<Face>): (ids: Ids)
    ensures |ids| == |faces| && forall i | 0 <= i < |ids| :: ids[i] == faces[i].id
  {
    seq(|faces|, i requires 0 <= i < |faces| => faces[i].id)
  }

  /** The names occurring in a list of optional ids. */
  ghost function Names(ids: Ids): (names: set<Bytes>)
    ensures forall b :: b in names <==> Some(b) in ids
    ensures |names| <= |ids|
  {
    if ids == [] then {}
    else
      var rest := Names(ids[..|ids| - 1]);
      var last := ids[|ids| - 1];
      assert ids == ids[..|ids| - 1] + [last];
      if last.Some? then rest + {last.value} else rest
  }

  /** An id index holds exactly the names of a list, each with a position where it occurs. */
  ghost predicate Indexes(contents: map<Bytes, nat>, ids: Ids) {
    && contents.Keys == Names(ids)
    && forall b | b in contents :: contents[b] < |ids| && ids[contents[b]] == Some(b)
  }

  lemma {:induction false} IndexSize(contents: map<Bytes, nat>, ids: Ids)
    requires Indexes(contents, ids)
    ensures |contents| <= |ids|
  {
    assert |contents| == |contents.Keys|;
  }

  lemma {:induction false} NamesAppend(ids: Ids, id: Option<Bytes>)
    ensures Names(ids + [id]) == Names(ids) + if id.Some? then {id.value} else {}
  {
    assert (ids + [id])[..|ids|] == ids;
  }

  /** An id already known, or none at all, leaves an index complete. */
  lemma {:induction false} IndexSkips(contents: map<Bytes, nat>, ids: Ids, id: Option<Bytes>)
    requires Indexes(contents, ids) && (id.Some? ==> id.value in contents)
    ensures Indexes(contents, ids + [id])
  {
    NamesAppend(ids, id);
    assert forall i | 0 <= i < |ids| :: (ids + [id])[i] == ids[i];
  }

  lemma {:induction false} IndexGrows(contents: map<Bytes, nat>, ids: Ids, name: Bytes)
    requires Indexes(contents, ids) && name !in contents
    ensures Indexes(contents[name := |ids|], ids + [Some(name)])
  {
    NamesAppend(ids, Some(name));
    var contents', ids' := contents[name := |ids|], ids + [Some(name)];
    assert contents'.Keys == contents.Keys + {name};
    forall b | b in contents'
      ensures contents'[b] < |ids'| && ids'[contents'[b]] == Some(b)
    {
      assert b != name ==> b in contents && ids'[contents[b]] == ids[contents[b]];
    }
  }

  /** So far every requested id sits where the same id sat before. */
  ghost predicate InPlace(reusable: bool, olds: Ids, ids: Ids) {
    forall k | 0 <= k < |ids| && ids[k].Some? :: reusable && k < |olds| && olds[k] == ids[k]
  }

  /** The cached item a request refers to: same id anywhere, or an unnamed item in the same place. */
  ghost predicate IsMatch(reusable: bool, olds: Ids, index: nat, id: Option<Bytes>, found: Option<nat>) {
    match found
    case Some(m) => reusable && m < |olds| && olds[m] == id && (id.None? ==> m == index)
    case None => !reusable || (if id.Some? then id !in olds else index >= |olds| || olds[index].Some?)
  }

  lemma {:induction false} InPlaceSkips(reusable: bool, olds: Ids, ids: Ids)
    requires InPlace(reusable, olds, ids)
    ensures InPlace(reusable, olds, ids + [None])
  {
  }

  /** The ids worth looking up: none when the form changed. */
  ghost function Candidates(reusable: bool, olds: Ids): Ids {
    if reusable then olds else []
  }

  lemma {:induction false} FoundIsMatch(reusable: bool, olds: Ids, index: nat, name: Bytes, found: Option<nat>)
    requires found.Some? ==>
      found.value < |Candidates(reusable, olds)| && Candidates(reusable, olds)[found.value] == Some(name)
    requires found.None? ==> Some(name) !in Candidates(reusable, olds)
    ensures IsMatch(reusable, olds, index, Some(name), found)
  {
  }

  /** A positional match cannot repeat an earlier id, because the old ids are unique. */
  lemma {:induction false} InPlaceIsNoDuplicate(olds: Ids, ids: Ids, id: Option<Bytes>)
    requires UniqueIds(olds) && InPlace(true, olds, ids) && |ids| < |olds|
    requires id.Some? && olds[|ids|] == id
    ensures id !in ids && InPlace(true, olds, ids + [id])
  {
  }

  /** The first thing wrong with the entry at an index, in the order in which the code looks. */
  ghost function Problem(rules: Rules, listMode: bool, entries: seq<Parsed>, index: nat): Option<Reason>
    requires index < |entries|
  {
    match entries[index]
    case NotAState => Some(Malformed)
    case Parsed(view) =>
      if view.id.Some? && RepeatsId(entries, index) then Some(DuplicateId)
      else Obstacle(rules, listMode, index, view)
  }

  ghost predicate RepeatsId(entries: seq<Parsed>, index: nat)
    requires index < |entries| && entries[index].Parsed?
  {
    exists j :: 0 <= j < index && entries[j].Parsed? && entries[j].view.id == entries[index].view.id
  }

  /** The first n entries pass every check. */
  ghost predicate NoProblems(rules: Rules, listMode: bool, entries: seq<Parsed>, n: nat)
    requires n <= |entries|
  {
    forall k | 0 <= k < n :: Problem(rules, listMode, entries, k).None?
  }

  lemma {:induction false} NoProblemsMeansParsed(rules: Rules, listMode: bool, entries: seq<Parsed>, n: nat)
    requires n <= |entries| && NoProblems(rules, listMode, entries, n)
    ensures AllParsed(entries[..n])
  {
    forall k | 0 <= k < n
      ensures entries[k].Parsed?
    {
      assert Problem(rules, listMode, entries, k).None?;
    }
  }

  lemma {:induction false} NoProblemsGrows(rules: Rules, listMode: bool, entries: seq<Parsed>, n: nat)
    requires n < |entries| && NoProblems(rules, listMode, entries, n)
    requires Problem(rules, listMode, entries, n).None?
    ensures NoProblems(rules, listMode, entries, n + 1)
  {
  }

  /** What throwing everything away and rebuilding from the request would show. */
  ghost predicate IsRebuild(rules: Rules, listMode: bool, views: seq<View>, faces: seq<Face>) {
    && |faces| == |views|
    && forall k | 0 <= k < |views| ::
         Build(rules, listMode, k, views[k].id, Stored(views[k])) == Some(faces[k])
  }

  /** The requested views; an entry that did not parse contributes nothing meaningful. */
  function ViewsOf(entries: seq<Parsed>): (views: seq<View>)
    ensures |views| == |entries|
    ensures forall k | 0 <= k < |views| :: entries[k].Parsed? ==> views[k] == entries[k].view
  {
    seq(|entries|, k requires 0 <= k < |entries| =>
      if entries[k].Parsed? then entries[k].view else View(None, [], [], NoWidth, false))
  }

  ghost predicate AllParsed(entries: seq<Parsed>) {
    forall k | 0 <= k < |entries| :: entries[k].Parsed?
  }

  lemma {:induction false} RepeatsIdIsMembership(entries: seq<Parsed>, index: nat)
    requires index < |entries| && AllParsed(entries[..index + 1])
    requires entries[index].view.id.Some?
    ensures RepeatsId(entries, index) <==> entries[index].view.id in ViewIds(ViewsOf(entries)[..index])
  {
    var ids := ViewIds(ViewsOf(entries)[..index]);
    assert forall j | 0 <= j <= index :: entries[..index + 1][j] == entries[j];
    assert forall j | 0 <= j < index :: entries[j].Parsed? && ids[j] == entries[j].view.id;
    if entries[index].view.id in ids {
      var j :| 0 <= j < |ids| && ids[j] == entries[index].view.id;
    }
  }

  // ---- One reconciled entry, and all of them ----

  ghost predicate Reuses(reusable: bool, olds: seq<Face>, index: nat, view: View, m: nat) {
    && reusable && m < |olds| && olds[m].id == view.id && olds[m].state == Stored(view)
    && (view.id.None? ==> m == index)
  }

  ghost predicate PreparedAt(rules: Rules, listMode: bool, reusable: bool, olds: seq<Face>,
                             index: nat, view: View, reuse: Option<nat>, slot: Item) {
    match reuse
    case Some(m) => Reuses(reusable, olds, index, view, m) && slot == Empty
    case None =>
      && slot.Item? && Obstacle(rules, listMode, index, view).None?
      && Build(rules, listMode, index, view.id, Stored(view)) == Some(slot.face)
      && !exists m: nat :: Reuses(reusable, olds, index, view, m)
  }

  ghost predicate Prepared(rules: Rules, listMode: bool, reusable: bool, olds: seq<Face>,
                           views: seq<View>, reuse: seq<Option<nat>>, next: seq<Item>) {
    && |reuse| == |views| <= |next|
    && (forall k | 0 <= k < |views| :: PreparedAt(rules, listMode, reusable, olds, k, views[k], reuse[k], next[k]))
    && AllEmpty(next[|views|..])
  }

  /** Reusing agrees with rebuilding: the cached face is what the view would be materialized to. */
  lemma {:induction false} ReusedIsRebuilt(rules: Rules, listMode: bool, reusable: bool, olds: seq<Face>, index: nat,
                                           view: View, m: nat)
    requires AllFresh(rules, listMode, olds) && Reuses(reusable, olds, index, view, m)
    ensures Obstacle(rules, listMode, index, view).None?
    ensures Build(rules, listMode, index, view.id, Stored(view)) == Some(olds[m])
  {
    assert Fresh(rules, listMode, m, olds[m]);
  }

  /** Distinct requests never claim the same cached item. */
  lemma {:induction false} ReuseInjective(rules: Rules, listMode: bool, reusable: bool, olds: seq<Face>,
                       views: seq<View>, reuse: seq<Option<nat>>, next: seq<Item>, i: nat, j: nat)
    requires Prepared(rules, listMode, reusable, olds, views, reuse, next) && UniqueIds(ViewIds(views))
    requires i < |views| && j < |views| && reuse[i].Some? && reuse[i] == reuse[j]
    ensures i == j
  {
    assert PreparedAt(rules, listMode, reusable, olds, i, views[i], reuse[i], next[i]);
    assert PreparedAt(rules, listMode, reusable, olds, j, views[j], reuse[j], next[j]);
    assert ViewIds(views)[i] == ViewIds(views)[j];
  }

  /** The update flag: something other than "every item reused in place" happened. */
  ghost predicate Moved(reuse: seq<Option<nat>>) {
    exists k :: 0 <= k < |reuse| && reuse[k] != Some(k)
  }

  lemma {:induction false} MovedGrows(reuse: seq<Option<nat>>, claim: Option<nat>)
    ensures Moved(reuse + [claim]) <==> Moved(reuse) || claim != Some(|reuse|)
  {
    var grown := reuse + [claim];
    assert grown[|reuse|] == claim;
    if Moved(reuse) {
      var k :| 0 <= k < |reuse| && reuse[k] != Some(k);
      assert grown[k] != Some(k);
    }
  }

  /** The sequence of ids and states, which is what a frame depends on while the form stays. */
  ghost predicate SameContent(olds: seq<Face>, views: seq<View>) {
    && |olds| == |views|
    && forall k | 0 <= k < |views| :: olds[k].id == views[k].id && olds[k].state == Stored(views[k])
  }

  lemma {:induction false} ChangedIsExact(rules: Rules, listMode: bool, reusable: bool, olds: seq<Face>,
                       views: seq<View>, reuse: seq<Option<nat>>, next: seq<Item>)
    requires Prepared(rules, listMode, reusable, olds, views, reuse, next) && UniqueIds(FaceIds(olds))
    ensures reusable ==> (|views| != |olds| || Moved(reuse) <==> !SameContent(olds, views))
    ensures !reusable ==> (Moved(reuse) <==> views != [])
  {
    forall k | 0 <= k < |views|
      ensures reuse[k] == Some(k) <==> Reuses(reusable, olds, k, views[k], k)
    {
      assert PreparedAt(rules, listMode, reusable, olds, k, views[k], reuse[k], next[k]);
      if Reuses(reusable, olds, k, views[k], k) && reuse[k].Some? {
        assert FaceIds(olds)[k] == FaceIds(olds)[reuse[k].value];
      }
    }
    if !reusable && views != [] {
      assert reuse[0] != Some(0);
    }
  }

  /** A match whose state differs, or no match at all, leaves nothing to reuse. */
  lemma {:induction false} NothingToReuse(reusable: bool, olds: seq<Face>, index: nat, view: View, found: Option<nat>)
    requires UniqueIds(FaceIds(olds)) && IsMatch(reusable, FaceIds(olds), index, view.id, found)
    requires found.Some? ==> olds[found.value].state != Stored(view)
    ensures !exists m: nat :: Reuses(reusable, olds, index, view, m)
  {
    forall m: nat
      ensures !Reuses(reusable, olds, index, view, m)
    {
      if m < |olds| {
        assert FaceIds(olds)[m] == olds[m].id;
      }
    }
  }

  lemma {:induction false} PreparedGrows(rules: Rules, listMode: bool, reusable: bool, olds: seq<Face>,
                                         views: seq<View>,
                      reuse: seq<Option<nat>>, next: seq<Item>, view: View, claim: Option<nat>, slot: Item)
    requires Prepared(rules, listMode, reusable, olds, views, reuse, next) && |views| < |next|
    requires PreparedAt(rules, listMode, reusable, olds, |views|, view, claim, slot)
    ensures Prepared(rules, listMode, reusable, olds, views + [view], reuse + [claim], next[|views| := slot])
  {
    forall k | 0 <= k <= |views|
      ensures PreparedAt(rules, listMode, reusable, olds, k, (views + [view])[k], (reuse + [claim])[k],
                         next[|views| := slot][k])
    {
      assert k < |views| ==> PreparedAt(rules, listMode, reusable, olds, k, views[k], reuse[k], next[k]);
    }
    assert next[|views| := slot][|views| + 1..] == next[|views|..][1..];
  }

  lemma {:induction false} ViewsGrow(entries: seq<Parsed>, index: nat)
    requires index < |entries| && AllParsed(entries[..index]) && entries[index].Parsed?
    ensures AllParsed(entries[..index + 1])
    ensures ViewsOf(entries)[..index + 1] == ViewsOf(entries)[..index] + [entries[index].view]
    ensures ViewIds(ViewsOf(entries)[..index + 1]) == ViewIds(ViewsOf(entries)[..index]) + [entries[index].view.id]
  {
    assert entries[..index + 1] == entries[..index] + [entries[index]];
  }

  // ---- Committing: every claimed item moves to its new position ----

  /** The item that ends up at a position. */
  function Final(reuse: Option<nat>, cached: seq<Item>, slot: Item): Item {
    if reuse.Some? && reuse.value < |cached| then cached[reuse.value] else slot
  }

  ghost predicate Committed(reuse: seq<Option<nat>>, cached: seq<Item>, next: seq<Item>, final: seq<Item>) {
    && |final| == |reuse| <= |next|
    && forall k | 0 <= k < |final| :: final[k] == Final(reuse[k], cached, next[k])
  }

  /** After moving the first k claims: those are in place, and later claims are still in the cache. */
  ghost predicate Moving(reuse: seq<Option<nat>>, cached: seq<Item>, next: seq<Item>,
                         from: seq<Item>, to: seq<Item>, k: nat) {
    && |cached| <= |from| && AllEmpty(from[|cached|..]) && k <= |reuse| <= |to| == |next|
    && (forall j | 0 <= j < k :: to[j] == Final(reuse[j], cached, next[j]))
    && (forall j | k <= j < |to| :: to[j] == next[j])
    && (forall j | k <= j < |reuse| && reuse[j].Some? ::
          reuse[j].value < |cached| && from[reuse[j].value] == cached[reuse[j].value])
  }

  lemma {:induction false} MoveStep(rules: Rules, listMode: bool, reusable: bool, views: seq<View>,
                                    reuse: seq<Option<nat>>,
                 cached: seq<Item>, next: seq<Item>, from: seq<Item>, to: seq<Item>, k: nat)
    requires AllItems(cached) && k < |reuse|
    requires Prepared(rules, listMode, reusable, SlotFaces(cached), views, reuse, next) && UniqueIds(ViewIds(views))
    requires Moving(reuse, cached, next, from, to, k)
    ensures reuse[k].None? ==> Moving(reuse, cached, next, from, to, k + 1)
    ensures reuse[k].Some? ==>
      && from[reuse[k].value].Item? && to[k] == Empty
      && Moving(reuse, cached, next, from[reuse[k].value := Empty], to[k := from[reuse[k].value]], k + 1)
  {
    assert PreparedAt(rules, listMode, reusable, SlotFaces(cached), k, views[k], reuse[k], next[k]);
    if reuse[k].Some? {
      var from' := from[reuse[k].value := Empty];
      forall j | k < j < |reuse| && reuse[j].Some?
        ensures from'[reuse[j].value] == from[reuse[j].value]
      {
        if reuse[j] == reuse[k] {
          ReuseInjective(rules, listMode, reusable, SlotFaces(cached), views, reuse, next, j, k);
        }
      }
      assert from'[|cached|..] == from[|cached|..];
    }
  }

  /** The committed list is exactly the rebuilt one. */
  lemma {:induction false} CommittedIsRebuilt(rules: Rules, listMode: bool, reusable: bool, cached: seq<Item>,
                                              views: seq<View>,
                           reuse: seq<Option<nat>>, next: seq<Item>, final: seq<Item>)
    requires AllItems(cached) && (reusable ==> AllFresh(rules, listMode, SlotFaces(cached)))
    requires Prepared(rules, listMode, reusable, SlotFaces(cached), views, reuse, next)
    requires Committed(reuse, cached, next, final)
    ensures AllItems(final) && IsRebuild(rules, listMode, views, SlotFaces(final))
    ensures AllFresh(rules, listMode, SlotFaces(final)) && FaceIds(SlotFaces(final)) == ViewIds(views)
  {
    var olds := SlotFaces(cached);
    forall k | 0 <= k < |views|
      ensures final[k].Item? && Obstacle(rules, listMode, k, views[k]).None?
      ensures Build(rules, listMode, k, views[k].id, Stored(views[k])) == Some(final[k].face)
    {
      assert PreparedAt(rules, listMode, reusable, olds, k, views[k], reuse[k], next[k]);
      assert final[k] == Final(reuse[k], cached, next[k]);
      if reuse[k].Some? {
        ReusedIsRebuilt(rules, listMode, reusable, olds, k, views[k], reuse[k].value);
      }
    }
    assert AllItems(final);
    var faces := SlotFaces(final);
    forall k | 0 <= k < |faces|
      ensures Fresh(rules, listMode, k, faces[k]) && faces[k].id == views[k].id
    {
      assert faces[k] == final[k].face;
    }
    assert FaceIds(faces) == ViewIds(views);
  }

  /** An item with an unchanged id and state is kept as it is, allocation and all. */
  lemma {:induction false} UnchangedItemsAreKept(rules: Rules, listMode: bool, reusable: bool, cached: seq<Item>,
                                                 views: seq<View>,
                              reuse: seq<Option<nat>>, next: seq<Item>, final: seq<Item>, k: nat, m: nat)
    requires AllItems(cached) && UniqueIds(FaceIds(SlotFaces(cached)))
    requires Prepared(rules, listMode, reusable, SlotFaces(cached), views, reuse, next)
    requires Committed(reuse, cached, next, final)
    requires k < |views| && Reuses(reusable, SlotFaces(cached), k, views[k], m)
    ensures final[k] == cached[m]
  {
    var olds := SlotFaces(cached);
    assert PreparedAt(rules, listMode, reusable, olds, k, views[k], reuse[k], next[k]);
    assert reuse[k].Some?;
    var ids := FaceIds(olds);
    assert ids[m] == ids[reuse[k].value];
    assert final[k] == Final(reuse[k], cached, next[k]);
  }

  /** When every entry passed, the requested ids are pairwise distinct. */
  lemma {:induction false} NoProblemMeansUnique(rules: Rules, listMode: bool, entries: seq<Parsed>)
    requires NoProblems(rules, listMode, entries, |entries|)
    ensures AllParsed(entries) && UniqueIds(ViewIds(ViewsOf(entries)))
  {
    var ids := ViewIds(ViewsOf(entries));
    forall k | 0 <= k < |entries|
      ensures entries[k].Parsed? && ids[k] == entries[k].view.id
      ensures ids[k].Some? ==> !RepeatsId(entries, k)
    {
      assert Problem(rules, listMode, entries, k).None?;
    }
  }
}
