/** A block fed from a directory: the event handler and the listing, over the block's sorted items. */
module DirectoryFeeds {
  import opened Bytes
  import opened Blocks
  import opened DirectoryModel
  import opened Items
  import opened NameLists
  import opened SortedStore
  import Utf8

  /** The entries a listing yields: each name of the directory once, in no particular order. */
  ghost predicate Enumerates(listing: seq<Bytes>, dir: Directory) {
    && (forall i, j | 0 <= i < j < |listing| :: listing[i] != listing[j])
    && forall n :: n in listing <==> n in dir
  }

  ghost function ListedIn(dir: Directory, listing: seq<Bytes>): set<Bytes> {
    set n | n in listing && Listed(dir, n)
  }

  lemma {:induction false} ListedInGrows(dir: Directory, listing: seq<Bytes>, i: nat)
    requires i < |listing| && Enumerates(listing, dir)
    ensures ListedIn(dir, listing[..i + 1]) ==
            ListedIn(dir, listing[..i]) + if Listed(dir, listing[i]) then {listing[i]} else {}
    ensures listing[i] !in ListedIn(dir, listing[..i])
  {
    assert listing[..i + 1] == listing[..i] + [listing[i]];
  }

  method FeedName(name: Bytes) returns (ok: bool)
    ensures ok <==> IsFeedName(name)
  {
    ok := 0 < |name| <= FEED_NAME_MAX && name[0] != 46 && name[|name| - 1] != 126;
    if ok {
      ok := Utf8.ValidUtf8(name);
    }
  }

  /** Adding an entry that may render; others always fit. */
  method AddListed(list: NameList, dir: Directory, name: Bytes, ghost all: set<Bytes>) returns (fits: bool)
    requires list.Valid() && list.Holds(all) && name in dir && name !in all
    modifies list`count, list.names
    ensures list.Valid() && list.Holds(if Listed(dir, name) then all + {name} else all)
    ensures fits <==> (Listed(dir, name) ==> |all| < list.names.Length)
  {
    var named := FeedName(name);
    fits := true;
    if dir[name] != Foreign && named {
      fits := list.Add(name, all);
    }
  }

  /** Listing a directory into a bounded name list; overflowed tells whether a name did not fit. */
  method ListNames(dir: Directory, listing: seq<Bytes>, capacity: nat) returns (list: NameList, overflowed: bool)
    requires Enumerates(listing, dir) && capacity > 0
    ensures fresh(list) && fresh(list.names) && list.Valid() && list.names.Length == capacity
    ensures list.Holds(ListedNames(dir)) && (overflowed <==> |ListedNames(dir)| > capacity)
  {
    hide Listed, FirstOf, Ascending, Elements;
    list := new NameList(capacity);
    assert ListedIn(dir, listing[..0]) == {} && list.Holds({});
    overflowed := false;
    for i := 0 to |listing|
      invariant fresh(list) && fresh(list.names) && list.Valid() && list.names.Length == capacity
      invariant list.Holds(ListedIn(dir, listing[..i]))
      invariant overflowed <==> |ListedIn(dir, listing[..i])| > capacity
    {
      ListedInGrows(dir, listing, i);
      var fits := AddListed(list, dir, listing[i], ListedIn(dir, listing[..i]));
      if !fits {
        overflowed := true;
      }
    }
    assert listing[..|listing|] == listing;
    assert ListedIn(dir, listing) == ListedNames(dir);
  }

  /** Restricting the shown map to the kept names. */
  ghost predicate OnlyDrops(kept: set<Bytes>, shown: map<Bytes, State>, after: map<Bytes, State>) {
    forall n | n in after || (n in shown && n in kept) :: n in after && n in shown && after[n] == shown[n]
  }

  lemma {:induction false} SameShown(kept: set<Bytes>, shown: map<Bytes, State>)
    ensures OnlyDrops(kept, shown, shown)
  {
  }

  lemma {:induction false} DropsOne(kept: set<Bytes>, shown: map<Bytes, State>, name: Bytes)
    requires name !in kept
    ensures OnlyDrops(kept, shown, shown - {name})
  {
  }

  lemma {:induction false} ShownFace(shown: map<Bytes, State>, faces: seq<Face>, index: nat)
    requires Shows(shown, faces) && index < |faces| && faces[index].id.Some?
    ensures faces[index].id.value in shown
  {
  }

  /** The shown names not kept are all among the first items. */
  ghost predicate MissingAmong(kept: set<Bytes>, shown: map<Bytes, State>, faces: seq<Face>, index: nat) {
    index <= |faces| && forall n | n in shown && n !in kept :: HasId(faces[..index], n)
  }

  lemma {:induction false} MissingAmongAll(kept: set<Bytes>, shown: map<Bytes, State>, faces: seq<Face>)
    requires Shows(shown, faces)
    ensures MissingAmong(kept, shown, faces, |faces|)
  {
    assert faces[..|faces|] == faces;
  }

  lemma {:induction false} MissingAmongNone(kept: set<Bytes>, shown: map<Bytes, State>, faces: seq<Face>)
    requires MissingAmong(kept, shown, faces, 0)
    ensures forall n | n in shown :: n in kept
  {
  }

  lemma {:induction false} MissingAfterKeep(kept: set<Bytes>, shown: map<Bytes, State>, faces: seq<Face>, index: nat)
    requires MissingAmong(kept, shown, faces, index + 1)
    requires faces[index].id.Some? && faces[index].id.value in kept
    ensures MissingAmong(kept, shown, faces, index)
  {
    forall n | n in shown && n !in kept
      ensures HasId(faces[..index], n)
    {
      var k :| 0 <= k < index + 1 && faces[..index + 1][k].id == Some(n);
      assert faces[..index][k].id == Some(n);
    }
  }

  lemma {:induction false} MissingAfterDrop(kept: set<Bytes>, shown: map<Bytes, State>, faces: seq<Face>, index: nat)
    requires MissingAmong(kept, shown, faces, index + 1) && faces[index].id.Some?
    ensures MissingAmong(kept, shown - {faces[index].id.value}, Without(faces, index), index)
  {
    assert Without(faces, index)[..index] == faces[..index];
    MissingAfterKeep(kept + {faces[index].id.value}, shown, faces, index);
  }

  /** The names of a list scanned so far have their final items; the others are as they were. */
  ghost predicate ScannedTo(cfg: Setting, dir: Directory, kept: set<Bytes>, names: seq<Bytes>,
                            shown: map<Bytes, State>, after: map<Bytes, State>) {
    && (forall n | n in after :: n in kept)
    && forall n | n in kept ::
         if n in names then ScanFits(cfg, dir, n, shown, after)
         else (n in after <==> n in shown) && (n in shown ==> after[n] == shown[n])
  }

  lemma {:induction false} ScannedNone(cfg: Setting, dir: Directory, kept: set<Bytes>, shown: map<Bytes, State>)
    requires forall n | n in shown :: n in kept
    ensures ScannedTo(cfg, dir, kept, [], shown, shown)
  {
  }

  /** With every kept name scanned the listing is done; whether the directory can be listed makes no difference. */
  lemma {:induction false} ScannedAll(cfg: Setting, other: Setting, dir: Directory, names: seq<Bytes>,
                                      shown: map<Bytes, State>,
                                      after: map<Bytes, State>)
    requires ScannedTo(cfg, dir, Elements(names), names, shown, after) && other.(listable := cfg.listable) == cfg
    ensures RescannedTo(other, dir, Elements(names), shown, after)
  {
  }

  /** Refreshing one kept name during a listing never finds the block full. */
  lemma {:induction false} ScanStep(cfg: Setting, dir: Directory, kept: set<Bytes>, names: seq<Bytes>, i: nat,
                                    shown: map<Bytes, State>,
                 before: map<Bytes, State>, overflowed: bool, after: map<Bytes, State>, overflowedAfter: bool)
    requires !cfg.listable && |kept| <= cfg.maxItems && i < |names| && names[i] in kept && names[i] !in names[..i]
    requires ScannedTo(cfg, dir, kept, names[..i], shown, before) && Listed(dir, names[i])
    requires RefreshStep(cfg, dir, names[i], before, overflowed, after, overflowedAfter)
    ensures ScannedTo(cfg, dir, kept, names[..i + 1], shown, after) && overflowedAfter == overflowed
  {
    hide RefreshStep, IsFeedName, Obstacle;
    ScanOne(cfg, dir, kept, names[i], before, overflowed, after, overflowedAfter);
    assert names[..i + 1] == names[..i] + [names[i]];
  }

  lemma {:induction false} ScanOne(cfg: Setting, dir: Directory, kept: set<Bytes>, name: Bytes,
                                   shown: map<Bytes, State>,
                overflowed: bool, after: map<Bytes, State>, overflowedAfter: bool)
    requires !cfg.listable && |kept| <= cfg.maxItems && name in kept && shown.Keys <= kept && Listed(dir, name)
    requires RefreshStep(cfg, dir, name, shown, overflowed, after, overflowedAfter)
    ensures overflowedAfter == overflowed && ScanFits(cfg, dir, name, shown, after)
    ensures forall n | n != name :: (n in after <==> n in shown) && (n in shown ==> after[n] == shown[n])
  {
    hide PutStep, IsFeedName, Obstacle;
    if dir[name].File? {
      RoomDuringScan(cfg, kept, name, dir[name].content, shown, overflowed, after, overflowedAfter);
    }
  }

  /** With every shown name kept and another kept name to add, there is room, so nothing is evicted. */
  lemma {:induction false} RoomDuringScan(cfg: Setting, kept: set<Bytes>, name: Bytes, content: Bytes,
                                          shown: map<Bytes, State>,
                       overflowed: bool, after: map<Bytes, State>, overflowedAfter: bool)
    requires |kept| <= cfg.maxItems && name in kept && shown.Keys <= kept
    requires PutStep(cfg, name, content, shown, overflowed, after, overflowedAfter)
    ensures overflowedAfter == overflowed
    ensures after == if Obstacle(cfg.rules, true, 0, FileView(cfg, name, content)).Some? then shown
                     else shown[name := cfg.parse(name, content)]
  {
    hide Obstacle;
    if name !in shown {
      SubsetSize(shown.Keys + {name}, kept);
      assert |shown| == |shown.Keys| < |shown.Keys + {name}|;
    }
    if name in shown && shown[name] == cfg.parse(name, content) {
      assert shown == shown[name := cfg.parse(name, content)];
    }
  }

  class DirectoryFeed {
    const block: Block
    const parse: (Bytes, Bytes) -> State
    var overflowed: bool
    var scanning: bool
    var cancelled: bool
    var wd: int

    // What the block shows.
    ghost var Shown: map<Bytes, State>

    function Config(listable: bool): Setting {
      Setting(block.rules, parse, block.maxItems, listable)
    }

    ghost predicate Valid()
      reads this, block, block.items, block.spare
    {
      block.Valid() && block.Keyed(Shown)
    }

    ghost predicate Active()
      reads this
    {
      !cancelled && wd >= 0
    }

    constructor (block: Block, parse: (Bytes, Bytes) -> State, wd: int)
      requires block.Valid() && block.count == 0
      ensures Valid() && Shown == map[] && this.block == block && this.parse == parse && this.wd == wd
      ensures !overflowed && !scanning && !cancelled
    {
      this.block, this.parse, this.wd := block, parse, wd;
      overflowed, scanning, cancelled, Shown := false, false, false, map[];
    }

    method PutResultOf(result: PutResult)
      modifies this`overflowed
      ensures overflowed == (old(overflowed) || result == Evicted || result == PutResult.Full)
    {
      if result == Evicted || result == PutResult.Full {
        overflowed := true;
      }
    }

    /** Reading one file and updating its item. */
    method RefreshFile(dir: Directory, listing: Option<seq<Bytes>>, name: Bytes)
      requires Valid() && Active() && IsFeedName(name)
      requires listing.Some? ==> Enumerates(listing.value, dir)
      modifies this`overflowed, this`scanning, this`Shown
      modifies block`count, block`Owner, block`nextCell, block`listMode, block`renderDirty, block.items
      ensures Valid() && scanning == old(scanning)
      ensures RefreshStep(Config(listing.Some? && !scanning), dir, name, old(Shown), old(overflowed), Shown, overflowed)
      decreases if scanning then 0 else 2, 1
    {
      hide block.Valid, block.Keyed, DropStep, Obstacle, PutOutcome;
      if name in dir && dir[name].File? {
        var result;
        ghost var after;
        var view := FileView(Config(listing.Some? && !scanning), name, dir[name].content);
        result, after := block.PutItem(name, view, Shown);
        Shown := after;
        PutResultOf(result);
        assert PutOutcome(block.rules, block.maxItems, old(Shown), name, view, result, Shown);
      } else if name in dir && dir[name] == Faulty {
      } else {
        Drop(dir, listing, name);
      }
    }

    /** Removing an item; when some are hidden and no listing is under way, a listing may reveal one. */
    method Drop(dir: Directory, listing: Option<seq<Bytes>>, name: Bytes)
      requires Valid() && Active()
      requires listing.Some? ==> Enumerates(listing.value, dir)
      modifies this`overflowed, this`scanning, this`Shown
      modifies block`count, block`Owner, block`nextCell, block`listMode, block`renderDirty, block.items
      ensures Valid() && scanning == old(scanning)
      ensures DropStep(Config(listing.Some? && !scanning), dir, name, old(Shown), old(overflowed), Shown, overflowed)
      decreases if scanning then 0 else 2, 0
    {
      hide block.Valid, block.Keyed, Rescanned;
      var removed;
      ghost var position;
      removed, position := block.RemoveItem(name, Shown);
      Shown := Shown - {name};
      if removed && overflowed && !scanning {
        Rescan(dir, listing);
      }
    }

    /** Removing the items whose names a listing did not keep, last item first. */
    method RemoveMissing(list: NameList)
      requires Valid() && list.Valid()
      modifies this`Shown, block`count, block`Owner, block`renderDirty, block.items
      ensures Valid() && OnlyDrops(Elements(list.names[..list.count]), old(Shown), Shown)
      ensures forall n | n in Shown :: n in Elements(list.names[..list.count])
    {
      hide block.Owns, GoodList, AllFresh, AllEmpty, Ascending, MissingAmong, Elements;
      ghost var kept := Elements(list.names[..list.count]);
      var index: nat := block.count;
      AllFacesShown(kept);
      while index > 0
        invariant Valid() && list.Valid() && Elements(list.names[..list.count]) == kept
        invariant index <= block.count && OnlyDrops(kept, old(Shown), Shown)
        invariant MissingAmong(kept, Shown, block.Faces(), index)
      {
        index := index - 1;
        RemoveIfMissing(list, index);
      }
      MissingAmongNone(kept, Shown, block.Faces());
    }

    lemma {:induction false} AllFacesShown(kept: set<Bytes>)
      requires Valid()
      ensures MissingAmong(kept, Shown, block.Faces(), block.count)
    {
      MissingAmongAll(kept, Shown, block.Faces());
    }

    method RemoveIfMissing(list: NameList, index: nat)
      requires Valid() && list.Valid() && index < block.count
      requires MissingAmong(Elements(list.names[..list.count]), Shown, block.Faces(), index + 1)
      modifies this`Shown, block`count, block`Owner, block`renderDirty, block.items
      ensures Valid() && index <= block.count && OnlyDrops(Elements(list.names[..list.count]), old(Shown), Shown)
      ensures MissingAmong(Elements(list.names[..list.count]), Shown, block.Faces(), index)
    {
      hide block.Owns, AllFresh, AllEmpty, AllFreshNamed, Shows, Ascending, OnlyDrops, MissingAmong;
      ghost var faces := block.Faces();
      assert block.items[index] == block.items[..block.count][index];
      assert faces[index].id.Some?;
      SameShown(Elements(list.names[..list.count]), Shown);
      var id := block.items[index].face.id.value;
      var present := list.Contains(id);
      if present {
        MissingAfterKeep(Elements(list.names[..list.count]), Shown, faces, index);
      } else {
        MissingAfterDrop(Elements(list.names[..list.count]), Shown, faces, index);
        DropsOne(Elements(list.names[..list.count]), Shown, id);
        ShownFace(Shown, faces, index);
        var removed;
        ghost var position;
        removed, position := block.RemoveItem(id, Shown);
        if position != index {
          DistinctIds(faces, position, index);
        }
        Shown := Shown - {id};
      }
    }

    /** Bringing the items into agreement with a listing of the directory. */
    method Rescan(dir: Directory, listing: Option<seq<Bytes>>)
      requires Valid() && !scanning
      requires listing.Some? ==> Enumerates(listing.value, dir)
      modifies this`overflowed, this`scanning, this`Shown
      modifies block`count, block`Owner, block`nextCell, block`listMode, block`renderDirty, block.items
      ensures Valid() && !scanning
      ensures if Active() && listing.Some? then Rescanned(Config(true), dir, old(Shown), Shown, overflowed)
              else Shown == old(Shown) && overflowed == old(overflowed)
      decreases 1, 0
    {
      hide block.Owns, GoodList, AllFresh, AllEmpty, Ascending, Enumerates, FirstOf, IsFeedName;
      if cancelled || wd < 0 || listing.None? {
        return;
      }
      var list, over := ListNames(dir, listing.value, block.maxItems);
      overflowed, scanning := over, true;
      RemoveMissing(list);
      RefreshAll(dir, list);
      scanning := false;
    }

    method RefreshAll(dir: Directory, list: NameList)
      requires Valid() && Active() && scanning && list.Valid()
      requires FirstOf(ListedNames(dir), block.maxItems, Elements(list.names[..list.count]))
      requires forall n | n in Shown :: n in Elements(list.names[..list.count])
      modifies this`overflowed, this`scanning, this`Shown
      modifies block`count, block`Owner, block`nextCell, block`listMode, block`renderDirty, block.items
      ensures Valid() && scanning && overflowed == old(overflowed)
      ensures RescannedTo(Config(true), dir, Elements(old(list.names[..list.count])), old(Shown), Shown)
      decreases 0, 2
    {
      hide block.Valid, block.Keyed, RefreshStep, IsFeedName, FirstOf, ListedNames, Ascending, ScannedTo, RescannedTo,
           Listed;
      ghost var names := list.names[..list.count];
      ghost var kept := Elements(names);
      ScannedNone(Config(false), dir, kept, Shown);
      for i := 0 to list.count
        invariant Valid() && scanning && overflowed == old(overflowed) && list.names[..list.count] == names
        invariant ScannedTo(Config(false), dir, kept, names[..i], old(Shown), Shown)
      {
        ghost var before := Shown;
        assert list.names[i] == names[i];
        KeptName(dir, block.maxItems, names, i);
        RefreshFile(dir, None, list.names[i]);
        ScanStep(Config(false), dir, kept, names, i, old(Shown), before, old(overflowed), Shown, overflowed);
      }
      assert names[..|names|] == names;
      ScannedAll(Config(false), Config(true), dir, names, old(Shown), Shown);
    }

    /** One event of the watched directory, or the loss of events. */
    method HandleEvent(dir: Directory, listing: Option<seq<Bytes>>, event: Event, eventWd: int)
      requires Valid() && !scanning
      // Only the loss of events comes without a watch descriptor.
      requires event != Overflow ==> eventWd >= 0
      requires listing.Some? ==> Enumerates(listing.value, dir)
      modifies this`overflowed, this`scanning, this`Shown
      modifies block`count, block`Owner, block`nextCell, block`listMode, block`renderDirty, block.items
      ensures Valid() && !scanning
      ensures if !Active() || (event != Overflow && eventWd != wd) then Shown == old(Shown)
        && overflowed == old(overflowed)
              else Handled(Config(listing.Some?), dir, event, old(Shown), old(overflowed), Shown, overflowed)
    {
      hide block.Valid, block.Keyed, Rescanned, DropStep, RefreshStep, IsFeedName;
      if event == Overflow {
        Rescan(dir, listing);
        return;
      }
      if cancelled || eventWd != wd {
        return;
      }
      var named := FeedName(event.name);
      if !named {
        return;
      }
      if event.Removed? {
        Drop(dir, listing, event.name);
      } else {
        RefreshFile(dir, listing, event.name);
      }
    }
  }

  /** Every kept name is listed, and comes once. */
  lemma {:induction false} KeptName(dir: Directory, capacity: nat, names: seq<Bytes>, i: nat)
    requires Ascending(names) && FirstOf(ListedNames(dir), capacity, Elements(names)) && i < |names|
    ensures names[i] in Elements(names) && Listed(dir, names[i]) && IsFeedName(names[i]) && names[i] !in names[..i]
    ensures |Elements(names)| <= capacity
  {
    assert names[i] in ListedNames(dir);
    NotYetScanned(names, i);
  }

  lemma {:induction false} NotYetScanned(names: seq<Bytes>, i: nat)
    requires Ascending(names) && i < |names|
    ensures names[i] !in names[..i]
  {
    if names[i] in names[..i] {
      var k :| 0 <= k < i && names[..i][k] == names[i];
      PrecedesTotal(names[k], names[i]);
    }
  }
}
