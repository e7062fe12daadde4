/**
 A directory shown as items: what one listing or one change does to the shown map, and why the
 incremental updates agree with listing everything again once no change is pending.
 */
module DirectoryModel {
  import opened Bytes
  import opened Items
  import opened NameLists
  import opened SortedStore
  import Utf8

  const FEED_NAME_MAX := 255

  /**
   What a directory holds under a name: a readable regular file, a regular file whose read fails,
   an entry that is listed but does not open as a regular file, or an entry never listed.
   */
  datatype Node = File(content: Bytes) | Faulty | Sealed | Foreign

  type Directory = map<Bytes, Node>

  /** How files become states, how many fit, and whether the directory can be listed. */
  datatype Setting = Setting(rules: Rules, parse: (Bytes, Bytes) -> State, maxItems: nat, listable: bool)

  function FileView(cfg: Setting, name: Bytes, content: Bytes): (view: View)
    ensures view.id == Some(name) && Stored(view) == cfg.parse(name, content)
  {
    var state := cfg.parse(name, content);
    View(Some(name), state.text, state.border, state.minWidth, state.urgent)
  }

  /** Dotfiles, editor backups, overlong names and names that are not UTF-8 are ignored. */
  ghost predicate IsFeedName(name: Bytes) {
    0 < |name| <= FEED_NAME_MAX && name[0] != 46 && name[|name| - 1] != 126 && Utf8.WellFormed(name)
  }

  ghost predicate Listed(dir: Directory, name: Bytes) {
    name in dir && IsFeedName(name) && dir[name] != Foreign
  }

  ghost function ListedNames(dir: Directory): set<Bytes> {
    set n | n in dir && Listed(dir, n)
  }

  ghost predicate Renders(cfg: Setting, dir: Directory, name: Bytes) {
    && Listed(dir, name) && dir[name].File?
    && Obstacle(cfg.rules, true, 0, FileView(cfg, name, dir[name].content)).None?
  }

  /** The state a rendering file shows. */
  ghost predicate Current(cfg: Setting, dir: Directory, shown: map<Bytes, State>, name: Bytes) {
    Renders(cfg, dir, name) && name in shown && shown[name] == cfg.parse(name, dir[name].content)
  }

  /** A file that cannot be read or rendered keeps the item it had. */
  ghost predicate Retains(cfg: Setting, dir: Directory, name: Bytes) {
    Listed(dir, name) && dir[name] != Sealed && !Renders(cfg, dir, name)
  }

  // ---- One listing ----

  /** What becomes of one kept name. */
  ghost predicate ScanFits(cfg: Setting, dir: Directory, n: Bytes, shown: map<Bytes, State>, after: map<Bytes, State>) {
    && (Renders(cfg, dir, n) ==> Current(cfg, dir, after, n))
    && (Retains(cfg, dir, n) ==> (n in after <==> n in shown) && (n in shown ==> after[n] == shown[n]))
    && (n in dir && dir[n] == Sealed ==> n !in after)
  }

  ghost predicate RescannedTo(cfg: Setting, dir: Directory, kept: set<Bytes>, shown: map<Bytes, State>,
                              after: map<Bytes, State>) {
    (forall n | n in after :: n in kept) && forall n | n in kept :: ScanFits(cfg, dir, n, shown, after)
  }

  ghost predicate Rescanned(cfg: Setting, dir: Directory, shown: map<Bytes, State>,
                            after: map<Bytes, State>, overflowed: bool) {
    && (overflowed <==> |ListedNames(dir)| > cfg.maxItems)
    && exists kept :: FirstOf(ListedNames(dir), cfg.maxItems, kept) && RescannedTo(cfg, dir, kept, shown, after)
  }

  // ---- One event ----

  datatype Event = Written(name: Bytes) | Removed(name: Bytes) | Overflow

  ghost predicate PutStep(cfg: Setting, name: Bytes, content: Bytes, shown: map<Bytes, State>, overflowed: bool,
                          after: map<Bytes, State>, overflowedAfter: bool) {
    exists result ::
      && PutOutcome(cfg.rules, cfg.maxItems, shown, name, FileView(cfg, name, content), result, after)
      && overflowedAfter == (overflowed || result == Evicted || result == PutResult.Full)
  }

  /** Dropping a shown item while others are hidden lists the directory again, if it can be listed. */
  ghost predicate DropStep(cfg: Setting, dir: Directory, name: Bytes, shown: map<Bytes, State>, overflowed: bool,
                           after: map<Bytes, State>, overflowedAfter: bool) {
    if name in shown && overflowed && cfg.listable then Rescanned(cfg, dir, shown - {name}, after, overflowedAfter)
    else after == shown - {name} && overflowedAfter == overflowed
  }

  ghost predicate RefreshStep(cfg: Setting, dir: Directory, name: Bytes, shown: map<Bytes, State>, overflowed: bool,
                              after: map<Bytes, State>, overflowedAfter: bool) {
    if name in dir && dir[name].File? then
      PutStep(cfg, name, dir[name].content, shown, overflowed, after, overflowedAfter)
    else if name in dir && dir[name] == Faulty then after == shown && overflowedAfter == overflowed
    else DropStep(cfg, dir, name, shown, overflowed, after, overflowedAfter)
  }

  ghost predicate Handled(cfg: Setting, dir: Directory, event: Event, shown: map<Bytes, State>, overflowed: bool,
                          after: map<Bytes, State>, overflowedAfter: bool) {
    match event
    case Overflow =>
      if cfg.listable then Rescanned(cfg, dir, shown, after, overflowedAfter)
      else after == shown && overflowedAfter == overflowed
    case Removed(name) =>
      if IsFeedName(name) then DropStep(cfg, dir, name, shown, overflowed, after, overflowedAfter)
      else after == shown && overflowedAfter == overflowed
    case Written(name) =>
      if IsFeedName(name) then RefreshStep(cfg, dir, name, shown, overflowed, after, overflowedAfter)
      else after == shown && overflowedAfter == overflowed
  }

  // ---- Runs ----

  /**
   The directory, the names being written, the names linked into it that nobody looked at since, the events
   not yet handled, and what is shown.
   */
  datatype World = World(dir: Directory, open: set<Bytes>, linked: set<Bytes>, queue: seq<Event>,
                         shown: map<Bytes, State>,
                         overflowed: bool)

  /** The event of a name that was queued last; an overflow concerns every name. */
  ghost function LastFor(queue: seq<Event>, name: Bytes): Option<Event> {
    if queue == [] then None
    else
      var last := queue[|queue| - 1];
      if last == Overflow || last.name == name then Some(last) else LastFor(queue[..|queue| - 1], name)
  }

  /** An event joins the queue, merges with an equal last event, or is lost to an overflow. */
  ghost predicate Posted(queue: seq<Event>, event: Event, after: seq<Event>) {
    || after == queue + [event]
    || after == queue + [Overflow]
    || (queue != [] && queue[|queue| - 1] in {event, Overflow} && after == queue)
  }

  datatype Change =
    | BeginWrite(name: Bytes, node: Node)
    | EndWrite(name: Bytes)
    | Replace(name: Bytes, node: Node)
    | Delete(name: Bytes)
    | MakeForeign(name: Bytes)
    | Link(name: Bytes, node: Node)

  /** What other programs do to the directory, and the events this posts. */
  ghost predicate Changes(w: World, change: Change, v: World) {
    && v.shown == w.shown && v.overflowed == w.overflowed
    && v.linked == (if change.Link? then w.linked + {change.name} else w.linked)
    && match change
       case BeginWrite(name, node) =>
         // Creating or modifying a file is not observed before it is closed.
         v.dir == w.dir[name := node] && v.open == w.open + {name} && v.queue == w.queue
       case EndWrite(name) =>
         name in w.open && v.dir == w.dir && v.open == w.open - {name} && Posted(w.queue, Written(name), v.queue)
       case Replace(name, node) =>
         v.dir == w.dir[name := node] && v.open == w.open && Posted(w.queue, Written(name), v.queue)
       case Delete(name) =>
         v.dir == w.dir - {name} && v.open == w.open && Posted(w.queue, Removed(name), v.queue)
       case MakeForeign(name) =>
         name !in w.dir && v.dir == w.dir[name := Foreign] && v.open == w.open && v.queue == w.queue
       case Link(name, node) =>
         // A hard link to an existing file is only created, which is not watched.
         name !in w.dir && v.dir == w.dir[name := node] && v.open == w.open && v.queue == w.queue
  }

  /** Whether handling the next event lists the directory again. */
  ghost predicate Relists(cfg: Setting, w: World)
    requires w.queue != []
  {
    cfg.listable &&
    match w.queue[0]
    case Overflow => true
    case Removed(name) => IsFeedName(name) && name in w.shown && w.overflowed
    case Written(name) =>
      IsFeedName(name) && name in w.shown && w.overflowed
      && !(name in w.dir && (w.dir[name].File? || w.dir[name] == Faulty))
  }

  /** A linked name counts as seen once a listing or an event of its own looks at it, and no event of it follows. */
  ghost function StillLinked(cfg: Setting, w: World): set<Bytes>
    requires w.queue != []
  {
    set n | n in w.linked && !((Relists(cfg, w) || w.queue[0] == Written(n)) && LastFor(w.queue[1..], n) == None)
  }

  /** One event taken from the queue, whatever it did to the items. */
  ghost predicate Takes(cfg: Setting, w: World, v: World) {
    w.queue != [] && v.queue == w.queue[1..] && v.dir == w.dir && v.open == w.open && v.linked == StillLinked(cfg, w)
  }

  ghost predicate Handles(cfg: Setting, w: World, v: World) {
    && Takes(cfg, w, v)
    && Handled(cfg, w.dir, w.queue[0], w.shown, w.overflowed, v.shown, v.overflowed)
  }

  ghost predicate Step(cfg: Setting, w: World, v: World) {
    Handles(cfg, w, v) || exists change :: Changes(w, change, v)
  }

  /** Activation watches an arbitrary directory and then lists it before any event is handled. */
  ghost predicate Init(w: World) {
    w.open == w.linked == {} && w.queue == [Overflow] && w.shown == map[] && !w.overflowed
  }

  /** Every listed file can be read and rendered. */
  ghost predicate AllRender(cfg: Setting, dir: Directory) {
    forall n | Listed(dir, n) :: Renders(cfg, dir, n)
  }

  ghost predicate Settled(w: World, name: Bytes) {
    name !in w.open && name !in w.linked && LastFor(w.queue, name) == None
  }

  ghost predicate Bounded(cfg: Setting, w: World) {
    && (forall n | n in w.shown :: IsFeedName(n))
    && |w.shown| <= cfg.maxItems && (w.overflowed ==> |w.shown| == cfg.maxItems)
  }

  ghost predicate AllPrecede(shown: map<Bytes, State>, name: Bytes) {
    forall m | m in shown :: Precedes(m, name)
  }

  /**
   A settled name is shown as it is, or hidden behind a full list of earlier names; a linked name that
   nobody looked at is not shown.
   */
  ghost predicate NameFits(cfg: Setting, w: World, n: Bytes) {
    && (Settled(w, n) && n in w.shown ==> Current(cfg, w.dir, w.shown, n))
    && (Settled(w, n) && Renders(cfg, w.dir, n) && n !in w.shown ==> w.overflowed && AllPrecede(w.shown, n))
    && (n !in w.open && n !in w.linked && LastFor(w.queue, n) == Some(Removed(n)) ==> !Listed(w.dir, n))
    && (LastFor(w.queue, n) == None && (n !in w.dir || n in w.linked) ==> n !in w.shown)
  }

  ghost predicate Inv(cfg: Setting, w: World) {
    Bounded(cfg, w) && forall n :: NameFits(cfg, w, n)
  }

  lemma {:induction false} LastForPosted(queue: seq<Event>, event: Event, after: seq<Event>, name: Bytes)
    requires Posted(queue, event, after) && !event.Overflow?
    ensures LastFor(after, name) == LastFor(queue, name) || LastFor(after, name) in {Some(event), Some(Overflow)}
    ensures event.name == name ==> LastFor(after, name) in {Some(event), Some(Overflow)}
  {
    if after == queue + [event] || after == queue + [Overflow] {
      assert after[..|after| - 1] == queue;
    }
  }

  lemma {:induction false} LastForTail(queue: seq<Event>, name: Bytes)
    requires queue != []
    ensures LastFor(queue[1..], name) == None ==>
      LastFor(queue, name) == if queue[0] == Overflow || queue[0].name == name then Some(queue[0]) else None
    ensures LastFor(queue[1..], name) != None ==> LastFor(queue, name) == LastFor(queue[1..], name)
  {
    var last := queue[|queue| - 1];
    if |queue| > 1 && !(last == Overflow || last.name == name) {
      LastForTail(queue[..|queue| - 1], name);
      assert queue[1..][..|queue| - 2] == queue[..|queue| - 1][1..];
    }
  }

  /** A change of one name keeps every other as it was, and leaves its own to an event, a writer or a link. */
  lemma {:induction false} ChangeFits(cfg: Setting, w: World, change: Change, v: World, n: Bytes)
    requires NameFits(cfg, w, n) && Changes(w, change, v)
    ensures NameFits(cfg, v, n)
  {
    hide Posted, LastFor, AllPrecede, IsFeedName, Obstacle;
    match change
    case EndWrite(name) => LastForPosted(w.queue, Written(name), v.queue, n);
    case Replace(name, _) => LastForPosted(w.queue, Written(name), v.queue, n);
    case Delete(name) => LastForPosted(w.queue, Removed(name), v.queue, n);
    case _ =>
  }

  lemma {:induction false} ChangeKeepsInv(cfg: Setting, w: World, change: Change, v: World)
    requires Inv(cfg, w) && Changes(w, change, v)
    ensures Inv(cfg, v)
  {
    hide NameFits, Posted, IsFeedName;
    forall n
      ensures NameFits(cfg, v, n)
    {
      assert NameFits(cfg, w, n);
      ChangeFits(cfg, w, change, v, n);
    }
  }

  /** With every listed file rendering, a listing shows exactly the names it kept. */
  lemma {:induction false} ShowsKept(cfg: Setting, dir: Directory, kept: set<Bytes>, shown: map<Bytes, State>,
                                     after: map<Bytes, State>)
    requires AllRender(cfg, dir) && kept <= ListedNames(dir) && RescannedTo(cfg, dir, kept, shown, after)
    ensures after.Keys == kept && |after| == |kept|
    ensures forall n | n in after :: Current(cfg, dir, after, n)
  {
    forall n | n in kept
      ensures n in after && Current(cfg, dir, after, n)
    {
      assert n in ListedNames(dir);
    }
    assert |after| == |after.Keys|;
  }

  ghost predicate AllCurrent(cfg: Setting, dir: Directory, shown: map<Bytes, State>) {
    forall n | n in shown :: Current(cfg, dir, shown, n)
  }

  /** A listing settles every name at once. */
  lemma {:induction false} RescanFits(cfg: Setting, dir: Directory, shown: map<Bytes, State>, after: map<Bytes, State>,
                                      overflowed: bool)
    requires AllRender(cfg, dir) && Rescanned(cfg, dir, shown, after, overflowed)
    ensures AllCurrent(cfg, dir, after) && |after| <= cfg.maxItems
    ensures overflowed ==> |after| == cfg.maxItems
    ensures forall n | Renders(cfg, dir, n) && n !in after :: overflowed && AllPrecede(after, n)
  {
    var kept :| FirstOf(ListedNames(dir), cfg.maxItems, kept) && RescannedTo(cfg, dir, kept, shown, after);
    ShowsKept(cfg, dir, kept, shown, after);
    forall n | Renders(cfg, dir, n) && n !in after
      ensures overflowed && AllPrecede(after, n)
    {
      assert n in ListedNames(dir) - kept;
      if |ListedNames(dir)| <= cfg.maxItems {
        SubsetOfSize(kept, ListedNames(dir));
      }
    }
  }

  lemma {:induction false} RescanKeepsInv(cfg: Setting, w: World, v: World, shown: map<Bytes, State>)
    requires Inv(cfg, w) && AllRender(cfg, w.dir) && Takes(cfg, w, v) && Relists(cfg, w)
    requires Rescanned(cfg, w.dir, shown, v.shown, v.overflowed)
    ensures Inv(cfg, v)
  {
    RescanFits(cfg, w.dir, shown, v.shown, v.overflowed);
    forall n
      ensures NameFits(cfg, v, n)
    {
      assert NameFits(cfg, w, n);
      LastForTail(w.queue, n);
    }
  }

  /** A name other than the event's is as settled before as after. */
  lemma {:induction false} OthersWereSettled(cfg: Setting, w: World, v: World, n: Bytes)
    requires Inv(cfg, w) && Takes(cfg, w, v)
    ensures n !in v.open && n !in v.linked && LastFor(v.queue, n) == Some(Removed(n)) ==> !Listed(v.dir, n)
    ensures Settled(v, n) ==>
      && n !in w.open && (n in w.linked ==> Relists(cfg, w) || w.queue[0] == Written(n))
      && LastFor(w.queue, n) == if w.queue[0] == Overflow || w.queue[0].name == n then Some(w.queue[0]) else None
    ensures LastFor(v.queue, n) == None && (n !in v.dir || n in v.linked) ==>
      n !in w.shown || w.queue[0] == Overflow || w.queue[0].name == n
  {
    LastForTail(w.queue, n);
    assert NameFits(cfg, w, n);
  }

  lemma {:induction false} DropKeepsInv(cfg: Setting, w: World, v: World, name: Bytes)
    requires cfg.listable && Inv(cfg, w) && AllRender(cfg, w.dir) && Takes(cfg, w, v)
    requires w.queue[0] in {Removed(name), Written(name)} && IsFeedName(name)
    requires w.queue[0] == Written(name) ==> !Listed(w.dir, name)
    requires DropStep(cfg, w.dir, name, w.shown, w.overflowed, v.shown, v.overflowed)
    ensures Inv(cfg, v)
  {
    hide Inv, Rescanned, IsFeedName;
    if name in w.shown && w.overflowed {
      RescanKeepsInv(cfg, w, v, w.shown - {name});
    } else {
      DropQuietly(cfg, w, v, name);
    }
  }

  lemma {:induction false} DropQuietly(cfg: Setting, w: World, v: World, name: Bytes)
    requires Inv(cfg, w) && Takes(cfg, w, v) && w.queue[0] in {Removed(name), Written(name)}
    requires w.queue[0] == Written(name) ==> !Listed(w.dir, name)
    requires !(name in w.shown && w.overflowed) && v.shown == w.shown - {name} && v.overflowed == w.overflowed
    ensures Inv(cfg, v)
  {
    hide NameFits, Renders, LastFor, IsFeedName, Bounded;
    DropBounded(cfg, w, v, name);
    forall n
      ensures NameFits(cfg, v, n)
    {
      assert NameFits(cfg, w, n);
      OthersWereSettled(cfg, w, v, n);
      DropFits(cfg, w, v, name, n);
    }
  }

  lemma {:induction false} DropBounded(cfg: Setting, w: World, v: World, name: Bytes)
    requires Bounded(cfg, w) && !(name in w.shown && w.overflowed)
    requires v.shown == w.shown - {name} && v.overflowed == w.overflowed
    ensures Bounded(cfg, v)
  {
    hide IsFeedName;
    if name in w.shown {
      SizeWithout(w.shown, name);
    } else {
      assert w.shown - {name} == w.shown;
    }
  }

  lemma {:induction false} DropFits(cfg: Setting, w: World, v: World, name: Bytes, n: Bytes)
    requires NameFits(cfg, w, n) && Takes(cfg, w, v) && w.queue[0] in {Removed(name), Written(name)}
    requires w.queue[0] == Written(name) ==> !Listed(w.dir, name)
    requires !(name in w.shown && w.overflowed) && v.shown == w.shown - {name} && v.overflowed == w.overflowed
    requires Settled(v, n) ==> n !in w.open && (n in w.linked ==> Relists(cfg, w) || w.queue[0] == Written(n))
    requires Settled(v, n) ==> LastFor(w.queue, n) == if n == name then Some(w.queue[0]) else None
    requires n !in v.open && n !in v.linked && LastFor(v.queue, n) == Some(Removed(n)) ==> !Listed(v.dir, n)
    requires LastFor(v.queue, n) == None && (n !in v.dir || n in v.linked) ==> n !in w.shown || n == name
    ensures NameFits(cfg, v, n)
  {
  }

  /** Evicting the last shown name leaves it, and every name hidden before, after all shown names. */
  lemma {:induction false} PutKeepsInv(cfg: Setting, w: World, v: World, name: Bytes, content: Bytes)
    requires Inv(cfg, w) && Takes(cfg, w, v) && w.queue[0] == Written(name) && Renders(cfg, w.dir, name)
    requires w.dir[name] == File(content)
    requires PutStep(cfg, name, content, w.shown, w.overflowed, v.shown, v.overflowed)
    ensures Inv(cfg, v)
  {
    var result :| PutOutcome(cfg.rules, cfg.maxItems, w.shown, name, FileView(cfg, name, content), result, v.shown)
                  && v.overflowed == (w.overflowed || result == Evicted || result == PutResult.Full);
    PutFits(cfg, w, v, name, content, result);
  }

  lemma {:induction false} PutBounded(cfg: Setting, w: World, v: World, name: Bytes, view: View, result: PutResult)
    requires Bounded(cfg, w) && IsFeedName(name) && result != Failed
    requires PutOutcome(cfg.rules, cfg.maxItems, w.shown, name, view, result, v.shown)
    requires v.overflowed == (w.overflowed || result == Evicted || result == PutResult.Full)
    ensures Bounded(cfg, v)
  {
    hide IsFeedName, Precedes, Obstacle;
    PutSize(cfg, w.shown, name, view, result, v.shown);
  }

  /** How many items a put leaves. */
  lemma {:induction false} PutSize(cfg: Setting, shown: map<Bytes, State>, name: Bytes, view: View, result: PutResult,
                                   after: map<Bytes, State>)
    requires PutOutcome(cfg.rules, cfg.maxItems, shown, name, view, result, after) && |shown| <= cfg.maxItems
    requires result != Failed
    ensures after.Keys <= shown.Keys + {name} && |after| <= cfg.maxItems
      && (|shown| == cfg.maxItems ==> |after| == cfg.maxItems)
    ensures result == Evicted || result == PutResult.Full ==> |after| == cfg.maxItems
  {
    hide Precedes, Obstacle, IsLast, Stored;
    if result == Evicted {
      var last :| IsLast(shown, last) && Precedes(name, last) && after == (shown - {last})[name := Stored(view)];
      EvictSize(shown, last, name, Stored(view));
    } else if result == Changed {
      SizeWith(shown, name, Stored(view));
    }
  }

  lemma {:induction false} EvictSize(shown: map<Bytes, State>, last: Bytes, name: Bytes, state: State)
    requires IsLast(shown, last) && name !in shown
    ensures |(shown - {last})[name := state]| == |shown|
    ensures ((shown - {last})[name := state]).Keys <= shown.Keys + {name}
  {
    SizeWithout(shown, last);
    SizeWith(shown - {last}, name, state);
  }

  lemma {:induction false} SizeWith(shown: map<Bytes, State>, name: Bytes, state: State)
    ensures |shown[name := state]| == |shown| + if name in shown then 0 else 1
  {
    assert shown[name := state].Keys == shown.Keys + {name};
    assert |shown[name := state]| == |shown[name := state].Keys| && |shown| == |shown.Keys|;
  }

  lemma {:induction false} PutFits(cfg: Setting, w: World, v: World, name: Bytes, content: Bytes, result: PutResult)
    requires Inv(cfg, w) && Takes(cfg, w, v) && w.queue[0] == Written(name) && Renders(cfg, w.dir, name)
    requires w.dir[name] == File(content)
    requires PutOutcome(cfg.rules, cfg.maxItems, w.shown, name, FileView(cfg, name, content), result, v.shown)
    requires v.overflowed == (w.overflowed || result == Evicted || result == PutResult.Full)
    ensures Inv(cfg, v)
  {
    hide Obstacle, IsFeedName;
    PutBounded(cfg, w, v, name, FileView(cfg, name, content), result);
    PutShows(cfg, w.shown, name, FileView(cfg, name, content), result, v.shown);
    forall n
      ensures NameFits(cfg, v, n)
    {
      assert NameFits(cfg, w, n);
      OthersWereSettled(cfg, w, v, n);
      PutSees(cfg, w, v, name, n);
      hide StillLinked;
      if result == Evicted {
        EvictionFits(cfg, w, v, name, n);
      }
    }
  }

  /** A put shows no other name that was not shown. */
  lemma {:induction false} PutShows(cfg: Setting, shown: map<Bytes, State>, name: Bytes, view: View, result: PutResult,
                                    after: map<Bytes, State>)
    requires PutOutcome(cfg.rules, cfg.maxItems, shown, name, view, result, after)
    ensures after.Keys <= shown.Keys + {name}
  {
  }

  /** Reading a file looks at its name, and at no other. */
  lemma {:induction false} PutSees(cfg: Setting, w: World, v: World, name: Bytes, n: Bytes)
    requires Takes(cfg, w, v) && w.queue[0] == Written(name) && Renders(cfg, w.dir, name)
    ensures n == name && LastFor(v.queue, n) == None ==> n !in v.linked
    ensures n != name ==> (n in v.linked <==> n in w.linked)
  {
  }

  lemma {:induction false} EvictionFits(cfg: Setting, w: World, v: World, name: Bytes, n: Bytes)
    requires NameFits(cfg, w, n) && Takes(cfg, w, v) && v.overflowed && Renders(cfg, w.dir, name)
    requires exists last :: IsLast(w.shown, last) && Precedes(name, last)
               && v.shown == (w.shown - {last})[name := cfg.parse(name, w.dir[name].content)]
    requires Settled(v, n) ==> Settled(w, n) || n == name
    requires n !in v.open && n !in v.linked && LastFor(v.queue, n) == Some(Removed(n)) ==> !Listed(v.dir, n)
    requires LastFor(v.queue, n) == None && (n !in v.dir || n in v.linked) ==> n !in v.shown
    ensures NameFits(cfg, v, n)
  {
    var last :| IsLast(w.shown, last) && Precedes(name, last)
               && v.shown == (w.shown - {last})[name := cfg.parse(name, w.dir[name].content)];
    if Settled(v, n) && Renders(cfg, v.dir, n) && n !in v.shown {
      if n != last {
        assert AllPrecede(w.shown, n);
        PrecedesTransitive(name, last, n);
      }
    }
  }

  lemma {:induction false} HandleKeepsInv(cfg: Setting, w: World, v: World)
    requires cfg.listable && Inv(cfg, w) && AllRender(cfg, w.dir) && Handles(cfg, w, v)
    ensures Inv(cfg, v)
  {
    match w.queue[0]
    case Overflow => RescanKeepsInv(cfg, w, v, w.shown);
    case Removed(name) =>
      if IsFeedName(name) {
        DropKeepsInv(cfg, w, v, name);
      } else {
        IgnoredKeepsInv(cfg, w, v, name);
      }
    case Written(name) =>
      if !IsFeedName(name) {
        IgnoredKeepsInv(cfg, w, v, name);
      } else if Listed(w.dir, name) {
        PutKeepsInv(cfg, w, v, name, w.dir[name].content);
      } else {
        DropKeepsInv(cfg, w, v, name);
      }
  }

  lemma {:induction false} IgnoredKeepsInv(cfg: Setting, w: World, v: World, name: Bytes)
    requires Inv(cfg, w) && Takes(cfg, w, v) && w.queue[0] in {Removed(name), Written(name)} && !IsFeedName(name)
    requires v.shown == w.shown && v.overflowed == w.overflowed
    ensures Inv(cfg, v)
  {
    forall n
      ensures NameFits(cfg, v, n)
    {
      assert NameFits(cfg, w, n);
      OthersWereSettled(cfg, w, v, n);
    }
  }

  lemma {:induction false} InitInv(cfg: Setting, w: World)
    requires Init(w)
    ensures Inv(cfg, w)
  {
    forall n
      ensures NameFits(cfg, w, n)
    {
      assert LastFor(w.queue, n) == Some(Overflow);
    }
  }

  lemma {:induction false} StepKeepsInv(cfg: Setting, w: World, v: World)
    requires cfg.listable && Inv(cfg, w) && AllRender(cfg, w.dir) && Step(cfg, w, v)
    ensures Inv(cfg, v)
  {
    if Handles(cfg, w, v) {
      HandleKeepsInv(cfg, w, v);
    } else {
      var change :| Changes(w, change, v);
      ChangeKeepsInv(cfg, w, change, v);
    }
  }

  /** A run from activation to its last world, the directory listable and every listed file rendering throughout. */
  ghost predicate Run(cfg: Setting, run: seq<World>) {
    && cfg.listable && run != [] && AllRender(cfg, run[|run| - 1].dir)
    && if |run| == 1 then Init(run[0])
       else Run(cfg, run[..|run| - 1]) && Step(cfg, run[|run| - 2], run[|run| - 1])
  }

  lemma {:induction false} RunKeepsInv(cfg: Setting, run: seq<World>)
    requires Run(cfg, run)
    ensures Inv(cfg, run[|run| - 1])
  {
    if |run| == 1 {
      InitInv(cfg, run[0]);
    } else {
      RunKeepsInv(cfg, run[..|run| - 1]);
      StepKeepsInv(cfg, run[|run| - 2], run[|run| - 1]);
    }
  }

  ghost predicate AllBehind(cfg: Setting, shown: map<Bytes, State>, names: set<Bytes>) {
    names == {} || (|shown| == cfg.maxItems && forall n | n in names :: AllPrecede(shown, n))
  }

  /**
   However changes and event processing interleave: once nothing is pending, the items are exactly the
   first names of the directory with their present contents, but for names linked into it that nothing
   looked at since. With those they are the first names exactly when every such name is behind a full list.
   */
  lemma {:induction false} DrainedShowsDirectory(cfg: Setting, run: seq<World>)
    requires Run(cfg, run)
    requires run[|run| - 1].queue == [] && run[|run| - 1].open == {}
    ensures var w := run[|run| - 1];
            && AllCurrent(cfg, w.dir, w.shown)
            && FirstOf(ListedNames(w.dir) - w.linked, cfg.maxItems, w.shown.Keys)
            && (!w.overflowed ==> w.shown.Keys == ListedNames(w.dir) - w.linked)
            && (FirstOf(ListedNames(w.dir), cfg.maxItems, w.shown.Keys)
                <==> AllBehind(cfg, w.shown, ListedNames(w.dir) * w.linked))
  {
    RunKeepsInv(cfg, run);
    var w := run[|run| - 1];
    DrainedShowsSeen(cfg, w);
    hide Run, Inv, ListedNames, AllCurrent;
    LinkedBehind(cfg, ListedNames(w.dir), w.linked, w.shown);
  }

  lemma {:induction false} DrainedShowsSeen(cfg: Setting, w: World)
    requires Inv(cfg, w) && AllRender(cfg, w.dir) && w.queue == [] && w.open == {}
    ensures AllCurrent(cfg, w.dir, w.shown) && FirstOf(ListedNames(w.dir) - w.linked, cfg.maxItems, w.shown.Keys)
    ensures !w.overflowed ==> w.shown.Keys == ListedNames(w.dir) - w.linked
  {
    var seen := ListedNames(w.dir) - w.linked;
    hide NameFits, Renders, AllRender, ListedNames, Current, AllPrecede;
    forall n
      ensures n in w.shown ==> n in seen && Current(cfg, w.dir, w.shown, n)
      ensures n in seen - w.shown.Keys ==> w.overflowed && AllPrecede(w.shown, n)
    {
      assert NameFits(cfg, w, n);
      DrainedName(cfg, w, n);
    }
    FirstBehind(cfg, w.shown, seen, w.overflowed);
  }

  lemma {:induction false} DrainedName(cfg: Setting, w: World, n: Bytes)
    requires NameFits(cfg, w, n) && AllRender(cfg, w.dir) && w.queue == [] && w.open == {}
    ensures n in w.shown ==> n in ListedNames(w.dir) - w.linked && Current(cfg, w.dir, w.shown, n)
    ensures n in ListedNames(w.dir) - w.linked - w.shown.Keys ==> w.overflowed && AllPrecede(w.shown, n)
  {
  }

  /** Names hidden only behind a full list leave the first names. */
  lemma {:induction false} FirstBehind(cfg: Setting, shown: map<Bytes, State>, all: set<Bytes>, overflowed: bool)
    requires shown.Keys <= all && |shown| <= cfg.maxItems && (overflowed ==> |shown| == cfg.maxItems)
    requires forall n | n in all - shown.Keys :: overflowed && AllPrecede(shown, n)
    ensures FirstOf(all, cfg.maxItems, shown.Keys) && (!overflowed ==> shown.Keys == all)
  {
    assert |shown.Keys| == |shown|;
    SubsetSize(shown.Keys, all);
    if !overflowed {
      forall n | n in all
        ensures n in shown.Keys
      {
        assert n !in all - shown.Keys;
      }
      assert shown.Keys == all;
    }
  }

  /** Leaving names out of a set changes its first names unless all of them come after a full list. */
  lemma {:induction false} LinkedBehind(cfg: Setting, all: set<Bytes>, unseen: set<Bytes>, shown: map<Bytes, State>)
    requires FirstOf(all - unseen, cfg.maxItems, shown.Keys)
    ensures FirstOf(all, cfg.maxItems, shown.Keys) <==> AllBehind(cfg, shown, all * unseen)
  {
    hide Precedes;
    assert |shown.Keys| == |shown|;
    if all * unseen == {} {
      NothingLeftOut(all, unseen);
    } else {
      var x :| x in all * unseen;
      if FirstOf(all, cfg.maxItems, shown.Keys) {
        FirstLeavesBehind(cfg, all, unseen, shown, x);
      }
      if AllBehind(cfg, shown, all * unseen) {
        BehindLeavesFirst(cfg, all, unseen, shown);
      }
    }
  }

  lemma {:induction false} NothingLeftOut(all: set<Bytes>, unseen: set<Bytes>)
    requires all * unseen == {}
    ensures all - unseen == all
  {
    forall x | x in all
      ensures x in all - unseen
    {
      assert x !in all * unseen;
    }
  }

  lemma {:induction false} FirstLeavesBehind(cfg: Setting, all: set<Bytes>, unseen: set<Bytes>,
                                             shown: map<Bytes, State>, x: Bytes)
    requires FirstOf(all, cfg.maxItems, shown.Keys) && shown.Keys <= all - unseen && x in all * unseen
    ensures AllBehind(cfg, shown, all * unseen)
  {
    hide Precedes;
    assert |shown.Keys| == |shown|;
    assert x in all && x !in shown.Keys;
    if |shown| < cfg.maxItems {
      SubsetOfSize(shown.Keys, all);
    }
    forall n | n in all * unseen
      ensures AllPrecede(shown, n)
    {
      assert n in all - shown.Keys;
    }
  }

  lemma {:induction false} BehindLeavesFirst(cfg: Setting, all: set<Bytes>, unseen: set<Bytes>,
                                             shown: map<Bytes, State>)
    requires FirstOf(all - unseen, cfg.maxItems, shown.Keys)
    requires |shown| == cfg.maxItems && forall n | n in all * unseen :: AllPrecede(shown, n)
    ensures FirstOf(all, cfg.maxItems, shown.Keys)
  {
    hide Precedes;
    assert |shown.Keys| == |shown|;
    SubsetSize(shown.Keys, all);
    forall a, b | a in shown.Keys && b in all - shown.Keys
      ensures Precedes(a, b)
    {
      if b in unseen {
        assert b in all * unseen && AllPrecede(shown, b);
      } else {
        assert b in (all - unseen) - shown.Keys;
      }
    }
  }

  // ---- Listings with files that do not render ----

  ghost function RenderingNames(cfg: Setting, dir: Directory): set<Bytes> {
    set n | n in dir && Renders(cfg, dir, n)
  }

  /**
   The listing at activation shows the first names that render exactly when every listed name it kept
   renders or every name that renders was kept.
   */
  lemma {:induction false} ListingIsFirstRendering(cfg: Setting, dir: Directory, kept: set<Bytes>,
                                                   after: map<Bytes, State>)
    requires FirstOf(ListedNames(dir), cfg.maxItems, kept) && RescannedTo(cfg, dir, kept, map[], after)
    ensures FirstOf(RenderingNames(cfg, dir), cfg.maxItems, after.Keys)
      <==> kept <= RenderingNames(cfg, dir) || RenderingNames(cfg, dir) <= kept
  {
    ShowsRenderingKept(cfg, dir, kept, after);
    FilteredCut(ListedNames(dir), cfg.maxItems, kept, RenderingNames(cfg, dir));
  }

  lemma {:induction false} ShowsRenderingKept(cfg: Setting, dir: Directory, kept: set<Bytes>, after: map<Bytes, State>)
    requires kept <= ListedNames(dir) && RescannedTo(cfg, dir, kept, map[], after)
    ensures after.Keys == kept * RenderingNames(cfg, dir)
  {
    forall n | n in kept
      ensures n in after <==> Renders(cfg, dir, n)
    {
      assert n in ListedNames(dir) && ScanFits(cfg, dir, n, map[], after);
    }
  }

  lemma {:induction false} AsciiName(c: byte)
    requires 1 <= c < 128 && c != 46 && c != 126
    ensures IsFeedName([c])
  {
    assert Utf8.EncodeAll([c]) == Utf8.Encode(c) == [c];
    assert Utf8.Scalars([c]);
  }

  /** Two files, of which only the second renders. */
  lemma {:induction false} TwoNames(cfg: Setting, a: Bytes, b: Bytes, content: Bytes)
    requires a != b && IsFeedName(a) && IsFeedName(b) && Obstacle(cfg.rules, true, 0, FileView(cfg, b, content)).None?
    ensures var dir := map[a := Sealed, b := File(content)];
            ListedNames(dir) == {a, b} && RenderingNames(cfg, dir) == {b} && Renders(cfg, dir, b)
  {
    hide IsFeedName, Obstacle;
    var dir := map[a := Sealed, b := File(content)];
    assert ListedNames(dir) == {a, b};
    assert RenderingNames(cfg, dir) == {b};
  }

  /** With room for one item, an unreadable file named a hides a readable file named b. */
  lemma {:induction false} UnreadableHidesReadable(cfg: Setting, content: Bytes, after: map<Bytes, State>,
                                                   overflowed: bool)
    requires cfg.maxItems == 1 && Obstacle(cfg.rules, true, 0, FileView(cfg, [98], content)).None?
    requires Rescanned(cfg, map[[97] := Sealed, [98] := File(content)], map[], after, overflowed)
    ensures Renders(cfg, map[[97] := Sealed, [98] := File(content)], [98]) && after == map[]
  {
    var a, b: Bytes := [97], [98];
    var dir := map[a := Sealed, b := File(content)];
    AsciiName(97);
    AsciiName(98);
    TwoNames(cfg, a, b, content);
    CompareIdsIsOrder(a, b);
    assert CompareIds(a, b) < 0;
    hide ListedNames, RenderingNames, RescannedTo, Precedes, Renders, IsFeedName, Obstacle;
    var kept :| FirstOf(ListedNames(dir), cfg.maxItems, kept) && RescannedTo(cfg, dir, kept, map[], after);
    ShowsRenderingKept(cfg, dir, kept, after);
    FirstOfTwo(a, b, kept);
    assert after.Keys == {};
  }

  lemma {:induction false} FirstOfTwo(a: Bytes, b: Bytes, kept: set<Bytes>)
    requires a != b && !Precedes(b, a) && FirstOf({a, b}, 1, kept)
    ensures kept == {a}
  {
    assert b in kept && a in {a, b} - kept ==> Precedes(b, a);
    if a in kept && b in kept {
      SubsetSize({a, b}, kept);
    }
    assert kept <= {a};
    SubsetOfSize(kept, {a});
  }
}
