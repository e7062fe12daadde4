/**
 Mirroring a peer's properties over one D-Bus connection: match, then Subscribe, then a snapshot,
 and a new snapshot on every change signal except while one is under way. The two directions of the
 connection are FIFO queues; the peer, the bus and the order of steps are arbitrary.
 */
module Snapshots {
  import opened Bytes
  import opened Items

  /** How many properties are mirrored, and whether the peer signals only to subscribers. */
  datatype Shape = Shape(props: nat, subscribes: bool)

  datatype Value = Count(count: int) | Profile(name: Bytes) | Profiles(names: seq<Bytes>)

  datatype Request = Match | Subscribe | Get(prop: nat)

  /** A value that does not parse, and an error, are both replies without a value. */
  datatype Message = MatchAck(ok: bool) | SubscribeAck(ok: bool) | Reply(prop: nat, value: Option<Value>) | Signal

  datatype Source = Source(connected: bool, subscribing: bool, inflight: set<nat>, valid: set<nat>,
                           cache: map<nat, Value>)

  /** The snapshot requests sent from one property on: those not in flight whose sending succeeds. */
  function Gets(first: nat, props: nat, inflight: set<nat>, sendable: set<nat>): seq<Request>
    decreases props - first
  {
    if first >= props then []
    else (if first !in inflight && first in sendable then [Get(first)] else [])
         + Gets(first + 1, props, inflight, sendable)
  }

  function Below(props: nat): (all: set<nat>)
    ensures forall p: nat :: p in all <==> p < props
  {
    if props == 0 then {} else Below(props - 1) + {props - 1}
  }

  /** Asking for every property not already asked for. */
  function Requested(shape: Shape, source: Source, sendable: set<nat>): Source {
    source.(inflight := source.inflight + sendable * Below(shape.props))
  }

  function Replied(source: Source, prop: nat, value: Option<Value>): Source {
    var landed := source.(inflight := source.inflight - {prop});
    match value
    case None => landed.(valid := source.valid - {prop})
    case Some(v) => landed.(valid := source.valid + {prop}, cache := source.cache[prop := v])
  }

  function ClosedSource(source: Source): Source {
    Source(false, false, {}, {}, source.cache)
  }

  /** Handling one message: the source after it, and the requests it sends. */
  function Handle(shape: Shape, source: Source, message: Message, sendable: set<nat>, subscribeSends: bool)
    : (Source, seq<Request>)
  {
    match message
    case Reply(prop, value) => (Replied(source, prop, value), [])
    case MatchAck(false) => (source, [])
    case MatchAck(true) =>
      if !shape.subscribes then Refresh(shape, source, sendable)
      else if source.subscribing || !subscribeSends then (source, [])
      else (source.(subscribing := true), [Subscribe])
    case SubscribeAck(ok) =>
      var answered := source.(subscribing := false);
      if ok then Refresh(shape, answered, sendable) else (answered.(valid := {}), [])
    case Signal => Refresh(shape, source, sendable)
  }

  function Refresh(shape: Shape, source: Source, sendable: set<nat>): (Source, seq<Request>) {
    (Requested(shape, source, sendable), Gets(0, shape.props, source.inflight, sendable))
  }

  // ---- The two-party system ----

  /**
   The source, the peer's state, and the queues. The peer's value of a property is what a source keeps of it:
   of a profile list, the names KeptProfiles keeps. missed holds the properties whose last request could
   not be sent; refused records a refused match or Subscribe, or a Subscribe that could not be sent.
   */
  datatype World = World(source: Source, forwarding: bool, subscribed: bool, peer: map<nat, Value>,
                         up: seq<Request>, down: seq<Message>, missed: set<nat>, refused: bool)

  /** The peer's changes reach this source. */
  ghost predicate Live(shape: Shape, w: World) {
    w.forwarding && (shape.subscribes ==> w.subscribed)
  }

  /** A message that makes the source ask again. */
  predicate Triggers(shape: Shape, message: Message) {
    message == Signal || message == SubscribeAck(true) || (!shape.subscribes && message == MatchAck(true))
  }

  datatype Action =
    | Open | Close
    | Receive(sendable: set<nat>, subscribeSends: bool)
    | Serve(grants: bool)
    | Change(prop: nat, value: Value, signalled: bool)
    | Spontaneous

  ghost predicate Received(shape: Shape, w: World, sendable: set<nat>, subscribeSends: bool, v: World) {
    && w.down != []
    && var (source, requests) := Handle(shape, w.source, w.down[0], sendable, subscribeSends);
       && v == w.(source := source, up := w.up + requests, down := w.down[1..],
                  missed := if Triggers(shape, w.down[0]) then
                              (w.missed + Below(shape.props)) - (w.source.inflight + sendable)
                              + (w.missed * w.source.inflight)
                            else w.missed,
                  refused := w.refused || w.down[0] in {MatchAck(false), SubscribeAck(false)}
                             || (shape.subscribes && w.down[0] == MatchAck(true) && requests == []))
  }

  /** The bus and the peer answer the next request; they may refuse or fail. */
  ghost predicate Served(w: World, grants: bool, v: World) {
    && w.up != []
    && var rest := w.(up := w.up[1..]);
       match w.up[0]
       case Match => v == rest.(forwarding := w.forwarding || grants, down := w.down + [MatchAck(grants)])
       case Subscribe => v == rest.(subscribed := w.subscribed || grants, down := w.down + [SubscribeAck(grants)])
       case Get(p) =>
         v == rest.(down := w.down + [Reply(p, if grants && p in w.peer then Some(w.peer[p]) else None)])
  }

  ghost predicate Step(shape: Shape, w: World, action: Action, v: World) {
    match action
    case Open =>
      !w.source.connected &&
      v == World(w.source.(connected := true), false, false, w.peer, [Match], [], {}, false)
    case Close =>
      v == World(ClosedSource(w.source), false, false, w.peer, [], [], {}, false)
    case Receive(sendable, subscribeSends) => w.source.connected && Received(shape, w, sendable, subscribeSends, v)
    case Serve(grants) => w.source.connected && Served(w, grants, v)
    case Change(p, value, signalled) =>
      // Once subscribed, the peer signals after each change; before, it may.
      && (Live(shape, w) ==> signalled) && (signalled ==> w.forwarding)
      && v == w.(peer := w.peer[p := value], down := if signalled then w.down + [Signal] else w.down)
    case Spontaneous => w.forwarding && v == w.(down := w.down + [Signal])
  }

  ghost predicate Init(w: World) {
    && w.source == Source(false, false, {}, {}, w.source.cache) && !w.forwarding && !w.subscribed
    && w.up == [] && w.down == [] && w.missed == {} && !w.refused
  }

  /** Executions: each world follows from the one before by some action. */
  ghost predicate Run(shape: Shape, run: seq<World>) {
    && run != []
    && if |run| == 1 then Init(run[0])
       else Run(shape, run[..|run| - 1]) && Next(shape, run[|run| - 2], run[|run| - 1])
  }

  ghost predicate Next(shape: Shape, w: World, v: World) {
    exists action :: Step(shape, w, action, v)
  }

  // ---- Invariants ----

  ghost function Asked(up: seq<Request>, p: nat): nat {
    if up == [] then 0 else (if up[0] == Get(p) then 1 else 0) + Asked(up[1..], p)
  }

  ghost function Answers(down: seq<Message>, p: nat): nat {
    if down == [] then 0 else (if down[0].Reply? && down[0].prop == p then 1 else 0) + Answers(down[1..], p)
  }

  /** A message that triggers a new request comes after every reply for the property. */
  ghost predicate Owed(shape: Shape, down: seq<Message>, p: nat) {
    down != [] &&
    var last := down[|down| - 1];
    Triggers(shape, last) || (!(last.Reply? && last.prop == p) && Owed(shape, down[..|down| - 1], p))
  }

  /** The value the source will hold once it has handled the replies on their way; None if it holds none. */
  ghost function Final(down: seq<Message>, p: nat, held: Option<Value>): Option<Value> {
    if down == [] then held
    else Final(down[1..], p, if down[0].Reply? && down[0].prop == p then down[0].value else held)
  }

  ghost function Held(source: Source, p: nat): Option<Value> {
    if p in source.valid && p in source.cache then Some(source.cache[p]) else None
  }

  ghost predicate CountsAgree(w: World, p: nat) {
    Asked(w.up, p) + Answers(w.down, p) == if p in w.source.inflight then 1 else 0
  }

  /** While changes are signalled, a property is up to date, or a request for it is pending or owed. */
  ghost predicate Covered(shape: Shape, w: World, p: nat) {
    Live(shape, w) && p < shape.props && p !in w.missed ==>
      || Asked(w.up, p) > 0 || Owed(shape, w.down, p)
      || Final(w.down, p, Held(w.source, p)) == None
      || (p in w.peer && Final(w.down, p, Held(w.source, p)) == Some(w.peer[p]))
  }

  /** The match comes first; until changes are signalled or the setup is refused, the setup is under way. */
  ghost predicate SetUp(shape: Shape, w: World) {
    && (w.subscribed || Subscribe in w.up || MatchAck(true) in w.down ==> w.forwarding)
    && (w.source.connected && !w.refused && !Live(shape, w) ==>
          || Match in w.up || MatchAck(true) in w.down || Subscribe in w.up
          || MatchAck(false) in w.down || SubscribeAck(false) in w.down)
    && (!w.source.connected ==> w.up == [] && w.down == [] && w.source.inflight == {} && w.source.valid == {}
                                && !w.forwarding && !w.subscribed)
    && (forall p | p in w.source.valid :: p in w.source.cache)
    && (w.source.subscribing ==> Subscribe in w.up || SubscribeAck(true) in w.down || SubscribeAck(false) in w.down)
  }

  ghost predicate Inv(shape: Shape, w: World) {
    SetUp(shape, w) && forall p :: CountsAgree(w, p) && Covered(shape, w, p)
  }

  // ---- Queues ----

  lemma {:induction false} AskedMore(up: seq<Request>, more: seq<Request>, p: nat)
    ensures Asked(up + more, p) == Asked(up, p) + Asked(more, p)
  {
    if up == [] {
      assert up + more == more;
    } else {
      assert (up + more)[1..] == up[1..] + more;
      AskedMore(up[1..], more, p);
    }
  }

  lemma {:induction false} AnswersMore(down: seq<Message>, message: Message, p: nat)
    ensures Answers(down + [message], p) == Answers(down, p) + if message.Reply? && message.prop == p then 1 else 0
  {
    if down != [] {
      assert (down + [message])[1..] == down[1..] + [message];
      AnswersMore(down[1..], message, p);
    }
  }

  lemma {:induction false} FinalMore(down: seq<Message>, message: Message, p: nat, held: Option<Value>)
    ensures Final(down + [message], p, held) ==
            if message.Reply? && message.prop == p then message.value else Final(down, p, held)
  {
    if down != [] {
      assert (down + [message])[1..] == down[1..] + [message];
      FinalMore(down[1..], message, p, if down[0].Reply? && down[0].prop == p then down[0].value else held);
    }
  }

  lemma {:induction false} OwedMore(shape: Shape, down: seq<Message>, message: Message, p: nat)
    ensures Owed(shape, down + [message], p) <==>
            Triggers(shape, message) || (!(message.Reply? && message.prop == p) && Owed(shape, down, p))
  {
    assert (down + [message])[..|down|] == down;
  }

  /** Handling the first message uses up an owed request only when that message is the trigger. */
  lemma {:induction false} OwedTail(shape: Shape, down: seq<Message>, p: nat)
    requires Owed(shape, down, p)
    ensures Owed(shape, down[1..], p) || (Triggers(shape, down[0]) && Answers(down[1..], p) == 0)
  {
    var last := down[|down| - 1];
    if |down| > 1 {
      var init := down[..|down| - 1];
      assert down[1..][..|down| - 2] == init[1..];
      if !Triggers(shape, last) {
        OwedTail(shape, init, p);
        assert down[1..] == init[1..] + [last];
        AnswersMore(init[1..], last, p);
      }
    }
  }

  lemma {:induction false} AskedGets(first: nat, props: nat, inflight: set<nat>, sendable: set<nat>, p: nat)
    ensures Asked(Gets(first, props, inflight, sendable), p) ==
            if first <= p < props && p !in inflight && p in sendable then 1 else 0
    decreases props - first
  {
    if first < props {
      AskedGets(first + 1, props, inflight, sendable, p);
      AskedMore(if first !in inflight && first in sendable then [Get(first)] else [],
                Gets(first + 1, props, inflight, sendable), p);
    }
  }

  lemma {:induction false} GetsOnly(first: nat, props: nat, inflight: set<nat>, sendable: set<nat>)
    ensures forall r | r in Gets(first, props, inflight, sendable) :: r.Get?
    decreases props - first
  {
    if first < props {
      GetsOnly(first + 1, props, inflight, sendable);
    }
  }

  // ---- Each step keeps the invariant ----

  lemma {:induction false} HandleAsks(shape: Shape, w: World, sendable: set<nat>, subscribeSends: bool, v: World,
                                      p: nat)
    requires Received(shape, w, sendable, subscribeSends, v)
    ensures Asked(v.up, p) == Asked(w.up, p) +
              if Triggers(shape, w.down[0]) && p < shape.props && p !in w.source.inflight && p in sendable then 1 else 0
  {
    AskedMore(w.up, Handle(shape, w.source, w.down[0], sendable, subscribeSends).1, p);
    AskedGets(0, shape.props, w.source.inflight, sendable, p);
  }

  lemma {:induction false} HandleCounts(shape: Shape, w: World, sendable: set<nat>, subscribeSends: bool, v: World,
                                        p: nat)
    requires Received(shape, w, sendable, subscribeSends, v) && CountsAgree(w, p)
    ensures CountsAgree(v, p)
  {
    HandleAsks(shape, w, sendable, subscribeSends, v, p);
    assert Answers(w.down, p) ==
           (if w.down[0].Reply? && w.down[0].prop == p then 1 else 0) + Answers(w.down[1..], p);
    assert p in v.source.inflight <==>
           if w.down[0].Reply? then p in w.source.inflight && p != w.down[0].prop
           else p in w.source.inflight || (Triggers(shape, w.down[0]) && p < shape.props && p in sendable);
  }

  lemma {:induction false} FinalOrNone(down: seq<Message>, p: nat, held: Option<Value>)
    ensures Final(down, p, None) == None || Final(down, p, None) == Final(down, p, held)
  {
    if down != [] {
      FinalOrNone(down[1..], p, held);
    }
  }

  lemma {:induction false} HandleFinal(shape: Shape, w: World, sendable: set<nat>, subscribeSends: bool, v: World,
                                       p: nat)
    requires Received(shape, w, sendable, subscribeSends, v)
    ensures var f := Final(v.down, p, Held(v.source, p)); f == None || f == Final(w.down, p, Held(w.source, p))
  {
    FinalOrNone(v.down, p, Held(w.source, p));
  }

  lemma {:induction false} HandleCovers(shape: Shape, w: World, sendable: set<nat>, subscribeSends: bool, v: World,
                                        p: nat)
    requires Received(shape, w, sendable, subscribeSends, v) && CountsAgree(w, p) && Covered(shape, w, p)
    ensures CountsAgree(v, p) && Covered(shape, v, p)
  {
    HandleCounts(shape, w, sendable, subscribeSends, v, p);
    HandleAsks(shape, w, sendable, subscribeSends, v, p);
    HandleFinal(shape, w, sendable, subscribeSends, v, p);
    if Owed(shape, w.down, p) {
      OwedTail(shape, w.down, p);
    }
  }

  lemma {:induction false} HandleSetUp(shape: Shape, w: World, sendable: set<nat>, subscribeSends: bool, v: World)
    requires Received(shape, w, sendable, subscribeSends, v) && SetUp(shape, w) && w.source.connected
    ensures SetUp(shape, v)
  {
    GetsOnly(0, shape.props, w.source.inflight, sendable);
    assert w.down == [w.down[0]] + w.down[1..];
  }

  lemma {:induction false} ServeKeeps(shape: Shape, w: World, grants: bool, v: World, p: nat)
    requires Served(w, grants, v) && CountsAgree(w, p) && Covered(shape, w, p) && SetUp(shape, w)
    ensures CountsAgree(v, p) && Covered(shape, v, p)
  {
    hide Asked, Answers, Final, Owed, Held;
    var message := v.down[|v.down| - 1];
    AskedFirst(w.up, p);
    AnswersMore(w.down, message, p);
    FinalMore(w.down, message, p, Held(w.source, p));
    OwedMore(shape, w.down, message, p);
  }

  lemma {:induction false} AskedFirst(up: seq<Request>, p: nat)
    requires up != []
    ensures Asked(up, p) == (if up[0] == Get(p) then 1 else 0) + Asked(up[1..], p)
  {
  }

  lemma {:induction false} ServeSetUp(shape: Shape, w: World, grants: bool, v: World)
    requires Served(w, grants, v) && SetUp(shape, w) && w.source.connected
    ensures SetUp(shape, v)
  {
    assert w.up == [w.up[0]] + w.up[1..];
  }

  lemma {:induction false} SignalKeeps(shape: Shape, w: World, v: World, p: nat)
    requires v == w.(peer := v.peer, down := w.down + [Signal])
    requires CountsAgree(w, p)
    ensures CountsAgree(v, p) && Covered(shape, v, p)
  {
    AnswersMore(w.down, Signal, p);
    OwedMore(shape, w.down, Signal, p);
  }

  lemma {:induction false} StepKeepsInv(shape: Shape, w: World, action: Action, v: World)
    requires Inv(shape, w) && Step(shape, w, action, v)
    ensures Inv(shape, v)
  {
    hide CountsAgree, Covered, SetUp, Received, Served;
    match action
    case Receive(sendable, subscribeSends) =>
      HandleSetUp(shape, w, sendable, subscribeSends, v);
      forall p
        ensures CountsAgree(v, p) && Covered(shape, v, p)
      {
        assert CountsAgree(w, p);
        HandleCovers(shape, w, sendable, subscribeSends, v, p);
      }
    case Serve(grants) =>
      ServeSetUp(shape, w, grants, v);
      forall p
        ensures CountsAgree(v, p) && Covered(shape, v, p)
      {
        assert CountsAgree(w, p);
        ServeKeeps(shape, w, grants, v, p);
      }
    case _ => OtherStepKeepsInv(shape, w, action, v);
  }

  lemma {:induction false} OtherStepKeepsInv(shape: Shape, w: World, action: Action, v: World)
    requires Inv(shape, w) && Step(shape, w, action, v) && !action.Receive? && !action.Serve?
    ensures Inv(shape, v)
  {
    forall p
      ensures CountsAgree(v, p) && Covered(shape, v, p)
    {
      assert CountsAgree(w, p) && Covered(shape, w, p);
      if v.down == w.down + [Signal] {
        SignalKeeps(shape, w, v, p);
      }
    }
  }

  lemma {:induction false} NextKeepsInv(shape: Shape, w: World, v: World)
    requires Inv(shape, w) && Next(shape, w, v)
    ensures Inv(shape, v)
  {
    var action :| Step(shape, w, action, v);
    StepKeepsInv(shape, w, action, v);
  }

  lemma {:induction false} RunKeepsInv(shape: Shape, run: seq<World>)
    requires Run(shape, run)
    ensures Inv(shape, run[|run| - 1])
  {
    if |run| > 1 {
      RunKeepsInv(shape, run[..|run| - 1]);
      NextKeepsInv(shape, run[|run| - 2], run[|run| - 1]);
    }
  }

  /**
   Although signals are dropped while a query is under way: once the queues are empty on a connection
   whose setup was not refused, every valid cached property whose last request could be sent equals
   the peer's, and nothing is in flight.
   */
  lemma {:induction false} QuiescentMirror(shape: Shape, run: seq<World>, p: nat)
    requires Run(shape, run) && p < shape.props
    requires var w := run[|run| - 1]; w.source.connected && w.up == [] && w.down == [] && !w.refused
    ensures var w := run[|run| - 1];
            && p !in w.source.inflight && Live(shape, w)
            && (p in w.source.valid && p !in w.missed ==>
                  p in w.source.cache && p in w.peer && w.source.cache[p] == w.peer[p])
  {
    RunKeepsInv(shape, run);
    var w := run[|run| - 1];
    assert CountsAgree(w, p) && Covered(shape, w, p);
  }

  // ---- What the assumptions are needed for ----

  lemma {:induction false} Extend(shape: Shape, run: seq<World>, action: Action, v: World)
    requires Run(shape, run) && Step(shape, run[|run| - 1], action, v)
    ensures Run(shape, run + [v])
  {
    assert (run + [v])[..|run|] == run;
    assert Next(shape, run[|run| - 1], v);
  }

  /** A connection set up without Subscribe, one property cached, and the queues empty. */
  function Mirrored(was: Value): World {
    World(Source(true, false, {}, {0}, map[0 := was]), true, false, map[0 := was], [], [], {}, false)
  }

  lemma {:induction false} ReachMatched(was: Value) returns (run: seq<World>)
    ensures Run(Shape(1, false), run)
    ensures run[|run| - 1] ==
            World(Source(true, false, {}, {}, map[]), true, false, map[0 := was], [], [MatchAck(true)], {}, false)
  {
    var shape := Shape(1, false);
    var w := World(Source(false, false, {}, {}, map[]), false, false, map[0 := was], [], [], {}, false);
    run := [w];
    w := World(w.source.(connected := true), false, false, w.peer, [Match], [], {}, false);
    Extend(shape, run, Open, w);
    run := run + [w];
    w := w.(forwarding := true, up := [], down := [MatchAck(true)]);
    Extend(shape, run, Serve(true), w);
    run := run + [w];
  }

  lemma {:induction false} ReachMirrored(was: Value) returns (run: seq<World>)
    ensures Run(Shape(1, false), run) && run[|run| - 1] == Mirrored(was)
  {
    hide Run;
    var shape := Shape(1, false);
    run := ReachMatched(was);
    var w := run[|run| - 1];
    w := w.(source := w.source.(inflight := {0}), up := [Get(0)], down := []);
    assert Gets(0, 1, {}, {0}) == [Get(0)] && {0} * Below(1) == {0};
    Extend(shape, run, Receive({0}, true), w);
    run := run + [w];
    w := w.(up := [], down := [Reply(0, Some(was))]);
    Extend(shape, run, Serve(true), w);
    run := run + [w];
    w := Mirrored(was);
    Extend(shape, run, Receive({}, true), w);
    run := run + [w];
  }

  /** When a snapshot request cannot be sent, the cache stays stale although everything is quiet. */
  lemma {:induction false} FailedSendGoesStale(was: Value, now: Value) returns (run: seq<World>)
    requires was != now
    ensures Run(Shape(1, false), run)
    ensures var w := run[|run| - 1];
            && w.source.connected && w.up == [] && w.down == [] && !w.refused && w.missed == {0}
            && 0 in w.source.valid && w.source.cache == map[0 := was] && w.peer == map[0 := now]
  {
    var shape := Shape(1, false);
    run := ReachMirrored(was);
    var w := Mirrored(was).(peer := map[0 := now], down := [Signal]);
    Extend(shape, run, Change(0, now, true), w);
    run := run + [w];
    w := w.(down := [], missed := {0});
    assert Gets(0, 1, {}, {}) == [] && Below(1) == {0};
    Extend(shape, run, Receive({}, true), w);
    run := run + [w];
  }

  // ---- The two sources ----

  /** The manager of failed units: one property, signalled to subscribers. */
  class SystemdBus {
    var open: bool
    var queryInflight: bool
    var subscribeInflight: bool
    var countValid: bool
    var failedCount: int

    ghost function State(): Source
      reads this
    {
      Source(open, subscribeInflight, if queryInflight then {0} else {}, if countValid then {0} else {},
             map[0 := Count(failedCount)])
    }

    constructor ()
      ensures State() == Source(false, false, {}, {}, map[0 := Count(0)])
    {
      open, queryInflight, subscribeInflight, countValid, failedCount := false, false, false, false, 0;
    }

    method OpenBus(matchSends: bool) returns (sent: seq<Request>)
      requires State() == ClosedSource(State())
      modifies this
      ensures State() == old(State()).(connected := matchSends) && sent == if matchSends then [Match] else []
    {
      open := true;
      if !matchSends {
        Close();
        return [];
      }
      return [Match];
    }

    method Close()
      modifies this
      ensures State() == ClosedSource(old(State()))
    {
      open, countValid, queryInflight, subscribeInflight := false, false, false, false;
    }

    /** Subscribers are notified exactly when the count they would read changes. */
    method SnapshotReply(value: Option<int>) returns (notified: bool)
      modifies this
      ensures State() == Replied(old(State()), 0, if value.Some? then Some(Count(value.value)) else None)
      ensures notified <==> Held(State(), 0).Some? && Held(State(), 0) != Held(old(State()), 0)
    {
      queryInflight := false;
      if value.None? {
        countValid := false;
        return false;
      }
      notified := !countValid || failedCount != value.value;
      failedCount, countValid := value.value, true;
    }

    method RequestSnapshot(sends: bool) returns (sent: seq<Request>)
      requires open
      modifies this`queryInflight
      ensures (State(), sent) == Refresh(Shape(1, true), old(State()), if sends then {0} else {})
    {
      OneGet(queryInflight, sends);
      if queryInflight {
        return [];
      }
      if sends {
        queryInflight := true;
        return [Get(0)];
      }
      return [];
    }

    method PropertyChanged(sends: bool) returns (sent: seq<Request>)
      requires open
      modifies this`queryInflight
      ensures (State(), sent) == Handle(Shape(1, true), old(State()), Signal, if sends then {0} else {}, true)
    {
      sent := RequestSnapshot(sends);
    }

    /** An error other than "already subscribed" counts as a refusal. */
    method SubscribeReply(failed: bool, alreadySubscribed: bool, sends: bool) returns (sent: seq<Request>)
      requires open
      modifies this
      ensures (State(), sent) == Handle(Shape(1, true), old(State()), SubscribeAck(!failed || alreadySubscribed),
                                        if sends then {0} else {}, true)
    {
      subscribeInflight := false;
      if failed && !alreadySubscribed {
        countValid := false;
        return [];
      }
      sent := RequestSnapshot(sends);
    }

    method MatchInstalled(ok: bool, subscribeSends: bool) returns (sent: seq<Request>)
      requires open
      modifies this`subscribeInflight
      ensures (State(), sent) == Handle(Shape(1, true), old(State()), MatchAck(ok), {}, subscribeSends)
    {
      if ok && !subscribeInflight && subscribeSends {
        subscribeInflight := true;
        return [Subscribe];
      }
      return [];
    }
  }

  lemma {:induction false} OneGet(inflight: bool, sends: bool)
    ensures var busy, able := if inflight then {0 as nat} else {}, if sends then {0 as nat} else {};
            && Gets(0, 1, busy, able) == (if sends && !inflight then [Get(0)] else [])
            && busy + able * Below(1) == if inflight || sends then {0} else {}
  {
  }

  const PROFILE_LIMIT := 16
  const PROFILE_NAME_LIMIT := 63

  /** The profile names kept from a reply: the first ones that are neither empty nor too long. */
  function KeptProfiles(names: seq<Bytes>): (kept: seq<Bytes>)
    ensures |kept| <= PROFILE_LIMIT
  {
    if names == [] then []
    else
      var last := names[|names| - 1];
      var before := KeptProfiles(names[..|names| - 1]);
      if 0 < |last| <= PROFILE_NAME_LIMIT && |before| < PROFILE_LIMIT then before + [last] else before
  }

  /** The power profiles service: two properties, each with a query of its own. */
  class PowerProfiles {
    var open: bool
    var activeInflight: bool
    var profilesInflight: bool
    var activeValid: bool
    var profilesValid: bool
    var active: Bytes
    var profiles: seq<Bytes>

    ghost function State(): Source
      reads this
    {
      Source(open, false,
             (if activeInflight then {0} else {}) + (if profilesInflight then {1} else {}),
             (if activeValid then {0} else {}) + (if profilesValid then {1} else {}),
             map[0 := Profile(active), 1 := Profiles(profiles)])
    }

    constructor ()
      ensures State() == Source(false, false, {}, {}, map[0 := Profile([]), 1 := Profiles([])])
    {
      open, activeInflight, profilesInflight, activeValid, profilesValid := false, false, false, false, false;
      active, profiles := [], [];
    }

    method Close()
      modifies this
      ensures State() == ClosedSource(old(State()))
    {
      open, activeValid, profilesValid, activeInflight, profilesInflight := false, false, false, false, false;
    }

    method ActiveReply(name: Option<Bytes>) returns (changed: bool)
      modifies this
      ensures State() == Replied(old(State()), 0, if name.Some? && |name.value| <= PROFILE_NAME_LIMIT
                                                  then Some(Profile(name.value)) else None)
      ensures changed <==> Held(State(), 0).Some? && Held(State(), 0) != Held(old(State()), 0)
    {
      activeInflight := false;
      if name.None? || |name.value| > PROFILE_NAME_LIMIT {
        activeValid := false;
        return false;
      }
      changed := !activeValid || active != name.value;
      active, activeValid := name.value, true;
    }

    method ListReply(names: Option<seq<Bytes>>) returns (changed: bool)
      modifies this
      ensures State() == Replied(old(State()), 1, if names.Some? && KeptProfiles(names.value) != []
                                                  then Some(Profiles(KeptProfiles(names.value))) else None)
      ensures changed <==> Held(State(), 1).Some? && Held(State(), 1) != Held(old(State()), 1)
    {
      profilesInflight := false;
      var parsed := [];
      if names.Some? {
        for i := 0 to |names.value|
          invariant parsed == KeptProfiles(names.value[..i])
        {
          assert names.value[..i + 1][..i] == names.value[..i];
          if 0 < |names.value[i]| <= PROFILE_NAME_LIMIT && |parsed| < PROFILE_LIMIT {
            parsed := parsed + [names.value[i]];
          }
        }
        assert names.value[..|names.value|] == names.value;
      }
      if names.None? || |parsed| == 0 {
        profilesValid := false;
        return false;
      }
      changed := !profilesValid || profiles != parsed;
      profiles, profilesValid := parsed, true;
    }

    method RequestSnapshots(activeSends: bool, profilesSends: bool) returns (sent: seq<Request>)
      requires open
      modifies this`activeInflight, this`profilesInflight
      ensures (State(), sent) == Refresh(Shape(2, false), old(State()),
                                         (if activeSends then {0} else {}) + (if profilesSends then {1} else {}))
    {
      TwoGets(activeInflight, profilesInflight, activeSends, profilesSends);
      ghost var asked := Refresh(Shape(2, false), State(),
                                 (if activeSends then {0} else {}) + (if profilesSends then {1} else {}));
      sent := [];
      if !activeInflight {
        if activeSends {
          sent := sent + [Get(0)];
        }
        activeInflight := activeSends;
      }
      if !profilesInflight {
        if profilesSends {
          sent := sent + [Get(1)];
        }
        profilesInflight := profilesSends;
      }
      assert State().inflight == asked.0.inflight;
      assert sent == asked.1;
    }

    /** A change signal and the acknowledged match both ask for both properties. */
    method Triggered(message: Message, activeSends: bool, profilesSends: bool) returns (sent: seq<Request>)
      requires open && (message == Signal || message.MatchAck?)
      modifies this`activeInflight, this`profilesInflight
      ensures (State(), sent) == Handle(Shape(2, false), old(State()), message,
                                        (if activeSends then {0} else {}) + (if profilesSends then {1} else {}), true)
    {
      if message == MatchAck(false) {
        return [];
      }
      sent := RequestSnapshots(activeSends, profilesSends);
    }
  }

  lemma {:induction false} TwoGets(first: bool, second: bool, firstSends: bool, secondSends: bool)
    ensures var busy := (if first then {0 as nat} else {}) + (if second then {1 as nat} else {});
            var able := (if firstSends then {0 as nat} else {}) + (if secondSends then {1 as nat} else {});
            && Gets(0, 2, busy, able) ==
               (if firstSends && !first then [Get(0)] else []) + (if secondSends && !second then [Get(1)] else [])
            && busy + able * Below(2) ==
               (if first || firstSends then {0} else {}) + (if second || secondSends then {1} else {})
  {
    var busy := (if first then {0 as nat} else {}) + (if second then {1 as nat} else {});
    var able := (if firstSends then {0 as nat} else {}) + (if secondSends then {1 as nat} else {});
    assert Below(2) == {0, 1};
    assert Gets(1, 2, busy, able) == if secondSends && !second then [Get(1)] else [];
  }
}
