/** Framing click events out of an endless JSON array, byte by byte, however the bytes arrive. */
module Clicks {
  import opened Bytes
  import opened Items

  const MAX_BYTES: nat := 65536
  const MAX_DEPTH: nat := 32
  // The depth is an unsigned 32-bit counter.
  const DEPTH_END: nat := 0x1_0000_0000

  const QUOTE: byte := 34
  const COMMA: byte := 44
  const OPEN_ARRAY: byte := 91
  const BACKSLASH: byte := 92
  const CLOSE_ARRAY: byte := 93
  const OPEN_OBJECT: byte := 123
  const CLOSE_OBJECT: byte := 125

  predicate Opens(b: byte) { b == OPEN_OBJECT || b == OPEN_ARRAY }

  predicate Closes(b: byte) { b == CLOSE_OBJECT || b == CLOSE_ARRAY }

  datatype Result = Event(text: Bytes) | Dropped

  datatype Framer = Framer(event: Bytes, depth: nat, outerSeen: bool, inEvent: bool, inString: bool,
                           escaped: bool, discarding: bool, irrecoverable: bool)

  const START := Framer([], 0, false, false, false, false, false, false)

  // ---- One byte ----

  /** Entering an event, and storing the byte while it fits. */
  function Stored(f: Framer, b: byte): Framer {
    var entered := if f.inEvent then f else f.(event := [], inEvent := true, depth := 1);
    if entered.discarding then entered
    else if |entered.event| < MAX_BYTES then entered.(event := entered.event + [b])
    else entered.(discarding := true)
  }

  function InText(f: Framer, b: byte): Framer {
    if f.escaped then f.(escaped := false)
    else if b == BACKSLASH then f.(escaped := true)
    else if b == QUOTE then f.(inString := false)
    else f
  }

  function Opened(f: Framer, b: byte): Framer {
    var deeper := if b != OPEN_OBJECT || f.depth != 1 || |f.event| != 1 then f.(depth := (f.depth + 1) % DEPTH_END)
      else f;
    if deeper.depth > MAX_DEPTH then deeper.(discarding := true) else deeper
  }

  function Closed(f: Framer): (Framer, Option<Result>) {
    if f.depth == 0 then (f.(irrecoverable := true), None)
    else if f.depth > 1 then (f.(depth := f.depth - 1), None)
    else if f.discarding then (Framer([], 0, f.outerSeen, false, false, false, false, f.irrecoverable), Some(Dropped))
    else (f.(depth := 0, inEvent := false), Some(Event(f.event)))
  }

  function Structural(f: Framer, b: byte): (Framer, Option<Result>) {
    if f.inString then (InText(f, b), None)
    else if b == QUOTE then (f.(inString := true), None)
    else if Opens(b) then (Opened(f, b), None)
    else if Closes(b) then Closed(f)
    else (f, None)
  }

  function Step(f: Framer, b: byte): (Framer, Option<Result>) {
    if !f.outerSeen then
      if IsSpace(b) then (f, None)
      else if b == OPEN_ARRAY then (f.(outerSeen := true), None)
      else (f.(irrecoverable := true), None)
    else if !f.inEvent && (IsSpace(b) || b == COMMA || b == CLOSE_ARRAY) then (f, None)
    else if !f.inEvent && b != OPEN_OBJECT then (f.(irrecoverable := true), None)
    else Structural(Stored(f, b), b)
  }

  function AsSeq(result: Option<Result>): seq<Result> {
    if result.Some? then [result.value] else []
  }

  /** The state after every byte in turn, until the stream is found broken. */
  function After(f: Framer, bytes: Bytes): Framer
    decreases |bytes|
  {
    if bytes == [] || f.irrecoverable then f else After(Step(f, bytes[0]).0, bytes[1..])
  }

  /** The results along the way. */
  function Emitted(f: Framer, bytes: Bytes): seq<Result>
    decreases |bytes|
  {
    if bytes == [] || f.irrecoverable then []
    else AsSeq(Step(f, bytes[0]).1) + Emitted(Step(f, bytes[0]).0, bytes[1..])
  }

  lemma {:induction false} RunAppend(f: Framer, a: Bytes, b: Bytes)
    ensures After(f, a + b) == After(After(f, a), b)
    ensures Emitted(f, a + b) == Emitted(f, a) + Emitted(After(f, a), b)
    decreases |a|
  {
    hide Step;
    if a == [] {
      assert a + b == b;
    } else if !f.irrecoverable {
      assert (a + b)[1..] == a[1..] + b;
      RunAppend(Step(f, a[0]).0, a[1..], b);
    }
  }

  lemma {:induction false} RunOne(f: Framer, b: byte)
    requires !f.irrecoverable
    ensures After(f, [b]) == Step(f, b).0 && Emitted(f, [b]) == AsSeq(Step(f, b).1)
  {
    hide Step;
  }

  lemma {:induction false} EmptyRun(f: Framer)
    ensures After(f, []) == f && Emitted(f, []) == []
  {
  }

  // ---- The framer ----

  datatype FeedResult = Nothing | Framed(result: Result) | FatalFraming

  class ClickFramer {
    var state: Framer

    constructor ()
      ensures state == START
    {
      state := START;
    }

    /** Consumes bytes up to the next result. */
    method Feed(data: Bytes) returns (result: FeedResult, consumed: nat)
      modifies this
      ensures consumed <= |data|
      ensures old(state).irrecoverable ==> state == old(state) && result == FatalFraming && consumed == |data|
      ensures !old(state).irrecoverable ==>
        && After(old(state), data[..consumed]) == state
        && Emitted(old(state), data[..consumed]) == (if result.Framed? then [result.result] else [])
        && (result == FatalFraming <==> state.irrecoverable)
        && (result == Nothing ==> consumed == |data|) && (data != [] ==> consumed > 0)
    {
      hide IsSpace, Opened;
      if state.irrecoverable {
        return FatalFraming, |data|;
      }
      consumed := 0;
      while consumed < |data|
        invariant consumed <= |data| && !state.irrecoverable
        invariant After(old(state), data[..consumed]) == state && Emitted(old(state), data[..consumed]) == []
      {
        var (next, out) := Step(state, data[consumed]);
        RunOne(state, data[consumed]);
        RunAppend(old(state), data[..consumed], [data[consumed]]);
        assert data[..consumed + 1] == data[..consumed] + [data[consumed]];
        state, consumed := next, consumed + 1;
        if state.irrecoverable {
          return FatalFraming, consumed;
        }
        if out.Some? {
          return Framed(out.value), consumed;
        }
      }
      return Nothing, consumed;
    }

    /** Handling one read: the results dispatched, and the state left for the next read. */
    method ReadChunk(data: Bytes) returns (results: seq<Result>)
      modifies this
      ensures state == After(old(state), data) && results == Emitted(old(state), data)
    {
      results := [];
      var offset: nat := 0;
      while offset < |data| && !state.irrecoverable
        invariant offset <= |data|
        invariant After(old(state), data[..offset]) == state && Emitted(old(state), data[..offset]) == results
      {
        ghost var before := state;
        var result, consumed := Feed(data[offset..]);
        RunAppend(old(state), data[..offset], data[offset..][..consumed]);
        Splice(data, offset, consumed);
        offset := offset + consumed;
        if result.Framed? {
          results := results + [result.result];
        }
      }
      RunAppend(old(state), data[..offset], data[offset..]);
      Splice(data, offset, |data| - offset);
      assert data[offset..][..|data| - offset] == data[offset..] && data[..|data|] == data;
    }
  }

  lemma {:induction false} Splice(data: Bytes, from: nat, count: nat)
    requires from + count <= |data|
    ensures data[..from + count] == data[..from] + data[from..][..count]
  {
  }

  ghost function Concat(chunks: seq<Bytes>): Bytes {
    if chunks == [] then [] else chunks[0] + Concat(chunks[1..])
  }

  /** Reading chunk by chunk. */
  ghost function AfterChunks(f: Framer, chunks: seq<Bytes>): Framer
    decreases |chunks|
  {
    if chunks == [] then f else AfterChunks(After(f, chunks[0]), chunks[1..])
  }

  ghost function EmittedChunks(f: Framer, chunks: seq<Bytes>): seq<Result>
    decreases |chunks|
  {
    if chunks == [] then [] else Emitted(f, chunks[0]) + EmittedChunks(After(f, chunks[0]), chunks[1..])
  }

  /** How the stream is cut into reads makes no difference. */
  lemma {:induction false} ChunksDoNotMatter(f: Framer, chunks: seq<Bytes>)
    ensures AfterChunks(f, chunks) == After(f, Concat(chunks))
    ensures EmittedChunks(f, chunks) == Emitted(f, Concat(chunks))
    decreases |chunks|
  {
    if chunks == [] {
      EmptyRun(f);
    } else {
      RunAppend(f, chunks[0], Concat(chunks[1..]));
      ChunksDoNotMatter(After(f, chunks[0]), chunks[1..]);
    }
  }

  // ---- Printed objects ----

  datatype Char = Bare(b: byte) | Escape(b: byte)

  predicate GoodChar(c: Char) {
    c.Bare? ==> c.b != QUOTE && c.b != BACKSLASH
  }

  function PrintChar(c: Char): Bytes {
    if c.Bare? then [c.b] else [BACKSLASH, c.b]
  }

  function PrintChars(chars: seq<Char>): Bytes {
    if chars == [] then []
    else PrintChar(chars[0]) + PrintChars(chars[1..])
  }

  /** The inside of an object: plain bytes, strings, and groups whose brackets need not be of one kind. */
  datatype Tree =
    | End
    | Plain(b: byte, rest: Tree)
    | Text(chars: seq<Char>, rest: Tree)
    | Group(open: byte, inner: Tree, close: byte, rest: Tree)

  predicate Balanced(t: Tree) {
    match t
    case End => true
    case Plain(b, rest) => b != QUOTE && !Opens(b) && !Closes(b) && Balanced(rest)
    case Text(chars, rest) => (forall c | c in chars :: GoodChar(c)) && Balanced(rest)
    case Group(open, inner, close, rest) => Opens(open) && Closes(close) && Balanced(inner) && Balanced(rest)
  }

  function Print(t: Tree): Bytes {
    match t
    case End => []
    case Plain(b, rest) => [b] + Print(rest)
    case Text(chars, rest) => [QUOTE] + PrintChars(chars) + [QUOTE] + Print(rest)
    case Group(open, inner, close, rest) => [open] + Print(inner) + [close] + Print(rest)
  }

  function Depth(t: Tree): nat {
    match t
    case End => 0
    case Plain(_, rest) => Depth(rest)
    case Text(_, rest) => Depth(rest)
    case Group(_, inner, _, rest) => if 1 + Depth(inner) > Depth(rest) then 1 + Depth(inner) else Depth(rest)
  }

  /** Inside an event, at some depth, with the event's bytes so far. */
  ghost predicate Inside(f: Framer, depth: nat, text: Bytes, inString: bool) {
    && f.outerSeen && f.inEvent && !f.irrecoverable && !f.escaped && f.inString == inString && f.depth == depth
    && 1 <= depth < DEPTH_END && text != []
    && (depth > MAX_DEPTH ==> f.discarding) && (f.discarding ==> |f.event| >= 2)
    && (!f.discarding ==> f.event == text && |text| <= MAX_BYTES)
  }

  /** Whether an event that has reached some length and depth is being discarded. */
  predicate TooBig(size: nat, depth: nat) {
    size > MAX_BYTES || depth > MAX_DEPTH
  }

  lemma {:induction false} InsideStored(f: Framer, depth: nat, text: Bytes, inString: bool, b: byte)
    requires Inside(f, depth, text, inString)
    ensures Inside(Stored(f, b), depth, text + [b], inString)
    ensures |Stored(f, b).event| != 1
    ensures Stored(f, b).discarding == (f.discarding || |text| + 1 > MAX_BYTES)
  {
  }

  /** A stretch of an event emits nothing, and leads to another place inside it. */
  ghost predicate Moves(f: Framer, text: Bytes, bytes: Bytes, g: Framer, depth: nat, inString: bool, deepest: nat) {
    && Emitted(f, bytes) == [] && g == After(f, bytes) && Inside(g, depth, text + bytes, inString)
    && g.discarding == (f.discarding || TooBig(|text| + |bytes|, deepest))
  }

  lemma {:induction false} Associate(a: Bytes, b: Bytes, c: Bytes)
    ensures a + (b + c) == (a + b) + c
  {
  }

  /** One stretch after another. */
  lemma {:induction false} Chain(f: Framer, text: Bytes, a: Bytes, g: Framer, depthA: nat, inA: bool, deepA: nat,
              b: Bytes, h: Framer, depthB: nat, inB: bool, deepB: nat)
    requires Moves(f, text, a, g, depthA, inA, deepA) && Moves(g, text + a, b, h, depthB, inB, deepB)
    ensures Moves(f, text, a + b, h, depthB, inB, if deepA > deepB then deepA else deepB)
  {
    hide Inside, After, Emitted;
    RunAppend(f, a, b);
    Associate(text, a, b);
  }

  lemma {:induction false} MovesInside(f: Framer, text: Bytes, bytes: Bytes, g: Framer, depth: nat, inString: bool,
                                       deepest: nat)
    requires Moves(f, text, bytes, g, depth, inString, deepest)
    ensures Inside(g, depth, text + bytes, inString) && g == After(f, bytes)
  {
  }

  lemma {:induction false} EmptyMoves(f: Framer, depth: nat, text: Bytes, inString: bool)
    requires Inside(f, depth, text, inString)
    ensures Moves(f, text, [], f, depth, inString, depth)
  {
    EmptyRun(f);
    assert text + [] == text;
  }

  lemma {:induction false} BareMoves(f: Framer, depth: nat, text: Bytes, b: byte)
    requires Inside(f, depth, text, true) && b != QUOTE && b != BACKSLASH
    ensures Moves(f, text, [b], After(f, [b]), depth, true, depth)
  {
    hide After, Emitted;
    InsideStored(f, depth, text, true, b);
    RunOne(f, b);
  }

  lemma {:induction false} EscapeMoves(f: Framer, depth: nat, text: Bytes, b: byte)
    requires Inside(f, depth, text, true)
    ensures Moves(f, text, [BACKSLASH, b], After(f, [BACKSLASH, b]), depth, true, depth)
  {
    hide After, Emitted;
    InsideStored(f, depth, text, true, BACKSLASH);
    var g := Step(f, BACKSLASH).0;
    InsideStored(g.(escaped := false), depth, text + [BACKSLASH], true, b);
    RunOne(f, BACKSLASH);
    RunOne(g, b);
    RunAppend(f, [BACKSLASH], [b]);
    assert [BACKSLASH, b] == [BACKSLASH] + [b];
    Associate(text, [BACKSLASH], [b]);
  }

  /** A quote inside an event switches between text and structure. */
  lemma {:induction false} QuoteMoves(f: Framer, depth: nat, text: Bytes, inString: bool)
    requires Inside(f, depth, text, inString)
    ensures Moves(f, text, [QUOTE], After(f, [QUOTE]), depth, !inString, depth)
  {
    hide After, Emitted;
    InsideStored(f, depth, text, inString, QUOTE);
    RunOne(f, QUOTE);
  }

  lemma {:induction false} PlainMoves(f: Framer, depth: nat, text: Bytes, b: byte)
    requires Inside(f, depth, text, false) && b != QUOTE && !Opens(b) && !Closes(b)
    ensures Moves(f, text, [b], After(f, [b]), depth, false, depth)
  {
    hide After, Emitted;
    InsideStored(f, depth, text, false, b);
    RunOne(f, b);
  }

  lemma {:induction false} OpenMoves(f: Framer, depth: nat, text: Bytes, b: byte)
    requires Inside(f, depth, text, false) && Opens(b) && depth + 1 < DEPTH_END
    ensures Moves(f, text, [b], After(f, [b]), depth + 1, false, depth + 1)
  {
    hide After, Emitted;
    InsideStored(f, depth, text, false, b);
    RunOne(f, b);
    assert (depth + 1) % DEPTH_END == depth + 1;
  }

  lemma {:induction false} CloseMoves(f: Framer, depth: nat, text: Bytes, b: byte)
    requires Inside(f, depth, text, false) && Closes(b) && depth > 1
    ensures Moves(f, text, [b], After(f, [b]), depth - 1, false, depth)
  {
    hide After, Emitted;
    InsideStored(f, depth, text, false, b);
    RunOne(f, b);
  }

  lemma {:induction false} CharsMove(f: Framer, depth: nat, text: Bytes, chars: seq<Char>)
    requires Inside(f, depth, text, true) && forall c | c in chars :: GoodChar(c)
    ensures Moves(f, text, PrintChars(chars), After(f, PrintChars(chars)), depth, true, depth)
    decreases |chars|
  {
    hide After, Emitted, Inside, Moves, TooBig;
    if chars == [] {
      EmptyMoves(f, depth, text, true);
      EmptyRun(f);
    } else {
      var head := PrintChar(chars[0]);
      assert GoodChar(chars[0]);
      if chars[0].Bare? {
        BareMoves(f, depth, text, chars[0].b);
      } else {
        EscapeMoves(f, depth, text, chars[0].b);
      }
      var g := After(f, head);
      MovesInside(f, text, head, g, depth, true, depth);
      CharsMove(g, depth, text + head, chars[1..]);
      Chain(f, text, head, g, depth, true, depth,
            PrintChars(chars[1..]), After(g, PrintChars(chars[1..])), depth, true, depth);
      RunAppend(f, head, PrintChars(chars[1..]));
    }
  }

  lemma {:induction false} TextMoves(f: Framer, depth: nat, text: Bytes, chars: seq<Char>)
    requires Inside(f, depth, text, false) && forall c | c in chars :: GoodChar(c)
    ensures var bytes := [QUOTE] + PrintChars(chars) + [QUOTE];
            Moves(f, text, bytes, After(f, bytes), depth, false, depth)
  {
    hide After, Emitted, Inside, Moves, TooBig, PrintChars;
    var body := PrintChars(chars);
    QuoteMoves(f, depth, text, false);
    var g := After(f, [QUOTE]);
    MovesInside(f, text, [QUOTE], g, depth, true, depth);
    CharsMove(g, depth, text + [QUOTE], chars);
    var h := After(g, body);
    Chain(f, text, [QUOTE], g, depth, true, depth, body, h, depth, true, depth);
    MovesInside(f, text, [QUOTE] + body, h, depth, true, depth);
    QuoteMoves(h, depth, text + ([QUOTE] + body), true);
    Chain(f, text, [QUOTE] + body, h, depth, true, depth, [QUOTE], After(h, [QUOTE]), depth, false, depth);
    RunAppend(f, [QUOTE] + body, [QUOTE]);
  }

  /** A bracketed group, its inside given to move at the depth it opens. */
  lemma {:induction false} GroupMoves(f: Framer, depth: nat, text: Bytes, open: byte, inner: Bytes, close: byte,
                                      deepest: nat)
    requires 1 <= depth && depth + 1 <= deepest
    requires Opens(open) && Closes(close)
    requires var g := After(f, [open]);
             && Moves(f, text, [open], g, depth + 1, false, depth + 1)
             && Moves(g, text + [open], inner, After(g, inner), depth + 1, false, deepest)
    ensures var bytes := [open] + inner + [close];
            Moves(f, text, bytes, After(f, bytes), depth, false, deepest)
  {
    hide After, Emitted, Inside, Moves, TooBig;
    var g := After(f, [open]);
    var h := After(g, inner);
    Chain(f, text, [open], g, depth + 1, false, depth + 1, inner, h, depth + 1, false, deepest);
    MovesInside(f, text, [open] + inner, h, depth + 1, false, deepest);
    CloseMoves(h, depth + 1, text + ([open] + inner), close);
    Chain(f, text, [open] + inner, h, depth + 1, false, deepest, [close], After(h, [close]), depth, false, depth + 1);
    RunAppend(f, [open] + inner, [close]);
  }

  /** What follows a stretch that returned to the same depth. */
  lemma {:induction false} ThenMoves(f: Framer, depth: nat, text: Bytes, head: Bytes, deepHead: nat, rest: Bytes,
                                     deepRest: nat)
    requires Moves(f, text, head, After(f, head), depth, false, deepHead)
    requires Moves(After(f, head), text + head, rest, After(After(f, head), rest), depth, false, deepRest)
    ensures Moves(f, text, head + rest, After(f, head + rest), depth, false,
                  if deepHead > deepRest then deepHead else deepRest)
  {
    hide After, Emitted, Inside, Moves, TooBig;
    var g := After(f, head);
    Chain(f, text, head, g, depth, false, deepHead, rest, After(g, rest), depth, false, deepRest);
    RunAppend(f, head, rest);
  }

  /** A balanced stretch leaves the depth as it was and emits nothing. */
  lemma {:induction false} TreeMoves(f: Framer, depth: nat, text: Bytes, t: Tree)
    requires depth >= 1 && Inside(f, depth, text, false) && Balanced(t) && depth + Depth(t) < DEPTH_END
    ensures Moves(f, text, Print(t), After(f, Print(t)), depth, false, depth + Depth(t))
    decreases t, 1
  {
    hide After, Emitted, Inside, Moves, TooBig, PrintChars;
    match t
    case End =>
      EmptyMoves(f, depth, text, false);
      EmptyRun(f);
    case Plain(b, rest) =>
      PlainMoves(f, depth, text, b);
      MovesInside(f, text, [b], After(f, [b]), depth, false, depth);
      TreeMoves(After(f, [b]), depth, text + [b], rest);
      ThenMoves(f, depth, text, [b], depth, Print(rest), depth + Depth(rest));
    case Text(chars, rest) =>
      TextMoves(f, depth, text, chars);
      var head := [QUOTE] + PrintChars(chars) + [QUOTE];
      MovesInside(f, text, head, After(f, head), depth, false, depth);
      TreeMoves(After(f, head), depth, text + head, rest);
      ThenMoves(f, depth, text, head, depth, Print(rest), depth + Depth(rest));
    case Group(_, _, _, _) => GroupTreeMoves(f, depth, text, t);
  }

  lemma {:induction false} GroupShape(t: Tree)
    requires t.Group? && Balanced(t)
    ensures Print(t) == [t.open] + Print(t.inner) + [t.close] + Print(t.rest)
    ensures Opens(t.open) && Closes(t.close) && Balanced(t.inner) && Balanced(t.rest)
    ensures Depth(t) == if 1 + Depth(t.inner) > Depth(t.rest) then 1 + Depth(t.inner) else Depth(t.rest)
  {
  }

  lemma {:induction false} GroupTreeMoves(f: Framer, depth: nat, text: Bytes, t: Tree)
    requires t.Group? && depth >= 1 && Inside(f, depth, text, false) && Balanced(t) && depth + Depth(t) < DEPTH_END
    ensures Moves(f, text, Print(t), After(f, Print(t)), depth, false, depth + Depth(t))
    decreases t, 0
  {
    hide After, Emitted, Inside, Moves, TooBig, Print, Depth, Balanced, Opens, Closes;
    GroupShape(t);
    var g, head := After(f, [t.open]), [t.open] + Print(t.inner) + [t.close];
    OpenMoves(f, depth, text, t.open);
    MovesInside(f, text, [t.open], g, depth + 1, false, depth + 1);
    TreeMoves(g, depth + 1, text + [t.open], t.inner);
    GroupMoves(f, depth, text, t.open, Print(t.inner), t.close, depth + 1 + Depth(t.inner));
    MovesInside(f, text, head, After(f, head), depth, false, depth + 1 + Depth(t.inner));
    TreeMoves(After(f, head), depth, text + head, t.rest);
    ThenMoves(f, depth, text, head, depth + 1 + Depth(t.inner), Print(t.rest), depth + Depth(t.rest));
  }

  // ---- Whole objects and streams ----

  /** Between events. */
  ghost predicate Idle(f: Framer) {
    f.outerSeen && !f.inEvent && !f.inString && !f.escaped && !f.discarding && !f.irrecoverable
  }

  /** An object of the array: its opening brace, its balanced inside, and its closing bracket. */
  datatype Object = Object(inner: Tree, close: byte)

  predicate GoodObject(o: Object) {
    Balanced(o.inner) && Closes(o.close)
  }

  function PrintObject(o: Object): Bytes {
    [OPEN_OBJECT] + Print(o.inner) + [o.close]
  }

  /** What framing an object yields: the object itself unless it is too long or too deep. */
  function FrameOf(o: Object): Result {
    if TooBig(|PrintObject(o)|, 1 + Depth(o.inner)) then Dropped else Event(PrintObject(o))
  }

  lemma {:induction false} ObjectFrames(f: Framer, o: Object)
    requires Idle(f) && GoodObject(o) && 1 + Depth(o.inner) < DEPTH_END
    ensures Emitted(f, PrintObject(o)) == [FrameOf(o)] && Idle(After(f, PrintObject(o)))
  {
    hide Print, Emitted, After;
    RunOne(f, OPEN_OBJECT);
    var g := Step(f, OPEN_OBJECT).0;
    assert Inside(g, 1, [OPEN_OBJECT], false);
    TreeMoves(g, 1, [OPEN_OBJECT], o.inner);
    var text := [OPEN_OBJECT] + Print(o.inner);
    RunAppend(f, [OPEN_OBJECT], Print(o.inner));
    var h := After(f, text);
    InsideStored(h, 1, text, false, o.close);
    RunOne(h, o.close);
    RunAppend(f, text, [o.close]);
  }

  predicate Separators(s: Bytes) {
    forall b | b in s :: IsSpace(b) || b == COMMA || b == CLOSE_ARRAY
  }

  lemma {:induction false} SeparatorsPass(f: Framer, s: Bytes)
    requires Idle(f) && Separators(s)
    ensures After(f, s) == f && Emitted(f, s) == []
  {
    if s != [] {
      assert IsSpace(s[0]) || s[0] == COMMA || s[0] == CLOSE_ARRAY;
      SeparatorsPass(f, s[1..]);
    }
  }

  /** An element of the stream: separators, then an object. */
  datatype Element = Element(before: Bytes, item: Object)

  predicate GoodElement(e: Element) {
    Separators(e.before) && GoodObject(e.item) && 1 + Depth(e.item.inner) < DEPTH_END
  }

  function PrintElements(es: seq<Element>): Bytes {
    if es == [] then [] else es[0].before + PrintObject(es[0].item) + PrintElements(es[1..])
  }

  function FramesOf(es: seq<Element>): seq<Result> {
    if es == [] then [] else [FrameOf(es[0].item)] + FramesOf(es[1..])
  }

  lemma {:induction false} ElementsFrame(f: Framer, es: seq<Element>)
    requires Idle(f) && forall e | e in es :: GoodElement(e)
    ensures Emitted(f, PrintElements(es)) == FramesOf(es) && Idle(After(f, PrintElements(es)))
    decreases |es|
  {
    if es != [] {
      var e := es[0];
      assert GoodElement(e);
      SeparatorsPass(f, e.before);
      ObjectFrames(f, e.item);
      RunAppend(f, e.before, PrintObject(e.item));
      var g := After(f, e.before + PrintObject(e.item));
      ElementsFrame(g, es[1..]);
      RunAppend(f, e.before + PrintObject(e.item), PrintElements(es[1..]));
    }
  }

  lemma {:induction false} SpacesPass(s: Bytes)
    requires forall b | b in s :: IsSpace(b)
    ensures After(START, s) == START && Emitted(START, s) == []
  {
    if s != [] {
      SpacesPass(s[1..]);
    }
  }

  /**
   Framing inverts printing and ignores chunking: a stream of balanced objects yields, in order, every
   object that is neither too long nor too deep, and one drop in place of every other.
   */
  lemma {:induction false} StreamFrames(spaces: Bytes, es: seq<Element>, chunks: seq<Bytes>)
    requires forall b | b in spaces :: IsSpace(b)
    requires forall e | e in es :: GoodElement(e)
    requires Concat(chunks) == spaces + [OPEN_ARRAY] + PrintElements(es)
    ensures EmittedChunks(START, chunks) == FramesOf(es) && Idle(AfterChunks(START, chunks))
  {
    ChunksDoNotMatter(START, chunks);
    SpacesPass(spaces);
    RunAppend(START, spaces, [OPEN_ARRAY]);
    RunOne(START, OPEN_ARRAY);
    var f := After(START, spaces + [OPEN_ARRAY]);
    ElementsFrame(f, es);
    RunAppend(START, spaces + [OPEN_ARRAY], PrintElements(es));
  }

  // ---- The depth counter ----

  /** Whether a byte is an opening bracket that the framer counts. */
  predicate Deepens(f: Framer, b: byte) {
    && f.outerSeen && (f.inEvent || b == OPEN_OBJECT)
    && var s := Stored(f, b); !s.inString && Opens(b) && (b != OPEN_OBJECT || s.depth != 1 || |s.event| != 1)
  }

  /** The same step with a depth that never wraps. */
  function IdealStep(f: Framer, b: byte): (Framer, Option<Result>) {
    if Deepens(f, b) then
      var s := Stored(f, b);
      (s.(depth := s.depth + 1, discarding := s.discarding || s.depth + 1 > MAX_DEPTH), None)
    else Step(f, b)
  }

  /** The ideal framer after every byte in turn. */
  function Ideal(bytes: Bytes): Framer
    decreases |bytes|
  {
    if bytes == [] then START
    else
      var f := Ideal(bytes[..|bytes| - 1]);
      if f.irrecoverable then f else IdealStep(f, bytes[|bytes| - 1]).0
  }

  /** An event under way is at some depth; between events nothing is being discarded. */
  predicate Deep(f: Framer) {
    if f.inEvent then f.depth > 0 else !f.discarding && f.depth == 0
  }

  /** With a counter that never wraps an event under way has a positive depth, whatever the stream. */
  lemma {:induction false} IdealDepthIsPositive(bytes: Bytes)
    ensures Deep(Ideal(bytes))
    decreases |bytes|
  {
    if bytes != [] {
      IdealDepthIsPositive(bytes[..|bytes| - 1]);
      hide Ideal;
      IdealStepIsDeep(Ideal(bytes[..|bytes| - 1]), bytes[|bytes| - 1]);
    }
  }

  lemma {:induction false} IdealStepIsDeep(f: Framer, b: byte)
    requires Deep(f)
    ensures Deep(IdealStep(f, b).0)
  {
  }

  lemma {:induction false} AfterOneMore(bytes: Bytes)
    requires bytes != []
    ensures var f := After(START, bytes[..|bytes| - 1]);
            After(START, bytes) == if f.irrecoverable then f else Step(f, bytes[|bytes| - 1]).0
  {
    var init, last := bytes[..|bytes| - 1], [bytes[|bytes| - 1]];
    assert bytes == init + last;
    RunAppend(START, init, last);
    hide Step;
  }

  /** The counter is a 32-bit number. */
  lemma {:induction false} DepthIsBounded(bytes: Bytes)
    ensures After(START, bytes).depth < DEPTH_END
    decreases |bytes|
  {
    if bytes != [] {
      DepthIsBounded(bytes[..|bytes| - 1]);
      AfterOneMore(bytes);
      hide After;
      StepIsBounded(After(START, bytes[..|bytes| - 1]), bytes[|bytes| - 1]);
    }
  }

  lemma {:induction false} StepIsBounded(f: Framer, b: byte)
    requires f.depth < DEPTH_END
    ensures Step(f, b).0.depth < DEPTH_END
  {
    OpenedIsBounded(Stored(f, b), b);
    hide Opened;
  }

  lemma {:induction false} OpenedIsBounded(s: Framer, b: byte)
    requires s.depth < DEPTH_END
    ensures Opened(s, b).depth < DEPTH_END
  {
  }

  /** A step differs from the ideal one only by the wrap of its depth. */
  lemma {:induction false} StepIsIdeal(f: Framer, b: byte)
    requires f.depth < DEPTH_END
    ensures IdealStep(f, b).0.depth < DEPTH_END ==> Step(f, b).0 == IdealStep(f, b).0
  {
    if Deepens(f, b) && IdealStep(f, b).0.depth < DEPTH_END {
      OpenedIsIdeal(Stored(f, b), b);
    }
    hide Opened, Closed, InText, Stored;
  }

  lemma {:induction false} OpenedIsIdeal(s: Framer, b: byte)
    requires s.depth + 1 < DEPTH_END && (b != OPEN_OBJECT || s.depth != 1 || |s.event| != 1)
    ensures Opened(s, b) == s.(depth := s.depth + 1, discarding := s.discarding || s.depth + 1 > MAX_DEPTH)
  {
    assert (s.depth + 1) % DEPTH_END == s.depth + 1;
  }

  /** The step that exceeds the counter leaves an event under way at depth zero, outside every string. */
  lemma {:induction false} StepWraps(f: Framer, b: byte)
    requires f.depth < DEPTH_END && IdealStep(f, b).0.depth >= DEPTH_END
    ensures var g := Step(f, b).0;
            g.outerSeen && g.inEvent && !g.inString && g.depth == 0 && g.irrecoverable == f.irrecoverable
  {
    StepIsBounded(f, b);
    hide Closed, InText;
    assert Deepens(f, b) && Step(f, b).0 == Opened(Stored(f, b), b);
    assert (DEPTH_END - 1 + 1) % DEPTH_END == 0;
  }

  /** Nesting stays within the counter all along a stream. */
  ghost predicate Shallow(bytes: Bytes) {
    forall k | 0 <= k <= |bytes| :: Ideal(bytes[..k]).depth < DEPTH_END
  }

  lemma {:induction false} ShallowPrefix(bytes: Bytes, n: nat)
    requires n <= |bytes| && Shallow(bytes)
    ensures Shallow(bytes[..n])
  {
    forall k | 0 <= k <= n
      ensures Ideal(bytes[..n][..k]).depth < DEPTH_END
    {
      assert bytes[..n][..k] == bytes[..k];
    }
  }

  lemma {:induction false} ShallowIsIdeal(bytes: Bytes)
    requires Shallow(bytes)
    ensures After(START, bytes) == Ideal(bytes)
    decreases |bytes|
  {
    if bytes != [] {
      var init := bytes[..|bytes| - 1];
      ShallowPrefix(bytes, |init|);
      ShallowIsIdeal(init);
      AfterOneMore(bytes);
      assert bytes[..|bytes|] == bytes;
      assert Ideal(bytes[..|bytes|]).depth < DEPTH_END && Ideal(bytes[..|init|]).depth < DEPTH_END;
      StepIsIdeal(Ideal(init), bytes[|init|]);
    }
  }

  /** The framer is the ideal one all along a stream exactly when nesting stays within the counter. */
  lemma {:induction false} CounterSuffices(bytes: Bytes)
    ensures (forall k | 0 <= k <= |bytes| :: After(START, bytes[..k]) == Ideal(bytes[..k])) <==> Shallow(bytes)
  {
    hide Ideal, After;
    if Shallow(bytes) {
      forall k | 0 <= k <= |bytes|
        ensures After(START, bytes[..k]) == Ideal(bytes[..k])
      {
        ShallowPrefix(bytes, k);
        ShallowIsIdeal(bytes[..k]);
      }
    }
    forall k | 0 <= k <= |bytes|
      ensures After(START, bytes[..k]).depth < DEPTH_END
    {
      DepthIsBounded(bytes[..k]);
    }
  }

  /** A byte that breaks the stream inside an event, by closing a bracket at depth zero. */
  predicate Underflows(f: Framer, b: byte) {
    f.outerSeen && f.inEvent && !f.irrecoverable && Step(f, b).0.irrecoverable
  }

  /** No next byte underflows. */
  ghost predicate Safe(f: Framer) {
    forall b: byte :: !Underflows(f, b)
  }

  lemma {:induction false} StartIsShallow(bytes: Bytes)
    ensures Ideal(bytes[..0]) == START && START.depth < DEPTH_END
  {
  }

  /** The first prefix of a stream whose nesting exceeds the counter. */
  lemma {:induction false} FirstTooDeep(bytes: Bytes) returns (n: nat)
    requires !Shallow(bytes)
    ensures 0 < n <= |bytes| && Ideal(bytes[..n]).depth >= DEPTH_END && Shallow(bytes[..n - 1])
    decreases |bytes|
  {
    hide Ideal, IdealStep;
    StartIsShallow(bytes);
    var k :| 0 <= k <= |bytes| && Ideal(bytes[..k]).depth >= DEPTH_END;
    if Shallow(bytes[..k - 1]) {
      return k;
    }
    n := FirstTooDeep(bytes[..k - 1]);
    assert bytes[..k - 1][..n] == bytes[..n];
    assert bytes[..k - 1][..n - 1] == bytes[..n - 1];
  }

  /** Past the counter the depth is zero, and a closing bracket takes the branch. */
  lemma {:induction false} TooDeepUnderflows(bytes: Bytes)
    requires bytes != [] && Shallow(bytes[..|bytes| - 1]) && Ideal(bytes).depth >= DEPTH_END
    ensures !Safe(After(START, bytes))
  {
    var init := bytes[..|bytes| - 1];
    ShallowIsIdeal(init);
    AfterOneMore(bytes);
    assert init[..|init|] == init;
    assert Ideal(init[..|init|]).depth < DEPTH_END;
    IdealOneMore(bytes);
    hide Ideal, IdealStep, After, Step, Safe;
    StepWraps(Ideal(init), bytes[|init|]);
    ZeroUnderflows(After(START, bytes));
  }

  lemma {:induction false} IdealOneMore(bytes: Bytes)
    requires bytes != []
    ensures var f := Ideal(bytes[..|bytes| - 1]);
            Ideal(bytes) == if f.irrecoverable then f else IdealStep(f, bytes[|bytes| - 1]).0
  {
  }

  /** At depth zero a closing bracket breaks the stream. */
  lemma {:induction false} ZeroUnderflows(f: Framer)
    requires f.outerSeen && f.inEvent && !f.inString && !f.irrecoverable && f.depth == 0
    ensures !Safe(f)
  {
    assert Underflows(f, CLOSE_OBJECT);
  }

  /**
   The underflow branch is out of reach of the next byte, all along a stream, exactly when nesting stays
   within the counter.
   */
  lemma {:induction false} UnderflowIsOverdepth(bytes: Bytes)
    ensures (forall k | 0 <= k <= |bytes| :: Safe(After(START, bytes[..k]))) <==> Shallow(bytes)
  {
    hide Ideal, After, Step, Safe, Deep;
    if Shallow(bytes) {
      forall k | 0 <= k <= |bytes|
        ensures Safe(After(START, bytes[..k]))
      {
        ShallowPrefix(bytes, k);
        ShallowIsIdeal(bytes[..k]);
        IdealDepthIsPositive(bytes[..k]);
        DeepIsSafe(Ideal(bytes[..k]));
      }
    } else {
      var n := FirstTooDeep(bytes);
      assert bytes[..n][..n - 1] == bytes[..n - 1];
      TooDeepUnderflows(bytes[..n]);
    }
  }

  lemma {:induction false} IdealDepthGrows(bytes: Bytes)
    ensures Ideal(bytes).depth <= |bytes|
    decreases |bytes|
  {
    if bytes != [] {
      IdealDepthGrows(bytes[..|bytes| - 1]);
      IdealOneMore(bytes);
      IdealDepthIsPositive(bytes[..|bytes| - 1]);
      hide Ideal;
      IdealStepGrows(Ideal(bytes[..|bytes| - 1]), bytes[|bytes| - 1]);
    }
  }

  lemma {:induction false} IdealStepGrows(f: Framer, b: byte)
    requires Deep(f)
    ensures IdealStep(f, b).0.depth <= f.depth + 1
  {
    hide Closed, InText;
    if !Deepens(f, b) {
      ShallowStepGrows(f, b);
    }
  }

  lemma {:induction false} ShallowStepGrows(f: Framer, b: byte)
    requires Deep(f) && !Deepens(f, b)
    ensures Step(f, b).0.depth <= f.depth + 1
  {
    if Stored(f, b).depth == 1 && |Stored(f, b).event| == 1 {
      FirstBrace(Stored(f, b));
    }
    hide Opened, InText;
  }

  /** The brace that starts an event is not counted again. */
  lemma {:induction false} FirstBrace(s: Framer)
    requires s.depth == 1 && |s.event| == 1
    ensures Opened(s, OPEN_OBJECT) == s
  {
  }

  /** A stream shorter than the counter's range cannot exceed it. */
  lemma {:induction false} DepthIsPositive(bytes: Bytes)
    requires |bytes| < DEPTH_END
    ensures var f := After(START, bytes); f.depth <= |bytes| && Deep(f) && Safe(f)
  {
    forall k | 0 <= k <= |bytes|
      ensures Ideal(bytes[..k]).depth < DEPTH_END
    {
      IdealDepthGrows(bytes[..k]);
    }
    ShallowIsIdeal(bytes);
    IdealDepthGrows(bytes);
    IdealDepthIsPositive(bytes);
    hide Safe, Deep, Ideal, After;
    DeepIsSafe(Ideal(bytes));
  }

  lemma {:induction false} DeepIsSafe(f: Framer)
    requires Deep(f)
    ensures Safe(f)
  {
  }

  lemma {:induction false} CounterStep(n: nat)
    ensures (n % 0x1_0000_0000 + 1) % 0x1_0000_0000 == (n + 1) % 0x1_0000_0000
  {
  }

  /** The state after n opening braces. */
  ghost predicate Nested(f: Framer, n: nat) {
    && f.outerSeen && f.inEvent && !f.inString && !f.irrecoverable && f.depth == n % DEPTH_END
    && |f.event| == (if n <= MAX_DEPTH + 1 then n else MAX_DEPTH + 1) && f.discarding == (n > MAX_DEPTH)
  }

  lemma {:induction false} NestedMore(f: Framer, n: nat)
    requires n > 0 && Nested(f, n)
    ensures Nested(Step(f, OPEN_OBJECT).0, n + 1)
  {
    CounterStep(n);
  }

  lemma {:induction false} NestingCounts(n: nat)
    requires n > 0
    ensures Nested(After(START, [OPEN_ARRAY] + seq(n, _ => OPEN_OBJECT)), n)
  {
    hide After, Emitted;
    var opens: Bytes := seq(n, _ => OPEN_OBJECT);
    if n == 1 {
      assert opens == [OPEN_OBJECT];
      RunAppend(START, [OPEN_ARRAY], opens);
      RunOne(START, OPEN_ARRAY);
      RunOne(Step(START, OPEN_ARRAY).0, OPEN_OBJECT);
    } else {
      NestingCounts(n - 1);
      var before := [OPEN_ARRAY] + seq(n - 1, _ => OPEN_OBJECT);
      assert [OPEN_ARRAY] + opens == before + [OPEN_OBJECT];
      RunAppend(START, before, [OPEN_OBJECT]);
      RunOne(After(START, before), OPEN_OBJECT);
      NestedMore(After(START, before), n - 1);
    }
  }

  /** With 2^32 nested objects the counter wraps to zero, and the next closing bracket breaks the stream. */
  lemma {:induction false} CounterWraps()
    ensures var f := After(START, [OPEN_ARRAY] + seq(DEPTH_END, _ => OPEN_OBJECT));
            f.inEvent && f.depth == 0 && After(f, [CLOSE_OBJECT]).irrecoverable
  {
    NestingCounts(DEPTH_END);
    RunOne(After(START, [OPEN_ARRAY] + seq(DEPTH_END, _ => OPEN_OBJECT)), CLOSE_OBJECT);
  }
}
