/** Rendering the items into a frame, and the event loop's gate between changes and output. */
module StatusLoops {
  import opened Bytes
  import opened Items
  import opened Outputs
  import opened RenderLimiters

  const OPEN: byte := 91
  const CLOSE: byte := 93
  const OUTPUT_BUDGET: nat := 1048576

  datatype Row = Row(faulted: bool, faces: seq<Face>)

  /** What a frame shows: a configuration error, or the items of the blocks in display order. */
  datatype Screen = Broken(json: Bytes) | Rows(rows: seq<Row>)

  ghost function VisibleIn(faces: seq<Face>): seq<Bytes> {
    if faces == [] then []
    else
      var last := faces[|faces| - 1];
      VisibleIn(faces[..|faces| - 1]) + if last.state.Visible() then [last.fragment] else []
  }

  /** The fragments of a frame: the visible items of every block that is not faulted, in order. */
  ghost function Fragments(rows: seq<Row>): seq<Bytes> {
    if rows == [] then []
    else
      var last := rows[|rows| - 1];
      Fragments(rows[..|rows| - 1]) + if last.faulted then [] else VisibleIn(last.faces)
  }

  ghost function FrameOf(screen: Screen): Bytes {
    match screen
    case Broken(json) => [OPEN] + json + [CLOSE]
    case Rows(rows) => [OPEN] + Join(Fragments(rows)) + [CLOSE]
  }

  lemma {:induction false} JoinGrows(a: seq<Bytes>, b: seq<Bytes>)
    requires a <= b
    ensures |Join(a)| <= |Join(b)|
    decreases |b|
  {
    if |a| < |b| {
      JoinGrows(a, b[..|b| - 1]);
    } else {
      assert a == b;
    }
  }

  lemma {:induction false} JoinOne(a: seq<Bytes>, fragment: Bytes)
    ensures Join(a + [fragment]) == if a == [] then fragment else Join(a) + [COMMA] + fragment
  {
    assert (a + [fragment])[..|a|] == a;
  }

  lemma {:induction false} FragmentsGrow(rows: seq<Row>, i: nat)
    requires i <= |rows|
    ensures Fragments(rows[..i]) <= Fragments(rows)
  {
    if i == |rows| {
      assert rows[..i] == rows;
    } else {
      FragmentsGrow(rows[..|rows| - 1], i);
      assert rows[..|rows| - 1][..i] == rows[..i];
    }
  }

  lemma {:induction false} VisibleGrow(faces: seq<Face>, i: nat)
    requires i <= |faces|
    ensures VisibleIn(faces[..i]) <= VisibleIn(faces)
  {
    if i == |faces| {
      assert faces[..i] == faces;
    } else {
      VisibleGrow(faces[..|faces| - 1], i);
      assert faces[..|faces| - 1][..i] == faces[..i];
    }
  }

  /** A frame that is too large part of the way is too large. */
  lemma {:induction false} PartTooLarge(done: seq<Bytes>, faces: seq<Face>, i: nat)
    requires i <= |faces| && |Join(done + VisibleIn(faces[..i]))| >= FRAME_MAX
    ensures |Join(done + VisibleIn(faces))| >= FRAME_MAX
  {
    VisibleGrow(faces, i);
    JoinGrows(done + VisibleIn(faces[..i]), done + VisibleIn(faces));
  }

  /** Appending one fragment, after a comma unless it is the first. */
  method AppendFragment(frame: Bytes, fragment: Bytes, first: bool, ghost done: seq<Bytes>)
    returns (ok: bool, grown: Bytes)
    requires frame == [OPEN] + Join(done) && (first <==> done == []) && |frame| <= FRAME_MAX
    ensures ok ==> grown == [OPEN] + Join(done + [fragment]) && |grown| <= FRAME_MAX
    ensures !ok ==> |Join(done + [fragment])| >= FRAME_MAX
  {
    JoinOne(done, fragment);
    grown := frame;
    if !first {
      if |grown| + 1 > FRAME_MAX {
        return false, grown;
      }
      grown := grown + [COMMA];
    }
    if |grown| + |fragment| > FRAME_MAX {
      return false, grown;
    }
    return true, grown + fragment;
  }

  lemma {:induction false} VisibleStep(done: seq<Bytes>, faces: seq<Face>, k: nat)
    requires k < |faces|
    ensures done + VisibleIn(faces[..k + 1]) ==
            (done + VisibleIn(faces[..k])) + if faces[k].state.Visible() then [faces[k].fragment] else []
  {
    assert faces[..k + 1][..k] == faces[..k];
  }

  /** Appending the visible items of one block; fails when the frame grows too large. */
  method AppendRow(frame: Bytes, faces: seq<Face>, ghost done: seq<Bytes>, first: bool)
    returns (ok: bool, grown: Bytes, still: bool)
    requires frame == [OPEN] + Join(done) && (first <==> done == []) && |frame| <= FRAME_MAX
    ensures ok ==> grown == [OPEN] + Join(done + VisibleIn(faces)) && |grown| <= FRAME_MAX
    ensures ok ==> (still <==> done + VisibleIn(faces) == [])
    ensures !ok ==> |Join(done + VisibleIn(faces))| >= FRAME_MAX
  {
    hide Join, VisibleIn;
    grown, still := frame, first;
    ghost var so := done;
    assert so == done + VisibleIn(faces[..0]) by {
      EmptyShowsNothing(faces[..0]);
    }
    for k := 0 to |faces|
      invariant grown == [OPEN] + Join(so) && |grown| <= FRAME_MAX && (still <==> so == [])
      invariant so == done + VisibleIn(faces[..k])
    {
      VisibleStep(done, faces, k);
      if faces[k].state.Visible() {
        ok, grown := AppendFragment(grown, faces[k].fragment, still, so);
        if !ok {
          PartTooLarge(done, faces, k + 1);
          return;
        }
        still, so := false, so + [faces[k].fragment];
      }
    }
    assert faces[..|faces|] == faces;
    ok := true;
  }

  lemma {:induction false} EmptyShowsNothing(faces: seq<Face>)
    requires faces == []
    ensures VisibleIn(faces) == []
  {
  }

  /** Composing a frame succeeds exactly when the whole frame fits. */
  method RenderFrame(screen: Screen) returns (frame: Option<Bytes>)
    ensures frame == if |FrameOf(screen)| <= FRAME_MAX then Some(FrameOf(screen)) else None
  {
    var text := [OPEN];
    if screen.Broken? {
      if |text| + |screen.json| > FRAME_MAX {
        return None;
      }
      text := text + screen.json;
    } else {
      var rows := screen.rows;
      var first := true;
      for r := 0 to |rows|
        invariant text == [OPEN] + Join(Fragments(rows[..r])) && |text| <= FRAME_MAX
        invariant first <==> Fragments(rows[..r]) == []
      {
        assert rows[..r + 1][..r] == rows[..r];
        if rows[r].faulted {
          assert Fragments(rows[..r + 1]) == Fragments(rows[..r]);
        } else {
          var ok;
          ok, text, first := AppendRow(text, rows[r].faces, Fragments(rows[..r]), first);
          if !ok {
            FragmentsGrow(rows, r + 1);
            JoinGrows(Fragments(rows[..r + 1]), Fragments(rows));
            return None;
          }
        }
      }
      assert rows[..|rows|] == rows;
    }
    if |text| + 1 > FRAME_MAX {
      return None;
    }
    return Some(text + [CLOSE]);
  }

  /** The frames offered to the bar after one more; a frame equal to the last is not offered again. */
  ghost function Offer(shown: seq<Bytes>, frame: Bytes): seq<Bytes> {
    if frame == LastOf(shown) then shown else shown + [frame]
  }

  ghost function OfferAll(shown: seq<Bytes>, frames: seq<Bytes>): seq<Bytes> {
    if frames == [] then shown else Offer(OfferAll(shown, frames[..|frames| - 1]), frames[|frames| - 1])
  }

  class StatusLoop {
    const output: Output
    const limiter: RenderLimiter
    const prelude: Bytes
    var screen: Screen
    var renderDirty: bool
    var preludeOffset: nat
    var running: bool

    /** The frame the bar shows, or will once what is under way is out. */
    ghost function Offered(): Bytes
      reads this, output
    {
      if output.current != [] then output.current else LastOf(output.Done)
    }

    /** The frames whose last byte is out, and the one under way. */
    ghost function Shown(): seq<Bytes>
      reads output
    {
      output.Done + if output.current == [] then [] else [output.current]
    }

    /** Everything written to standard output. */
    ghost function Stream(): Bytes
      requires preludeOffset <= |prelude|
      reads this, output
    {
      prelude[..preludeOffset] + output.Out
    }

    /** Unless a change waits to be rendered, the frame last offered shows the screen as it is. */
    ghost predicate Valid()
      reads this, output, limiter
    {
      && output.Valid() && !output.renderDirty && limiter.virtualTime < UINT64_END
      && preludeOffset <= |prelude| && (preludeOffset < |prelude| ==> output.Out == [])
      && (running && !renderDirty ==> Offered() == FrameOf(screen))
    }

    constructor (prelude: Bytes, screen: Screen)
      ensures Valid() && Stream() == [] && running && renderDirty && this.screen == screen && this.prelude == prelude
      ensures fresh(output) && fresh(limiter) && Shown() == [] && limiter.virtualTime == 0
    {
      this.prelude, this.screen := prelude, screen;
      output := new Output();
      limiter := new RenderLimiter();
      renderDirty, preludeOffset, running := true, 0, true;
    }

    /** A change of the items, of the blocks or of the configuration error. */
    method Change(screen: Screen)
      requires Valid()
      modifies this`screen, this`renderDirty
      ensures Valid() && this.screen == screen && renderDirty && Stream() == old(Stream())
    {
      this.screen, renderDirty := screen, true;
    }

    /** With nothing under way, a rendered frame is always accepted, so no update is lost. */
    method RenderStatus() returns (ok: bool)
      requires Valid() && !output.HasPending()
      modifies this`renderDirty, output
      ensures output.Valid() && !output.renderDirty && output.Out == old(output.Out) && output.Done == old(output.Done)
      ensures ok <==> |FrameOf(screen)| <= FRAME_MAX
      ensures ok ==> !renderDirty && Offered() == FrameOf(screen) && Shown() == Offer(old(Shown()), FrameOf(screen))
      ensures !ok ==> renderDirty == old(renderDirty) && Shown() == old(Shown())
    {
      var frame := RenderFrame(screen);
      if frame.None? {
        return false;
      }
      ok := output.SetFrame(frame.value);
      renderDirty := false;
    }

    method WritePrelude(count: nat)
      requires Valid() && preludeOffset < |prelude|
      modifies this`preludeOffset
      ensures Valid() && old(Stream()) <= Stream()
    {
      var left := |prelude| - preludeOffset;
      ghost var was := preludeOffset;
      preludeOffset := preludeOffset + if count < left then count else left;
      assert prelude[..was] <= prelude[..preludeOffset];
      assert old(Stream()) == prelude[..was] && Stream() == prelude[..preludeOffset];
    }

    /** Writing the prelude; frames wait for it. */
    method FlushPrelude(script: seq<Write>) returns (done: bool, rest: seq<Write>)
      requires Valid() && running
      modifies this`preludeOffset, this`running
      ensures Valid() && Suffix(rest, script) && old(Stream()) <= Stream()
      ensures done ==> running && preludeOffset == |prelude|
      ensures !done && running ==> preludeOffset < |prelude|
    {
      hide output.Valid, Offered;
      rest := script;
      while preludeOffset < |prelude|
        invariant Valid() && running && Suffix(rest, script) && old(Stream()) <= Stream()
        decreases |rest|
      {
        if rest == [] {
          return false, rest;
        }
        var answer := rest[0];
        rest := rest[1..];
        if answer.Wrote? && answer.count > 0 {
          WritePrelude(answer.count);
        } else if answer == Again {
          return false, rest;
        } else if answer != Interrupted {
          running := false;
          return false, rest;
        }
      }
      return true, rest;
    }

    method FlushOutput(script: seq<Write>)
      requires Valid() && running
      modifies this`preludeOffset, this`running, output
      ensures Valid() && old(Stream()) <= Stream() && Shown() == old(Shown())
    {
      var done, rest := FlushPrelude(script);
      if done {
        FlushFrames(rest);
      }
    }

    method FlushFrames(script: seq<Write>)
      requires Valid() && running && preludeOffset == |prelude|
      modifies this`running, output
      ensures Valid() && old(Stream()) <= Stream() && Shown() == old(Shown())
    {
      ghost var before := output.Out;
      var result, rest := output.Flush(script, OUTPUT_BUDGET);
      assert prelude[..preludeOffset] + before <= prelude[..preludeOffset] + output.Out;
      if result.Closed? || result.Error? {
        running := false;
      }
    }

    /** The end of one turn of the event loop: render when due, then write what is pending. */
    method Turn(now: nat, script: seq<Write>) returns (ghost rendered: bool)
      requires Valid() && running && now < UINT64_END
      modifies this`renderDirty, this`preludeOffset, this`running, output, limiter
      ensures Valid() && old(Stream()) <= Stream()
      ensures old(renderDirty && !output.HasPending()) && Deadline(old(limiter.virtualTime)) <= now ==>
        !renderDirty || (!running && |FrameOf(screen)| > FRAME_MAX)
      ensures rendered <==> old(renderDirty && !output.HasPending()) && Deadline(old(limiter.virtualTime)) <= now
                            && |FrameOf(screen)| <= FRAME_MAX
      ensures limiter.virtualTime
        == if rendered then Recorded(old(limiter.virtualTime), now) else old(limiter.virtualTime)
      ensures Shown() == if rendered then Offer(old(Shown()), FrameOf(screen)) else old(Shown())
    {
      rendered := false;
      var due := Deadline(limiter.virtualTime);
      if renderDirty && !output.HasPending() && now >= due {
        var ok := RenderStatus();
        if !ok {
          running := false;
          return;
        }
        limiter.Record(now);
        rendered := true;
      }
      if preludeOffset < |prelude| || output.HasPending() {
        FlushOutput(script);
      }
    }
  }

  /** At every moment the stream is a prefix of the prelude and the frames joined by commas. */
  lemma {:induction false} StreamIsPrefix(loop: StatusLoop)
    requires loop.Valid()
    ensures loop.Stream() <= loop.prelude + Join(loop.Shown())
  {
    WrittenIsPrefix(loop.output);
    assert loop.prelude[..|loop.prelude|] == loop.prelude;
  }

  // ---- Runs ----

  /** What a run is made of: changes of what there is to show, and turns at some time. */
  datatype Event = Changed(screen: Screen) | Turned(now: nat, script: seq<Write>)

  ghost function ScreenAfter(screen: Screen, events: seq<Event>): Screen {
    if events == [] then screen
    else if events[|events| - 1].Changed? then events[|events| - 1].screen
    else ScreenAfter(screen, events[..|events| - 1])
  }

  /** The clock is monotonic, and of 64 bits. */
  predicate Clocked(events: seq<Event>) {
    && (forall j | 0 <= j < |events| && events[j].Turned? :: events[j].now < UINT64_END)
    && forall j, k | 0 <= j < k < |events| && events[j].Turned? && events[k].Turned? :: events[j].now <= events[k].now
  }

  /** Which events rendered, when, and what: the screen as it was then. */
  ghost predicate Rendered(screen: Screen, events: seq<Event>, at: seq<nat>, times: seq<nat>, frames: seq<Bytes>) {
    && |at| == |times| == |frames|
    && (forall k | 0 <= k < |at| ::
          && at[k] < |events| && events[at[k]].Turned? && times[k] == events[at[k]].now
          && frames[k] == FrameOf(ScreenAfter(screen, events[..at[k]])))
    && forall j, k | 0 <= j < k < |at| :: at[j] < at[k]
  }

  lemma {:induction false} RenderedMore(screen: Screen, events: seq<Event>, event: Event, at: seq<nat>,
                                        times: seq<nat>, frames: seq<Bytes>)
    requires Rendered(screen, events, at, times, frames)
    ensures Rendered(screen, events + [event], at, times, frames)
    ensures ScreenAfter(screen, events + [event])
      == if event.Changed? then event.screen else ScreenAfter(screen, events)
    ensures event.Turned? ==> Rendered(screen, events + [event], at + [|events|], times + [event.now],
                                       frames + [FrameOf(ScreenAfter(screen, events))])
  {
    var all := events + [event];
    assert all[..|events|] == events;
    forall k | 0 <= k < |at|
      ensures all[at[k]] == events[at[k]] && all[..at[k]] == events[..at[k]]
    {
    }
  }

  /**
   Any run of changes and turns. The stream only grows, and is a prefix of the prelude and the rendered
   frames, each the screen of its time, without immediate repetitions; n renders span at least n - 8 refills.
   */
  method Run(loop: StatusLoop, events: seq<Event>)
    returns (ghost handled: nat, ghost at: seq<nat>, ghost times: seq<nat>, ghost frames: seq<Bytes>)
    requires loop.Valid() && loop.running && Clocked(events)
    modifies loop, loop.output, loop.limiter
    ensures loop.Valid() && handled <= |events| && (loop.running ==> handled == |events|)
    ensures loop.screen == ScreenAfter(old(loop.screen), events[..handled])
    ensures Rendered(old(loop.screen), events[..handled], at, times, frames)
    ensures loop.Shown() == OfferAll(old(loop.Shown()), frames)
    ensures old(loop.Stream()) <= loop.Stream() <= loop.prelude + Join(OfferAll(old(loop.Shown()), frames))
    ensures Spaced(times)
  {
    hide Output.Valid, StatusLoop.Offered, StatusLoop.Shown, StatusLoop.Stream, OfferAll, Rendered, Allowed, After,
         ScreenAfter;
    handled, at, times, frames := 0, [], [], [];
    ghost var screen, start := loop.screen, loop.limiter.virtualTime;
    RunStarts(screen, start, loop.Shown());
    for i := 0 to |events|
      invariant loop.Valid() && loop.running && handled == i && loop.screen == ScreenAfter(screen, events[..i])
      invariant Rendered(screen, events[..i], at, times, frames)
      invariant loop.Shown() == OfferAll(old(loop.Shown()), frames) && old(loop.Stream()) <= loop.Stream()
      invariant Allowed(start, times) && loop.limiter.virtualTime == After(start, times)
      invariant times != [] ==> forall j | i <= j < |events| && events[j].Turned? :: times[|times| - 1] <= events[j].now
    {
      assert events[..i + 1] == events[..i] + [events[i]];
      RenderedMore(screen, events[..i], events[i], at, times, frames);
      handled := i + 1;
      ghost var rendered := Step(loop, events[i]);
      if rendered {
        AllowedMore(start, times, events[i].now);
        OfferMore(old(loop.Shown()), frames, FrameOf(loop.screen));
        at, times, frames := at + [i], times + [events[i].now], frames + [FrameOf(loop.screen)];
      }
      if !loop.running {
        break;
      }
    }
    assert events[..|events|] == events;
    StreamIsPrefix(loop);
    AllowedIsSpaced(start, times);
  }

  method Step(loop: StatusLoop, event: Event) returns (ghost rendered: bool)
    requires loop.Valid() && loop.running && (event.Turned? ==> event.now < UINT64_END)
    modifies loop, loop.output, loop.limiter
    ensures loop.Valid() && old(loop.Stream()) <= loop.Stream() && (event.Changed? ==> loop.running)
    ensures loop.screen == if event.Changed? then event.screen else old(loop.screen)
    ensures rendered ==> event.Turned? && Deadline(old(loop.limiter.virtualTime)) <= event.now
    ensures loop.limiter.virtualTime
      == if rendered then Recorded(old(loop.limiter.virtualTime), event.now) else old(loop.limiter.virtualTime)
    ensures loop.Shown() == if rendered then Offer(old(loop.Shown()), FrameOf(loop.screen)) else old(loop.Shown())
  {
    hide StatusLoop.Valid, StatusLoop.Shown, StatusLoop.Stream, FrameOf, Offer;
    rendered := false;
    match event
    case Changed(screen) => loop.Change(screen);
    case Turned(now, script) => rendered := loop.Turn(now, script);
  }

  lemma {:induction false} RunStarts(screen: Screen, start: nat, shown: seq<Bytes>)
    ensures ScreenAfter(screen, []) == screen && Rendered(screen, [], [], [], [])
    ensures Allowed(start, []) && After(start, []) == start && OfferAll(shown, []) == shown
  {
  }

  lemma {:induction false} OfferMore(shown: seq<Bytes>, frames: seq<Bytes>, frame: Bytes)
    ensures OfferAll(shown, frames + [frame]) == Offer(OfferAll(shown, frames), frame)
  {
    assert (frames + [frame])[..|frames|] == frames;
  }

  /** Once nothing is dirty or pending, the last frame on the bar is the present screen. */
  lemma {:induction false} QuietShowsScreen(loop: StatusLoop)
    requires loop.Valid() && loop.running && !loop.renderDirty && !loop.output.HasPending()
    ensures LastOf(loop.output.Done) == FrameOf(loop.screen)
  {
  }
}
