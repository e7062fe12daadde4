/**
 The frame writer over an arbitrary partial-write oracle, and the event loop's render gate.
 Write results are a script consumed one answer per call; an exhausted script answers "try again".
 */
module Outputs {
  import opened Bytes

  const FRAME_MAX: nat := 2097152
  const COMMA: byte := 44

  datatype Write = Wrote(count: nat) | Interrupted | Again | BrokenPipe | Failure(number: int)

  datatype FlushResult = Drained | Blocked | Closed | Error(number: int)

  /** Frames separated by commas. */
  ghost function Join(frames: seq<Bytes>): Bytes {
    if frames == [] then []
    else if |frames| == 1 then frames[0]
    else Join(frames[..|frames| - 1]) + [COMMA] + frames[|frames| - 1]
  }

  /** The last completed frame; none yet reads as the empty one. */
  function LastOf(frames: seq<Bytes>): Bytes {
    if frames == [] then [] else frames[|frames| - 1]
  }

  ghost predicate ConsecutiveDiffer(frames: seq<Bytes>) {
    && (forall i | 0 <= i < |frames| :: frames[i] != [])
    && forall i | 0 < i < |frames| :: frames[i - 1] != frames[i]
  }

  /** The separator due before a frame once it is under way. */
  ghost function Started(done: seq<Bytes>, separated: bool): Bytes {
    Join(done) + if separated then [COMMA] else []
  }

  /** How a failed write ends a flush. */
  function Stopped(answer: Write): FlushResult {
    match answer
    case Failure(number) => Error(number)
    case Wrote(_) => Closed
    case BrokenPipe => Closed
    case _ => Blocked
  }

  ghost predicate Suffix(rest: seq<Write>, script: seq<Write>) {
    |rest| <= |script| && rest == script[|script| - |rest|..]
  }

  /** Why a flush stopped early: the last answer it was given, or no answer left. */
  ghost predicate Explains(script: seq<Write>, rest: seq<Write>, result: FlushResult) {
    || (rest == [] && result == Blocked)
    || (|rest| < |script| && script[|script| - |rest| - 1] != Interrupted
        && result == Stopped(script[|script| - |rest| - 1]))
    // An interrupted separator is not retried.
    || (|script| == |rest| + 1 && script[0] == Interrupted && result == Blocked)
  }

  lemma {:induction false} SuffixThen(script: seq<Write>, middle: seq<Write>, rest: seq<Write>)
    requires Suffix(middle, script) && Suffix(rest, middle)
    ensures Suffix(rest, script)
  {
  }

  lemma {:induction false} WholeSuffix(script: seq<Write>)
    ensures Suffix(script, script)
  {
  }

  lemma {:induction false} SuffixTail(script: seq<Write>, rest: seq<Write>)
    requires Suffix(rest, script) && rest != []
    ensures Suffix(rest[1..], script) && rest[0] == script[|script| - |rest[1..]| - 1]
  {
  }

  lemma {:induction false} ExplainsMore(script: seq<Write>, middle: seq<Write>, rest: seq<Write>, result: FlushResult)
    requires Suffix(middle, script) && Suffix(rest, middle) && Explains(middle, rest, result)
    requires |middle| == |rest| + 1 ==> middle[0] != Interrupted || rest == []
    ensures Suffix(rest, script) && Explains(script, rest, result)
  {
  }

  class Output {
    var lastCompleted: Bytes
    var current: Bytes
    var offset: nat
    var firstFrame: bool
    var prefixWritten: bool
    var renderDirty: bool

    // Everything written so far, and the frames whose last byte is out.
    ghost var Out: Bytes
    ghost var Done: seq<Bytes>

    /** What holds even in the middle of a flush. */
    ghost predicate Writing()
      reads this
    {
      && offset <= |current| <= FRAME_MAX
      && (firstFrame <==> Done == []) && lastCompleted == LastOf(Done) && ConsecutiveDiffer(Done)
      && (current == [] || current != lastCompleted)
      && (prefixWritten ==> current != [] && !firstFrame)
      && (offset > 0 && !firstFrame ==> prefixWritten)
      && Out == Started(Done, prefixWritten) + current[..offset]
    }

    /** Between calls no frame is complete but unrecorded. */
    ghost predicate Valid()
      reads this
    {
      Writing() && (current != [] ==> offset < |current|)
    }

    constructor ()
      ensures Valid() && Out == [] && Done == [] && current == [] && !renderDirty
    {
      lastCompleted, current, offset := [], [], 0;
      firstFrame, prefixWritten, renderDirty := true, false, false;
      Out, Done := [], [];
    }

    predicate HasPending()
      reads this
    {
      offset < |current|
    }

    /** Offering a frame. One already under way is never replaced; one equal to the last is dropped. */
    method SetFrame(json: Bytes) returns (ok: bool)
      requires Valid()
      modifies this
      ensures Valid() && Out == old(Out) && Done == old(Done) && (ok <==> |json| <= FRAME_MAX)
      ensures !ok || old(offset != 0 || prefixWritten) ==>
        current == old(current) && offset == old(offset) && prefixWritten == old(prefixWritten)
      ensures !ok ==> renderDirty == old(renderDirty)
      ensures ok ==> renderDirty == old(offset != 0 || prefixWritten)
      ensures ok && !old(offset != 0 || prefixWritten) ==>
        current == (if json == LastOf(Done) then [] else json) && offset == 0 && !prefixWritten
    {
      if |json| > FRAME_MAX {
        return false;
      }
      if offset != 0 || prefixWritten {
        renderDirty := true;
        return true;
      }
      current := json;
      if lastCompleted == current {
        current := [];
      }
      renderDirty := false;
      return true;
    }

    /** Writing the separator before any frame but the first. */
    method FlushSeparator(script: seq<Write>, budget: nat)
      returns (stopped: bool, result: FlushResult, rest: seq<Write>, left: nat)
      requires Valid()
      modifies this`prefixWritten, this`Out
      ensures Valid() && Suffix(rest, script) && old(Out) <= Out && left + |Out| == budget + |old(Out)|
      ensures stopped ==> result != Drained && current != [] && Explains(script, rest, result)
      ensures !stopped && left > 0 && current != [] ==> firstFrame || prefixWritten
    {
      stopped, result, rest, left := false, Blocked, script, budget;
      if firstFrame || prefixWritten || |current| == 0 || budget == 0 {
        return;
      }
      if script == [] {
        return true, Blocked, script, budget;
      }
      rest := script[1..];
      if script[0].Wrote? && script[0].count > 0 {
        prefixWritten := true;
        Out := Out + [COMMA];
        left := budget - 1;
        assert Started(Done, true) == Started(Done, false) + [COMMA];
      } else {
        stopped, result := true, Stopped(script[0]);
      }
    }

    /** Writing one piece of the frame. */
    method WritePiece(count: nat, left: nat) returns (written: nat)
      requires Writing() && offset < |current| && (firstFrame || prefixWritten) && count > 0 && left > 0
      modifies this`offset, this`Out
      ensures Writing() && 0 < written <= left && |Out| == |old(Out)| + written && old(Out) <= Out
    {
      hide Started, ConsecutiveDiffer;
      var available := if |current| - offset < left then |current| - offset else left;
      written := if count < available then count else available;
      Out := Out + current[offset..offset + written];
      PieceExtends(Started(Done, prefixWritten), current, offset, offset + written);
      offset := offset + written;
    }

    /** Writing the frame itself, piece by piece. */
    method FlushBody(script: seq<Write>, budget: nat) returns (stopped: bool, result: FlushResult, rest: seq<Write>)
      requires Writing() && (budget > 0 && current != [] ==> firstFrame || prefixWritten)
      modifies this`offset, this`Out
      ensures Writing() && Suffix(rest, script) && old(Out) <= Out && |Out| <= |old(Out)| + budget
      ensures stopped ==> result != Drained && offset < |current| && Explains(script, rest, result)
      ensures stopped && |script| == |rest| + 1 ==> script[0] != Interrupted || rest == []
      ensures !stopped ==> offset == |current| || |Out| == |old(Out)| + budget
    {
      hide Started, ConsecutiveDiffer, Suffix;
      stopped, result, rest := false, Blocked, script;
      WholeSuffix(script);
      var left: nat := budget;
      while offset < |current| && left > 0
        invariant Writing() && Suffix(rest, script) && old(Out) <= Out && left + |Out| == budget + |old(Out)|
        invariant left > 0 && current != [] ==> firstFrame || prefixWritten
        decreases |rest|
      {
        if rest == [] {
          return true, Blocked, rest;
        }
        var answer := rest[0];
        SuffixTail(script, rest);
        rest := rest[1..];
        if answer.Wrote? && answer.count > 0 {
          var written := WritePiece(answer.count, left);
          left := left - written;
        } else if answer != Interrupted {
          return true, Stopped(answer), rest;
        }
      }
    }

    /** Recording a frame whose last byte is out. */
    method Complete()
      requires Writing() && offset == |current| && current != []
      modifies this
      ensures Valid() && current == [] && Done == old(Done) + [old(current)]
      ensures Out == old(Out) && renderDirty == old(renderDirty)
    {
      ghost var grown := Done + [current];
      assert grown[..|grown| - 1] == Done;
      assert current[..offset] == current;
      Done := grown;
      lastCompleted, current := current, lastCompleted;
      current, offset, firstFrame, prefixWritten := [], 0, false, false;
    }

    /** Writing as much as the budget and the other end allow. */
    method Flush(script: seq<Write>, budget: nat) returns (result: FlushResult, rest: seq<Write>)
      requires Valid()
      modifies this
      ensures Valid() && Suffix(rest, script) && renderDirty == old(renderDirty)
      ensures |old(Out)| <= |Out| <= |old(Out)| + budget && old(Out) <= Out
      ensures if current == [] && old(current) != [] then Done == old(Done) + [old(current)]
              else Done == old(Done) && current == old(current)
      ensures result == Drained <==> current == []
      ensures current != [] ==> |Out| == |old(Out)| + budget || Explains(script, rest, result)
    {
      hide Suffix, Explains, Started, ConsecutiveDiffer;
      var stopped, left;
      stopped, result, rest, left := FlushSeparator(script, budget);
      if stopped {
        return;
      }
      ghost var middle := rest;
      stopped, result, rest := FlushBody(rest, left);
      SuffixThen(script, middle, rest);
      if stopped {
        ExplainsMore(script, middle, rest, result);
        return;
      }
      if offset == |current| && |current| != 0 {
        Complete();
      }
      result := if |current| == 0 then Drained else Blocked;
    }
  }

  lemma {:induction false} PieceExtends(base: Bytes, frame: Bytes, from: nat, to: nat)
    requires from <= to <= |frame|
    ensures (base + frame[..from]) + frame[from..to] == base + frame[..to]
  {
  }

  /** At every moment the bytes written are a prefix of the frames joined by commas. */
  lemma {:induction false} WrittenIsPrefix(o: Output)
    requires o.Valid()
    ensures o.Out <= Join(o.Done + if o.current == [] then [] else [o.current])
  {
    var all := o.Done + [o.current];
    assert all[..|all| - 1] == o.Done;
    if o.current == [] {
      assert o.Done + [] == o.Done;
    } else {
      assert o.current[..o.offset] <= o.current;
      if !o.prefixWritten {
        assert o.offset == 0 || o.Done == [];
      }
    }
  }
}
