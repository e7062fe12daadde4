/** The virtual-time render limiter, and the token bucket it stands for. */
module RenderLimiters {
  // One credit refills in 50 ms; the bucket holds eight.
  const REFILL: nat := 50_000_000
  const SLACK: nat := 350_000_000
  const FULL: nat := 400_000_000
  const UINT64_END: nat := 0x1_0000_0000_0000_0000

  function Later(a: nat, b: nat): nat {
    if a < b then b else a
  }

  function Deadline(virtualTime: nat): nat {
    if virtualTime > SLACK then virtualTime - SLACK else 0
  }

  function Recorded(virtualTime: nat, now: nat): nat {
    (Later(virtualTime, now) + REFILL) % UINT64_END
  }

  class RenderLimiter {
    var virtualTime: nat

    constructor ()
      ensures virtualTime == 0
    {
      virtualTime := 0;
    }

    method Record(now: nat)
      requires now < UINT64_END && virtualTime < UINT64_END
      modifies this
      ensures virtualTime == Recorded(old(virtualTime), now) < UINT64_END
    {
      if virtualTime < now {
        virtualTime := now;
      }
      virtualTime := (virtualTime + REFILL) % UINT64_END;
    }
  }

  /** The reference bucket: its level, in nanoseconds of refill, at some time. */
  datatype Bucket = Bucket(level: int, at: nat)

  function Refilled(bucket: Bucket, now: nat): Bucket
    requires bucket.at <= now
  {
    var level := bucket.level + now - bucket.at;
    Bucket(if level > FULL then FULL else level, now)
  }

  function Spent(bucket: Bucket): Bucket {
    bucket.(level := bucket.level - REFILL)
  }

  /** A render is due when a whole credit is there. */
  predicate Affords(bucket: Bucket) {
    bucket.level >= REFILL
  }

  /** The bucket that a virtual time stands for. */
  function Meaning(virtualTime: nat, now: nat): Bucket {
    Bucket(if virtualTime > now then FULL - (virtualTime - now) else FULL, now)
  }

  /** Idle time refills the meaning exactly as it refills a bucket, up to eight credits. */
  lemma {:induction false} IdleRefills(virtualTime: nat, since: nat, now: nat)
    requires since <= now
    ensures Meaning(virtualTime, now) == Refilled(Meaning(virtualTime, since), now)
    ensures Meaning(virtualTime, now).level <= FULL
  {
  }

  lemma {:induction false} DeadlineIsAffordable(virtualTime: nat, now: nat)
    ensures Deadline(virtualTime) <= now <==> Affords(Meaning(virtualTime, now))
  {
  }

  /** Recording a render spends exactly one credit, unless the 64-bit virtual time wraps. */
  lemma {:induction false} RecordSpends(virtualTime: nat, now: nat)
    requires virtualTime < UINT64_END && now < UINT64_END && Deadline(virtualTime) <= now
    ensures Meaning(Recorded(virtualTime, now), now) == Spent(Meaning(virtualTime, now))
      <==> Later(virtualTime, now) + REFILL < UINT64_END
  {
    var sum := Later(virtualTime, now) + REFILL;
    if sum < UINT64_END {
      assert sum % UINT64_END == sum;
    } else {
      assert sum % UINT64_END == sum - UINT64_END;
    }
  }

  /** After a permitted render the next one is allowed no later than 50 ms after it. */
  lemma {:induction false} NextWithinRefill(virtualTime: nat, now: nat)
    requires virtualTime < UINT64_END && now < UINT64_END && Deadline(virtualTime) <= now
    ensures Deadline(Recorded(virtualTime, now)) <= now + REFILL
  {
    var sum := Later(virtualTime, now) + REFILL;
    if sum < UINT64_END {
      assert sum % UINT64_END == sum;
    } else {
      assert sum % UINT64_END == sum - UINT64_END;
    }
  }

  // ---- Runs of permitted renders ----

  /** The virtual time before each render of a run. */
  ghost function After(start: nat, times: seq<nat>): nat {
    if times == [] then start else Recorded(After(start, times[..|times| - 1]), times[|times| - 1])
  }

  /** Renders at nondecreasing times, each at or past its deadline. */
  ghost predicate Allowed(start: nat, times: seq<nat>) {
    times != [] ==>
      var last := |times| - 1;
      && Allowed(start, times[..last]) && (last > 0 ==> times[last - 1] <= times[last])
      && Deadline(After(start, times[..last])) <= times[last]
  }

  /** The 64-bit virtual time does not wrap. */
  ghost predicate Unwrapped(start: nat, times: seq<nat>) {
    times != [] ==>
      var last := |times| - 1;
      && Unwrapped(start, times[..last])
      && Later(After(start, times[..last]), times[last]) + REFILL < UINT64_END
  }

  ghost predicate Permitted(start: nat, times: seq<nat>) {
    Allowed(start, times) && Unwrapped(start, times)
  }

  lemma {:induction false} AllowedMore(start: nat, times: seq<nat>, now: nat)
    requires Allowed(start, times) && Deadline(After(start, times)) <= now
    requires times != [] ==> times[|times| - 1] <= now
    ensures Allowed(start, times + [now]) && After(start, times + [now]) == Recorded(After(start, times), now)
  {
    assert (times + [now])[..|times|] == times;
  }

  /** Nothing wraps up to a render 400 ms before the end of 64-bit time. */
  lemma {:induction false} EarlyIsPermitted(start: nat, times: seq<nat>, n: nat)
    requires Allowed(start, times) && n <= |times| && (n > 0 ==> times[n - 1] + FULL < UINT64_END)
    ensures Permitted(start, times[..n])
    decreases |times|
  {
    if n < |times| {
      EarlyIsPermitted(start, times[..|times| - 1], n);
      assert times[..|times| - 1][..n] == times[..n];
    } else if n > 0 {
      assert times[..n] == times;
      EarlyIsPermitted(start, times[..n - 1], n - 1);
      assert times[..n - 1][..n - 1] == times[..n - 1];
    }
  }

  lemma {:induction false} DebtGrows(start: nat, times: seq<nat>, i: nat)
    requires Permitted(start, times) && i < |times|
    ensures After(start, times) >= times[i] + (|times| - i) * REFILL
    ensures forall j | i <= j < |times| :: times[i] <= times[j]
  {
    var last := |times| - 1;
    assert After(start, times) == Later(After(start, times[..last]), times[last]) + REFILL;
    if i < last {
      DebtGrows(start, times[..last], i);
    }
  }

  /** Before the end of 64-bit time, any n renders in a row span at least n - 8 refill intervals. */
  ghost predicate Spaced(times: seq<nat>) {
    forall i, j | 0 <= i <= j < |times| && times[j] + FULL < UINT64_END ::
      times[j] - times[i] >= (j - i + 1 - 8) * REFILL
  }

  lemma {:induction false} AllowedIsSpaced(start: nat, times: seq<nat>)
    requires Allowed(start, times)
    ensures Spaced(times)
  {
    forall i, j | 0 <= i <= j < |times| && times[j] + FULL < UINT64_END
      ensures times[j] - times[i] >= (j - i + 1 - 8) * REFILL
    {
      EarlyIsPermitted(start, times, j + 1);
      RendersAreSpaced(start, times[..j + 1], i, j + 1 - i);
    }
  }

  /** Over any run, n consecutive renders span at least (n - 8) refill intervals. */
  lemma {:induction false} RendersAreSpaced(start: nat, times: seq<nat>, i: nat, n: nat)
    requires Permitted(start, times) && n > 0 && i + n <= |times|
    ensures times[i + n - 1] - times[i] >= (n - 8) * REFILL
    decreases |times|
  {
    if i + n < |times| {
      RendersAreSpaced(start, times[..|times| - 1], i, n);
    } else if n > 1 {
      DebtGrows(start, times[..|times| - 1], i);
    }
  }
}
