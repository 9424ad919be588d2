/** The busy handler's retry schedule. Durations and instants are nanoseconds. */
module BusySchedule {
  import opened Common

  type int32 = n: int | -0x8000_0000 <= n < 0x8000_0000

  const MILLI: nat := 1_000_000

  const DELAYS: seq<nat> := [1, 2, 5, 10, 15, 20, 25, 25, 25, 50, 50, 100]
  const TOTALS: seq<nat> := [0, 1, 3, 8, 18, 33, 53, 78, 103, 128, 178, 228]

  datatype Handler = NoHandler | Timeout(maxDuration: nat) | Custom(callback: int32 -> int32)

  // ---------------------------------------------------------------- the schedule

  /** The full delay of retry `i`, before any cut to the time left. */
  function FullDelay(i: nat): nat
  {
    DELAYS[if i < 11 then i else 11] * MILLI
  }

  /** The full delays of the first `n` retries together. */
  function Elapsed(n: nat): nat
  {
    if n == 0 then 0 else Elapsed(n - 1) + FullDelay(n - 1)
  }

  /** The delay granted to retry `i`; zero when it is refused. */
  function Grant(maxDuration: nat, i: nat): nat
  {
    if Elapsed(i) >= maxDuration then 0 else Min(FullDelay(i), maxDuration - Elapsed(i))
  }

  lemma {:induction false} ElapsedClosedForm(n: nat)
    ensures n <= 11 ==> Elapsed(n) == TOTALS[n] * MILLI
    ensures n >= 11 ==> Elapsed(n) == 228 * MILLI + 100 * MILLI * (n - 11)
  {
    if n > 0 {
      ElapsedClosedForm(n - 1);
    }
  }

  /** The handler's fields as a value. */
  datatype Busy = Busy(invocationCount: int, timeout: nat, iteration: nat)

  /** One invocation of a timeout handler; a refusal changes nothing. */
  function TimeoutStep(maxDuration: nat, now: nat, b: Busy): (Busy, bool)
  {
    var d := Grant(maxDuration, b.iteration);
    if d == 0 then (b, false) else (Busy(b.invocationCount + 1, now + d, b.iteration + 1), true)
  }

  /** The next invocation leaves no type: neither the cast of the iteration nor the count. */
  predicate InRange(maxDuration: nat, b: Busy)
  {
    b.iteration < 0x1_0000_0000 && (Grant(maxDuration, b.iteration) > 0 ==> b.invocationCount < 0x7FFF_FFFF)
  }

  /** One invocation of any handler; a custom callback is asked with the count before it. */
  function Step(handler: Handler, now: nat, b: Busy): (Busy, bool)
    requires -0x8000_0000 <= b.invocationCount < 0x8000_0000
  {
    match handler
    case NoHandler => (b, false)
    case Timeout(max) => TimeoutStep(max, now, b)
    case Custom(callback) =>
      var retry := callback(b.invocationCount) != 0;
      (Busy(b.invocationCount + 1, if retry then now + MILLI else b.timeout, b.iteration), retry)
  }

  class BusyHandlerState {
    var invocationCount: int32
    var timeout: nat
    var iteration: nat

    ghost function View(): (b: Busy)
      reads this
      ensures -0x8000_0000 <= b.invocationCount < 0x8000_0000
    {
      Busy(invocationCount, timeout, iteration)
    }

    constructor (now: nat)
      ensures View() == Busy(0, now, 0)
    {
      invocationCount, timeout, iteration := 0, now, 0;
    }

    method Reset(now: nat)
      modifies this
      ensures View() == Busy(0, now, 0)
    {
      invocationCount, timeout, iteration := 0, now, 0;
    }

    /** The iteration must survive its cast to 32 bits, and a granted retry must not overflow the count. */
    method InvokeTimeout(maxDuration: nat, now: nat) returns (retry: bool)
      requires InRange(maxDuration, View())
      modifies this
      ensures (View(), retry) == TimeoutStep(maxDuration, now, old(View()))
    {
      hide Elapsed;
      var idx := if iteration < 11 then iteration else 11;
      var delay, prior := DELAYS[idx] * MILLI, TOTALS[idx] * MILLI;
      if iteration >= 12 {
        var cast: uint32 := iteration % 0x1_0000_0000; // `as u32`
        prior := prior + delay * (cast - 11);
      }
      assert prior == Elapsed(iteration) by {
        ElapsedClosedForm(iteration);
      }
      if prior + delay > maxDuration {
        delay := if maxDuration >= prior then maxDuration - prior else 0; // `saturating_sub`
        if delay == 0 {
          return false;
        }
      }
      iteration := iteration + 1;
      invocationCount := invocationCount + 1;
      timeout := now + delay;
      retry := true;
    }

    method Invoke(handler: Handler, now: nat) returns (retry: bool)
      requires handler.Timeout? ==> InRange(handler.maxDuration, View())
      requires handler.Custom? ==> invocationCount < 0x7FFF_FFFF
      modifies this
      ensures (View(), retry) == Step(handler, now, old(View()))
    {
      hide Elapsed;
      match handler {
        case NoHandler => retry := false;
        case Timeout(max) => retry := InvokeTimeout(max, now);
        case Custom(callback) =>
          var result := callback(invocationCount);
          invocationCount := invocationCount + 1;
          retry := result != 0;
          if retry {
            timeout := now + MILLI;
          }
      }
    }

    /** The time left until the timeout; zero once it has passed. */
    method GetDelay(now: nat) returns (d: nat)
      ensures now < timeout ==> now + d == timeout
      ensures now >= timeout ==> d == 0
    {
      d := if now >= timeout then 0 else timeout - now;
    }
  }

  // ---------------------------------------------------------------- whole runs

  /** A counter in use is one whose retry was granted, so it is below the bound on retries. */
  lemma CounterFits(maxDuration: nat, i: nat)
    requires maxDuration <= Elapsed(0x7FFF_FFFF) && i < 0x8000_0000
    ensures Grant(maxDuration, i) > 0 ==> i < 0x7FFF_FFFF
  {
  }

  /** The iteration counter after `n` invocations of one timeout handler from a fresh state. */
  function CounterAfter(maxDuration: nat, n: nat): nat
  {
    if n == 0 then 0
    else
      var i := CounterAfter(maxDuration, n - 1);
      if Grant(maxDuration, i) > 0 then i + 1 else i
  }

  /** The delays granted by those invocations, together. */
  function Waited(maxDuration: nat, n: nat): nat
  {
    if n == 0 then 0 else Waited(maxDuration, n - 1) + Grant(maxDuration, CounterAfter(maxDuration, n - 1))
  }

  /**
   The delays granted by the first `n` invocations add up to the schedule's, cut at `maxDuration`:
   exactly `maxDuration` once an invocation is refused; a refusal comes exactly when that much has
   been waited, and is final.
   */
  lemma {:induction false} WaitsExactlyMax(maxDuration: nat, n: nat)
    ensures Waited(maxDuration, n) == Min(Elapsed(CounterAfter(maxDuration, n)), maxDuration)
    ensures Grant(maxDuration, CounterAfter(maxDuration, n)) == 0 <==> Waited(maxDuration, n) == maxDuration
    ensures Grant(maxDuration, CounterAfter(maxDuration, n)) == 0 ==>
              forall m :: m >= n ==> CounterAfter(maxDuration, m) == CounterAfter(maxDuration, n)
                                     && Waited(maxDuration, m) == maxDuration
  {
    hide Grant, Elapsed;
    GrantAdvances(maxDuration, CounterAfter(maxDuration, n));
    if n > 0 {
      WaitsExactlyMax(maxDuration, n - 1);
      GrantAdvances(maxDuration, CounterAfter(maxDuration, n - 1));
    } else {
      NothingElapsed();
    }
    if Grant(maxDuration, CounterAfter(maxDuration, n)) == 0 {
      forall m | m >= n
        ensures CounterAfter(maxDuration, m) == CounterAfter(maxDuration, n) && Waited(maxDuration, m) == Waited(maxDuration, n)
      {
        RefusesForever(maxDuration, n, m);
      }
    }
  }

  lemma NothingElapsed()
    ensures Elapsed(0) == 0
  {
  }

  /** A grant brings the wait to the end of the next full delay, or to the maximum. */
  lemma GrantAdvances(maxDuration: nat, i: nat)
    ensures Grant(maxDuration, i) == 0 <==> Elapsed(i) >= maxDuration
    ensures Grant(maxDuration, i) > 0 ==> Elapsed(i) + Grant(maxDuration, i) == Min(Elapsed(i + 1), maxDuration)
    ensures Elapsed(i) < Elapsed(i + 1)
  {
  }

  lemma {:induction false} RefusesForever(maxDuration: nat, n: nat, m: nat)
    requires n <= m && Grant(maxDuration, CounterAfter(maxDuration, n)) == 0
    ensures CounterAfter(maxDuration, m) == CounterAfter(maxDuration, n) && Waited(maxDuration, m) == Waited(maxDuration, n)
    decreases m
  {
    hide Grant;
    if n < m {
      RefusesForever(maxDuration, n, m - 1);
    }
  }

  /** Some invocation is refused. */
  lemma {:induction false} EventuallyRefuses(maxDuration: nat, n: nat) returns (m: nat)
    requires CounterAfter(maxDuration, n) == n
    ensures Grant(maxDuration, CounterAfter(maxDuration, m)) == 0
    decreases maxDuration - Elapsed(n)
  {
    hide Grant, Elapsed;
    m := n;
    GrantAdvances(maxDuration, n);
    if Grant(maxDuration, n) > 0 {
      m := EventuallyRefuses(maxDuration, n + 1);
    }
  }

  /** While time is left, every invocation so far was granted. */
  lemma {:induction false} CountsUp(maxDuration: nat, n: nat)
    requires Elapsed(n) < maxDuration
    ensures CounterAfter(maxDuration, n) == n
  {
    hide Grant, Elapsed;
    if n > 0 {
      GrantAdvances(maxDuration, n - 1);
      CountsUp(maxDuration, n - 1);
    }
  }

  /** The invocation counter overflows its 32 bits in some run exactly when 2^31 retries fit in the timeout. */
  lemma OverflowIff(maxDuration: nat)
    ensures (exists n :: CounterAfter(maxDuration, n) == 0x7FFF_FFFF && Grant(maxDuration, CounterAfter(maxDuration, n)) > 0)
       <==> maxDuration > Elapsed(0x7FFF_FFFF)
  {
    hide Grant, Elapsed, CounterAfter;
    GrantAdvances(maxDuration, 0x7FFF_FFFF);
    if maxDuration > Elapsed(0x7FFF_FFFF) {
      CountsUp(maxDuration, 0x7FFF_FFFF);
    }
  }

  /** The fields after invocations at the given instants. */
  function Invocations(maxDuration: nat, nows: seq<nat>, b: Busy): Busy
  {
    if nows == [] then b
    else TimeoutStep(maxDuration, nows[|nows| - 1], Invocations(maxDuration, nows[..|nows| - 1], b)).0
  }

  /** From a fresh state both counters count the granted invocations, at whatever instants they come. */
  lemma {:induction false} CountersAgree(maxDuration: nat, nows: seq<nat>, start: nat)
    ensures var b := Invocations(maxDuration, nows, Busy(0, start, 0));
            b.iteration == b.invocationCount == CounterAfter(maxDuration, |nows|)
  {
    hide Grant;
    if nows != [] {
      CountersAgree(maxDuration, nows[..|nows| - 1], start);
    }
  }

  /** From a fresh state, while fewer than 2^31 retries fit in the timeout, no invocation ever leaves its types. */
  lemma NeverOverflows(maxDuration: nat, nows: seq<nat>, start: nat)
    requires maxDuration <= Elapsed(0x7FFF_FFFF)
    ensures InRange(maxDuration, Invocations(maxDuration, nows, Busy(0, start, 0)))
  {
    CountersAgree(maxDuration, nows, start);
    CounterBelow(maxDuration, |nows|);
    CounterFits(maxDuration, CounterAfter(maxDuration, |nows|));
  }

  lemma {:induction false} CounterBelow(maxDuration: nat, n: nat)
    requires maxDuration <= Elapsed(0x7FFF_FFFF)
    ensures CounterAfter(maxDuration, n) < 0x8000_0000
  {
    hide Grant;
    if n > 0 {
      CounterBelow(maxDuration, n - 1);
      CounterFits(maxDuration, CounterAfter(maxDuration, n - 1));
    }
  }

  // ---------------------------------------------------------------- the delays a caller gets

  function Sum(xs: seq<nat>): nat
  {
    if xs == [] then 0 else Sum(xs[..|xs| - 1]) + xs[|xs| - 1]
  }

  /** After a grant the timeout lies ahead by exactly what the schedule and the time left allow. */
  lemma GrantSetsTimeout(maxDuration: nat, now: nat, b: Busy)
    ensures var (after, retry) := TimeoutStep(maxDuration, now, b);
            && (retry <==> Elapsed(b.iteration) < maxDuration)
            && (retry ==> after.timeout > now && after.timeout - now == Min(FullDelay(b.iteration), maxDuration - Elapsed(b.iteration)))
            && (retry ==> after.iteration == b.iteration + 1 && Elapsed(b.iteration) + (after.timeout - now) == Min(Elapsed(after.iteration), maxDuration))
            && (!retry ==> after == b)
  {
  }

  /** The waits set by the granted ones of the invocations at `nows`, read from the states they leave. */
  function DelaysSet(maxDuration: nat, nows: seq<nat>, b: Busy): (d: int)
  {
    if nows == [] then 0
    else
      var n := |nows| - 1;
      var before := Invocations(maxDuration, nows[..n], b);
      var (after, retry) := TimeoutStep(maxDuration, nows[n], before);
      DelaysSet(maxDuration, nows[..n], b) + if retry then after.timeout - nows[n] else 0
  }

  /** At whatever instants they come, the waits set before a refusal sum to exactly the maximum, and never to more. */
  lemma {:induction false} DelaysSetSumToMax(maxDuration: nat, nows: seq<nat>, start: nat)
    ensures var (b, d) := (Invocations(maxDuration, nows, Busy(0, start, 0)), DelaysSet(maxDuration, nows, Busy(0, start, 0)));
            && d == Min(Elapsed(b.iteration), maxDuration)
            && forall now: nat :: !TimeoutStep(maxDuration, now, b).1 <==> d == maxDuration
  {
    hide Elapsed, FullDelay;
    var fresh0 := Busy(0, start, 0);
    var b := Invocations(maxDuration, nows, fresh0);
    if nows == [] {
      NothingElapsed();
    } else {
      var n := |nows| - 1;
      DelaysSetSumToMax(maxDuration, nows[..n], start);
      var before := Invocations(maxDuration, nows[..n], fresh0);
      GrantSetsTimeout(maxDuration, nows[n], before);
      GrantAdvances(maxDuration, before.iteration);
    }
    GrantAdvances(maxDuration, b.iteration);
  }

  /** Each delay is the next full one, or what is left of the maximum when that is less. */
  predicate Scheduled(delays: seq<nat>, maxDuration: nat)
  {
    delays == []
    || (var n := |delays| - 1;
        && Scheduled(delays[..n], maxDuration) && Sum(delays[..n]) < maxDuration
        && delays[n] == Min(FullDelay(n), maxDuration - Sum(delays[..n])))
  }

  /**
   A statement retrying under one timeout, asking for the delay right after each grant: it is told to
   wait 1, 2, 5, 10, 15, 20, 25, 25, 25, 50, 50 and then 100 milliseconds at a time, the last wait cut
   so that all of them make up the timeout, and is then refused.
   */
  method RetryLoop(maxDuration: nat, start: nat, nows: seq<nat>) returns (delays: seq<nat>, refused: bool)
    requires maxDuration <= Elapsed(0x7FFF_FFFF)
    ensures |delays| <= |nows| && (!refused ==> |delays| == |nows|)
    ensures Scheduled(delays, maxDuration) && Sum(delays) <= maxDuration && (refused ==> Sum(delays) == maxDuration)
    ensures refused ==> |delays| < |nows|
  {
    hide Elapsed, FullDelay, Grant, TimeoutStep, InRange;
    var state := new BusyHandlerState(start);
    delays, refused := [], false;
    NothingElapsed();
    for n := 0 to |nows|
      invariant |delays| == n && state.View() == Invocations(maxDuration, nows[..n], Busy(0, start, 0))
      invariant state.View().iteration == n && Sum(delays) == Min(Elapsed(n), maxDuration)
      invariant Scheduled(delays, maxDuration)
    {
      NeverOverflows(maxDuration, nows[..n], start);
      GrantSetsTimeout(maxDuration, nows[n], state.View());
      GrantAdvances(maxDuration, n);
      assert nows[..n + 1][..n] == nows[..n];
      var retry := state.Invoke(Timeout(maxDuration), nows[n]);
      if !retry {
        return delays, true;
      }
      var d := state.GetDelay(nows[n]);
      assert (delays + [d])[..n] == delays;
      delays := delays + [d];
    }
  }

  /** A custom handler is asked with 0, 1, 2 and so on; it retries a millisecond later exactly when it answers other than zero. */
  method CustomLoop(callback: int32 -> int32, start: nat, nows: seq<nat>) returns (delays: seq<nat>, refused: bool)
    requires |nows| < 0x8000_0000
    ensures |delays| <= |nows| && (!refused ==> |delays| == |nows|) && (refused ==> |delays| < |nows|)
    ensures forall i :: 0 <= i < |delays| ==> callback(i) != 0 && delays[i] == 1_000_000
    ensures refused ==> callback(|delays|) == 0
  {
    var state := new BusyHandlerState(start);
    delays, refused := [], false;
    for n := 0 to |nows|
      invariant |delays| == n && state.View().invocationCount == n
      invariant forall i :: 0 <= i < n ==> callback(i) != 0 && delays[i] == 1_000_000
    {
      var retry := state.Invoke(Custom(callback), nows[n]);
      if !retry {
        return delays, true;
      }
      var d := state.GetDelay(nows[n]);
      delays := delays + [d];
    }
  }

  /** Without a handler nothing is retried; a custom handler's refusal leaves the timeout as it was. */
  lemma OtherHandlers(callback: int32 -> int32, now: nat, b: Busy)
    requires -0x8000_0000 <= b.invocationCount < 0x8000_0000
    ensures Step(NoHandler, now, b) == (b, false)
    ensures callback(b.invocationCount) == 0 ==> Step(Custom(callback), now, b) == (b.(invocationCount := b.invocationCount + 1), false)
  {
  }
}
