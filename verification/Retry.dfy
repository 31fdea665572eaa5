/** Bounded retries with exponential back-off (peer/retry.c). */
module Retry {
  import opened Arithmetic
  import opened Common
  import opened Words

  /** The counters; both are eight bits wide. */
  datatype Counters = Counters(timeout: nat, maxRetries: uint8, numRetries: uint8)

  /** The callback that runs last in a step, and for a retry the timeout set before it. */
  datatype Action = Again(wait: nat) | Stop | Nothing

  function Init(timeout: nat): Counters {
    Counters(timeout, 0, 0)
  }

  function Next(r: Counters): (Counters, Action) {
    if r.numRetries < r.maxRetries then
      (r.(numRetries := r.numRetries + 1), Again(r.timeout * Pow2(r.numRetries)))
    else if r.numRetries == r.maxRetries then
      (r.(numRetries := (r.numRetries + 1) % 0x100), Stop)
    else
      (r, Nothing)
  }

  function Start(r: Counters, maxRetries: uint8): (Counters, Action) {
    Next(r.(numRetries := 0, maxRetries := maxRetries))
  }

  function Process(r: Counters, expired: bool): (Counters, Action) {
    if r.numRetries <= r.maxRetries && expired then Next(r) else (r, Nothing)
  }

  /** The timer itself. A callback is the last thing a step does, so each method returns which one to run;
      a stop callback that starts the timer again is a call of Start after the step. */
  class Timer {
    var counters: Counters
    /** The timeout the event timer was last set to, if it has not been stopped since. */
    var running: bool
    var wait: nat

    constructor (timeout: nat)
      ensures counters == Init(timeout) && !running
    {
      counters, running, wait := Init(timeout), false, 0;
    }

    method StepNext() returns (action: Action)
      modifies this
      ensures (counters, action) == Next(old(counters))
      ensures action.Again? ==> running && wait == action.wait
      ensures action.Stop? ==> !running
      ensures action.Nothing? ==> running == old(running) && wait == old(wait)
    {
      if counters.numRetries < counters.maxRetries {
        running, wait := true, counters.timeout * Pow2(counters.numRetries);
        counters := counters.(numRetries := counters.numRetries + 1);
        action := Again(wait);
      } else if counters.numRetries == counters.maxRetries {
        counters := counters.(numRetries := (counters.numRetries + 1) % 0x100);
        running := false;
        action := Stop;
      } else {
        action := Nothing;
      }
    }

    method Restart(maxRetries: uint8) returns (action: Action)
      modifies this
      ensures (counters, action) == Start(old(counters), maxRetries)
      ensures running <==> action.Again?
      ensures action.Again? ==> wait == action.wait
    {
      counters := counters.(numRetries := 0, maxRetries := maxRetries);
      action := StepNext();
    }

    method Tick(expired: bool) returns (action: Action)
      modifies this
      ensures (counters, action) == Process(old(counters), expired)
      ensures action.Again? ==> running && wait == action.wait
      ensures action.Stop? ==> !running
      ensures action.Nothing? ==> running == old(running) && wait == old(wait)
    {
      if counters.numRetries <= counters.maxRetries && expired {
        action := StepNext();
      } else {
        action := Nothing;
      }
    }
  }

  // Runs between two starts

  /** The callbacks of a run of timer checks, in order. */
  ghost function Run(r: Counters, ticks: seq<bool>): (trace: seq<Action>)
    ensures |trace| == |ticks|
    decreases |ticks|
  {
    if ticks == [] then [] else [Process(r, ticks[0]).1] + Run(Process(r, ticks[0]).0, ticks[1..])
  }

  /** The callbacks from one start up to the next. */
  ghost function Episode(r: Counters, maxRetries: uint8, ticks: seq<bool>): seq<Action> {
    [Start(r, maxRetries).1] + Run(Start(r, maxRetries).0, ticks)
  }

  ghost function Agains(trace: seq<Action>): nat {
    if trace == [] then 0 else (if trace[0].Again? then 1 else 0) + Agains(trace[1..])
  }

  ghost function Stops(trace: seq<Action>): nat {
    if trace == [] then 0 else (if trace[0].Stop? then 1 else 0) + Stops(trace[1..])
  }

  ghost function Waits(trace: seq<Action>): nat {
    if trace == [] then 0 else (if trace[0].Again? then trace[0].wait else 0) + Waits(trace[1..])
  }

  /** Nothing but stops and idle steps from position k on. */
  ghost predicate Quiet(trace: seq<Action>, k: nat) {
    forall i :: k <= i < |trace| ==> !trace[i].Again?
  }

  /** From any counter value: the remaining retries, their total wait, and the stop only after all of them. */
  lemma {:induction false} RunBounds(r: Counters, ticks: seq<bool>)
    requires r.maxRetries < 0xFF && r.numRetries <= r.maxRetries + 1
    ensures var trace := Run(r, ticks);
            && r.numRetries + Agains(trace) <= r.maxRetries + (if r.numRetries > r.maxRetries then 1 else 0)
            && Waits(trace) == r.timeout * (Pow2(r.numRetries + Agains(trace)) - Pow2(r.numRetries))
            && Stops(trace) <= (if r.numRetries <= r.maxRetries then 1 else 0)
            && (Stops(trace) == 1 ==> r.numRetries + Agains(trace) == r.maxRetries)
            && (r.numRetries > r.maxRetries ==> Agains(trace) == 0)
    decreases |ticks|
  {
    if ticks != [] {
      var (r', action) := Process(r, ticks[0]);
      RunBounds(r', ticks[1..]);
      var rest := Run(r', ticks[1..]);
      assert Run(r, ticks)[1..] == rest;
      if action.Again? {
        var n := r.numRetries;
        Distribute(r.timeout, Pow2(n + 1 + Agains(rest)) - Pow2(n + 1), Pow2(n));
      }
    }
  }

  /** No retry follows a stop. */
  lemma {:induction false} StopIsLast(r: Counters, ticks: seq<bool>, k: nat)
    requires r.maxRetries < 0xFF && r.numRetries <= r.maxRetries + 1
    requires k < |ticks| && Run(r, ticks)[k].Stop?
    ensures Quiet(Run(r, ticks), k)
    decreases |ticks|
  {
    var (r', action) := Process(r, ticks[0]);
    var rest := Run(r', ticks[1..]);
    assert Run(r, ticks) == [action] + rest;
    if k == 0 {
      Silent(r', ticks[1..]);
    } else {
      assert rest[k - 1].Stop?;
      StopIsLast(r', ticks[1..], k - 1);
      forall i | k <= i < |Run(r, ticks)| ensures !Run(r, ticks)[i].Again? {
        assert Run(r, ticks)[i] == rest[i - 1];
      }
    }
  }

  lemma {:induction false} Silent(r: Counters, ticks: seq<bool>)
    requires r.numRetries > r.maxRetries
    ensures Quiet(Run(r, ticks), 0) && Stops(Run(r, ticks)) == 0
    decreases |ticks|
  {
    if ticks != [] {
      Silent(r, ticks[1..]);
      assert Run(r, ticks) == [Nothing] + Run(r, ticks[1..]);
    }
  }

  /** Between two starts: at most maxRetries retries and one stop, the stop after all of them,
      and waits that add up to timeout * (2^n - 1) after n retries. */
  lemma EpisodeBounds(r: Counters, maxRetries: uint8, ticks: seq<bool>)
    requires maxRetries < 0xFF
    ensures var trace := Episode(r, maxRetries, ticks);
            && Agains(trace) <= maxRetries && Stops(trace) <= 1
            && (Stops(trace) == 1 ==> Agains(trace) == maxRetries)
            && Waits(trace) == r.timeout * (Pow2(Agains(trace)) - 1)
  {
    var (r', action) := Start(r, maxRetries);
    RunBounds(r', ticks);
    var rest := Run(r', ticks);
    assert Episode(r, maxRetries, ticks)[1..] == rest;
    if action.Again? {
      Distribute(r.timeout, Pow2(1 + Agains(rest)) - Pow2(1), Pow2(0));
    }
  }

  ghost function Expiries(ticks: seq<bool>): nat {
    if ticks == [] then 0 else (if ticks[0] then 1 else 0) + Expiries(ticks[1..])
  }

  /** From counters n of m, e expiries make min(e, m - n) retries, and the stop if there is one more. */
  lemma {:induction false} RunCounts(r: Counters, ticks: seq<bool>)
    requires r.maxRetries < 0xFF && r.numRetries <= r.maxRetries
    ensures var trace, left := Run(r, ticks), r.maxRetries - r.numRetries;
            && Agains(trace) == Min(Expiries(ticks), left)
            && Stops(trace) == if Expiries(ticks) > left then 1 else 0
    decreases |ticks|
  {
    if ticks != [] {
      var (r', action) := Process(r, ticks[0]);
      assert Run(r, ticks)[1..] == Run(r', ticks[1..]);
      if action.Stop? {
        Silent(r', ticks[1..]);
        NoAgain(Run(r', ticks[1..]));
      } else {
        RunCounts(r', ticks[1..]);
      }
    }
  }

  lemma {:induction false} NoAgain(trace: seq<Action>)
    requires Quiet(trace, 0)
    ensures Agains(trace) == 0
  {
    if trace != [] {
      assert forall i :: 0 <= i < |trace| - 1 ==> trace[1..][i] == trace[i + 1];
      NoAgain(trace[1..]);
    }
  }

  /** Between two starts: the first try at once, one more for every expiry up to the limit, and then the stop. */
  lemma EpisodeCounts(r: Counters, maxRetries: uint8, ticks: seq<bool>)
    requires 0 < maxRetries < 0xFF
    ensures var trace := Episode(r, maxRetries, ticks);
            && Agains(trace) == Min(1 + Expiries(ticks), maxRetries)
            && Stops(trace) == if Expiries(ticks) >= maxRetries then 1 else 0
  {
    var (r', action) := Start(r, maxRetries);
    RunCounts(r', ticks);
    assert Episode(r, maxRetries, ticks)[1..] == Run(r', ticks);
  }

  ghost function Expired(n: nat): (r: seq<bool>)
    ensures |r| == n
  {
    seq(n, i => true)
  }

  /** n expirations from an unfinished episode: all of them retries as long as any are left. */
  lemma {:induction false} AllAgain(r: Counters, n: nat, rest: seq<bool>)
    requires r.numRetries + n <= r.maxRetries
    ensures Stops(Run(r, Expired(n) + rest)) == Stops(Run(r.(numRetries := r.numRetries + n), rest))
    decreases n
  {
    if n == 0 {
      assert Expired(0) + rest == rest;
      assert r.(numRetries := r.numRetries) == r;
    } else {
      var ticks := Expired(n) + rest;
      assert ticks[1..] == Expired(n - 1) + rest;
      AllAgain(r.(numRetries := r.numRetries + 1), n - 1, rest);
      assert Run(r, ticks)[1..] == Run(r.(numRetries := r.numRetries + 1), ticks[1..]);
    }
  }

  /** With the largest limit the counter wraps to zero on a stop, and the episode starts over. */
  lemma WrapStopsTwice(r: Counters)
    ensures Stops(Episode(r, 0xFF, Expired(255) + [true] + Expired(255) + [true])) > 1
  {
    var r1 := r.(numRetries := 1, maxRetries := 0xFF);
    var tail := Expired(255) + [true];
    assert Expired(255) + [true] + Expired(255) + [true] == Expired(254) + ([true, true] + tail);
    var rest := [true, true] + tail;
    AllAgain(r1, 254, rest);
    var r255 := r.(numRetries := 255, maxRetries := 0xFF);
    var r0 := r.(numRetries := 0, maxRetries := 0xFF);
    assert rest[1..] == [true] + tail;
    assert Run(r255, rest)[1..] == Run(r0, [true] + tail);
    assert [true] + tail == Expired(255) + [true, true];
    AllAgain(r0, 255, [true, true]);
    assert Run(r255, [true, true])[0].Stop?;
    assert Episode(r, 0xFF, Expired(254) + rest)[1..] == Run(r1, Expired(254) + rest);
  }

  /** The stop callback runs at most once between two starts exactly if the limit is below 255. */
  lemma StopsOnceIff(r: Counters, maxRetries: uint8)
    ensures (forall ticks :: Stops(Episode(r, maxRetries, ticks)) <= 1) <==> maxRetries < 0xFF
  {
    if maxRetries < 0xFF {
      forall ticks ensures Stops(Episode(r, maxRetries, ticks)) <= 1 {
        EpisodeBounds(r, maxRetries, ticks);
      }
    } else {
      WrapStopsTwice(r);
    }
  }
}
