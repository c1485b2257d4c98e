/**
 * `SimpleSlidingWindow` of api/rate_limiter.py: one global queue of admission
 * times; a call first drops the times at least a window old, then admits when
 * fewer than `per_min` remain. The clock is a parameter: `now` stands for the
 * `time.time()` of the call.
 */
module RateLimiter {

  /** The window length, in seconds. */
  const WindowSeconds: int := 60

  /** The capacity `len(self.deque) < self.per_min` allows: a limit below 1 admits nothing. */
  function Capacity(perMin: int): nat {
    if perMin > 0 then perMin else 0
  }

  /** The purge loop: drop times from the front while the front is at or before `cutoff`. */
  function Purge(q: seq<real>, cutoff: real): (r: seq<real>)
    ensures |r| <= |q| && r == q[|q| - |r|..]
    ensures r != [] ==> r[0] > cutoff
    ensures forall k :: 0 <= k < |q| - |r| ==> q[k] <= cutoff
  {
    if q != [] && q[0] <= cutoff then Purge(q[1..], cutoff) else q
  }

  /** What one call returns: `(allowed, remaining)`. */
  datatype Decision = Decision(allowed: bool, remaining: int)

  /** The queue after one call at `now`, and what the call returns. */
  function Admit(q: seq<real>, perMin: int, now: real): (r: (seq<real>, Decision))
    ensures var p := Purge(q, now - WindowSeconds as real);
      r.1.allowed <==> |p| < perMin
    ensures r.1.allowed ==>
      r.0 == Purge(q, now - WindowSeconds as real) + [now] && r.1.remaining == perMin - |r.0| && r.1.remaining >= 0
    ensures !r.1.allowed ==> r.0 == Purge(q, now - WindowSeconds as real) && r.1.remaining == 0
  {
    var p := Purge(q, now - WindowSeconds as real);
    if |p| < perMin then (p + [now], Decision(true, perMin - (|p| + 1)))
    else (p, Decision(false, 0))
  }

  class SlidingWindow {
    const perMin: int
    const windowSeconds: int
    var q: seq<real>

    /** The queue never holds more admissions than the limit allows. */
    predicate Valid()
      reads this
    {
      windowSeconds == WindowSeconds && |q| <= Capacity(perMin)
    }

    /** A new limiter with the given capacity and an empty queue. */
    constructor(perMin: int)
      ensures this.perMin == perMin && q == []
      ensures Valid()
    {
      this.perMin := perMin;
      windowSeconds := WindowSeconds;
      q := [];
    }

    /** One call at time `now`: purge the old times, then admit when there is room. */
    method Allow(now: real) returns (allowed: bool, remaining: int)
      requires Valid()
      modifies this
      ensures Valid()
      ensures (q, Decision(allowed, remaining)) == Admit(old(q), perMin, now)
    {
      var cutoff := now - windowSeconds as real;
      while q != [] && q[0] <= cutoff
        invariant Purge(q, cutoff) == Purge(old(q), cutoff)
        invariant |q| <= |old(q)|
        decreases |q|
      {
        q := q[1..];
      }
      if |q| < perMin {
        q := q + [now];
        remaining := perMin - |q|;
        allowed := true;
      } else {
        allowed, remaining := false, 0;
      }
    }
  }

  /** The module-level entry point: the key is ignored and the one shared limiter decides. */
  method AllowRequest(limiter: SlidingWindow, key: string, now: real) returns (allowed: bool, remaining: int)
    requires limiter.Valid()
    modifies limiter
    ensures limiter.Valid()
    ensures (limiter.q, Decision(allowed, remaining)) == Admit(old(limiter.q), limiter.perMin, now)
  {
    allowed, remaining := limiter.Allow(now);
  }

  // A run of calls from a fresh limiter.

  /** The queue, every time admitted so far, and every decision, after calls at `times`. */
  datatype History = History(q: seq<real>, admitted: seq<real>, decisions: seq<Decision>)

  /** One more call at `now`. */
  function Step(h: History, perMin: int, now: real): (r: History)
    ensures |r.decisions| == |h.decisions| + 1 && r.decisions[..|h.decisions|] == h.decisions
    ensures r.decisions[|h.decisions|] == Admit(h.q, perMin, now).1
    ensures r.q == Admit(h.q, perMin, now).0
    ensures r.admitted == if Admit(h.q, perMin, now).1.allowed then h.admitted + [now] else h.admitted
  {
    var a := Admit(h.q, perMin, now);
    History(a.0, if a.1.allowed then h.admitted + [now] else h.admitted, h.decisions + [a.1])
  }

  function Replay(perMin: int, times: seq<real>): (h: History)
    ensures |h.decisions| == |times|
    decreases |times|
  {
    if times == [] then History([], [], [])
    else Step(Replay(perMin, times[..|times| - 1]), perMin, times[|times| - 1])
  }

  /** The clock never goes back from one call to the next. */
  predicate NonDecreasing(s: seq<real>) {
    forall i :: 0 < i < |s| ==> s[i - 1] <= s[i]
  }

  /** What a run from a fresh limiter keeps true when the clock never goes back. */
  predicate HistoryInvariant(h: History, perMin: int, last: real) {
    && |h.q| <= |h.admitted| && h.q == h.admitted[|h.admitted| - |h.q|..]
    && |h.q| <= Capacity(perMin)
    && (forall k :: 0 <= k < |h.admitted| - |h.q| ==> h.admitted[k] <= last - WindowSeconds as real)
  }

  lemma StepKeepsInvariant(h: History, perMin: int, last: real, now: real)
    requires HistoryInvariant(h, perMin, last) && last <= now
    ensures HistoryInvariant(Step(h, perMin, now), perMin, now)
  {
    var cutoff := now - WindowSeconds as real;
    var p := Purge(h.q, cutoff);
    var dropped := |h.admitted| - |p|;
    assert p == h.admitted[dropped..];
    forall k | |h.admitted| - |h.q| <= k < dropped
      ensures h.admitted[k] <= cutoff
    {
      assert h.admitted[k] == h.q[k - (|h.admitted| - |h.q|)];
    }
    var r := Step(h, perMin, now);
    if Admit(h.q, perMin, now).1.allowed {
      assert r.q == p + [now] == r.admitted[dropped..];
    }
  }

  /** A run keeps the invariant when the clock never goes back. */
  lemma {:induction false} ReplayKeepsInvariant(perMin: int, times: seq<real>)
    requires NonDecreasing(times) && times != []
    ensures HistoryInvariant(Replay(perMin, times), perMin, times[|times| - 1])
    decreases |times|
  {
    var init := times[..|times| - 1];
    var now := times[|times| - 1];
    assert Replay(perMin, times) == Step(Replay(perMin, init), perMin, now);
    if init == [] {
      StepKeepsInvariant(History([], [], []), perMin, now, now);
    } else {
      assert NonDecreasing(init) by {
        assert forall i :: 0 <= i < |init| ==> init[i] == times[i];
      }
      assert init[|init| - 1] <= now by {
        assert init[|init| - 1] == times[|times| - 2];
      }
      ReplayKeepsInvariant(perMin, init);
      StepKeepsInvariant(Replay(perMin, init), perMin, init[|init| - 1], now);
    }
  }

  /**
   * The sliding-window guarantee: when the clock never goes back, right after
   * any call every admission but the latest `per_min` is at least 60 seconds
   * old, so no more than `per_min` admissions lie within the last 60 seconds.
   */
  lemma WindowNeverOverfull(perMin: int, times: seq<real>)
    requires NonDecreasing(times) && times != []
    ensures var a := Replay(perMin, times).admitted;
      forall k :: 0 <= k < |a| - Capacity(perMin) ==> a[k] <= times[|times| - 1] - WindowSeconds as real
  {
    ReplayKeepsInvariant(perMin, times);
  }

  /** The queue never outgrows the limit, whatever the clock does. */
  lemma {:induction false} QueueWithinCapacity(perMin: int, times: seq<real>)
    ensures |Replay(perMin, times).q| <= Capacity(perMin)
    decreases |times|
  {
    if times != [] {
      QueueWithinCapacity(perMin, times[..|times| - 1]);
    }
  }

  /** Oldest first: the order `append` and `popleft` keep. */
  predicate InOrder(q: seq<real>) {
    forall i :: 0 < i < |q| ==> q[i - 1] <= q[i]
  }

  /** The front of a queue in order is its oldest time. */
  lemma {:induction false} FrontIsOldest(q: seq<real>)
    requires InOrder(q) && q != []
    ensures forall k :: 0 <= k < |q| ==> q[0] <= q[k]
    decreases |q|
  {
    if |q| > 1 {
      var rest := q[1..];
      assert InOrder(rest) by {
        assert forall i :: 0 < i < |rest| ==> rest[i - 1] == q[i] && rest[i] == q[i + 1];
      }
      FrontIsOldest(rest);
      assert forall k :: 1 <= k < |q| ==> q[k] == rest[k - 1];
    }
  }

  lemma TailInOrder(q: seq<real>)
    requires InOrder(q) && q != []
    ensures InOrder(q[1..])
  {
    var rest := q[1..];
    assert forall i :: 0 < i < |rest| ==> rest[i - 1] == q[i] && rest[i] == q[i + 1];
  }

  /** The purge of an ordered queue is ordered and holds only times after the cutoff. */
  lemma {:induction false} PurgeKeepsOrder(q: seq<real>, cutoff: real, last: real)
    requires InOrder(q) && forall k :: 0 <= k < |q| ==> q[k] <= last
    ensures var p := Purge(q, cutoff);
      InOrder(p) && forall k :: 0 <= k < |p| ==> cutoff < p[k] <= last
    decreases |q|
  {
    if q != [] && q[0] <= cutoff {
      TailInOrder(q);
      assert forall k :: 1 <= k < |q| ==> q[1..][k - 1] == q[k];
      PurgeKeepsOrder(q[1..], cutoff, last);
    } else if q != [] {
      FrontIsOldest(q);
    }
  }

  /** After a call at `now`: oldest first, and every stored time within the window ending at `now`. */
  predicate QueueFresh(q: seq<real>, now: real) {
    InOrder(q) && forall k :: 0 <= k < |q| ==> now - WindowSeconds as real < q[k] <= now
  }

  /** With the clock not going back, a call keeps the queue in order and leaves only times within the window. */
  lemma AdmitKeepsQueueFresh(q: seq<real>, perMin: int, last: real, now: real)
    requires QueueFresh(q, last) && last <= now
    ensures QueueFresh(Admit(q, perMin, now).0, now)
  {
    var p := Purge(q, now - WindowSeconds as real);
    PurgeKeepsOrder(q, now - WindowSeconds as real, now);
    if |p| < perMin {
      AppendKeepsQueueFresh(p, now);
    }
  }

  lemma AppendKeepsQueueFresh(p: seq<real>, now: real)
    requires QueueFresh(p, now)
    ensures QueueFresh(p + [now], now)
  {
    var r := p + [now];
    assert forall k :: 0 <= k < |p| ==> r[k] == p[k];
  }

  lemma {:induction false} ReplayKeepsQueueFresh(perMin: int, times: seq<real>)
    requires NonDecreasing(times) && times != []
    ensures QueueFresh(Replay(perMin, times).q, times[|times| - 1])
    decreases |times|
  {
    var init := times[..|times| - 1];
    var now := times[|times| - 1];
    assert Replay(perMin, times).q == Admit(Replay(perMin, init).q, perMin, now).0;
    if init == [] {
      AdmitKeepsQueueFresh([], perMin, now, now);
    } else {
      assert NonDecreasing(init) by {
        assert forall i :: 0 <= i < |init| ==> init[i] == times[i];
      }
      assert init[|init| - 1] <= now by {
        assert init[|init| - 1] == times[|times| - 2];
      }
      ReplayKeepsQueueFresh(perMin, init);
      AdmitKeepsQueueFresh(Replay(perMin, init).q, perMin, init[|init| - 1], now);
    }
  }

  /** A queue of times all equal to `t` loses nothing to the purge of a call at `t`. */
  lemma SameInstantKeepsQueue(q: seq<real>, t: real)
    requires forall k :: 0 <= k < |q| ==> q[k] == t
    ensures Purge(q, t - WindowSeconds as real) == q
  {
    assert q != [] ==> q[0] == t;
  }

  /** The smaller of the call count and the capacity. */
  function Filled(n: nat, perMin: int): nat {
    if n < Capacity(perMin) then n else Capacity(perMin)
  }

  /** The answer to the `i`-th of a burst of calls at one instant. */
  function BurstDecision(i: nat, perMin: int): Decision {
    if i < perMin then Decision(true, perMin - i - 1) else Decision(false, 0)
  }

  /** A run made only of calls at `t`: as many `t`s as fit, and the answers of a burst. */
  predicate BurstShape(h: History, perMin: int, t: real) {
    && |h.q| == Filled(|h.decisions|, perMin)
    && (forall k :: 0 <= k < |h.q| ==> h.q[k] == t)
    && forall i :: 0 <= i < |h.decisions| ==> h.decisions[i] == BurstDecision(i, perMin)
  }

  /** One more call at the instant every queued time shares. */
  lemma BurstStep(h: History, perMin: int, t: real)
    requires BurstShape(h, perMin, t)
    ensures BurstShape(Step(h, perMin, t), perMin, t)
  {
    SameInstantKeepsQueue(h.q, t);
    var n := |h.decisions|;
    var a := Admit(h.q, perMin, t);
    if n < perMin {
      assert |h.q| == n;
      assert a == (h.q + [t], Decision(true, perMin - n - 1));
    } else {
      assert |h.q| == Capacity(perMin);
      assert a == (h.q, Decision(false, 0));
    }
    var r := Step(h, perMin, t);
    assert forall i :: 0 <= i < n ==> r.decisions[i] == r.decisions[..n][i];
  }

  /** Calls all at one instant: the first `per_min` are admitted with counts down to 0, the rest refused. */
  lemma {:induction false} BurstAtOneInstant(perMin: int, t: real, times: seq<real>)
    requires forall k :: 0 <= k < |times| ==> times[k] == t
    ensures BurstShape(Replay(perMin, times), perMin, t)
    decreases |times|
  {
    if times != [] {
      var init := times[..|times| - 1];
      BurstAtOneInstant(perMin, t, init);
      assert Replay(perMin, times) == Step(Replay(perMin, init), perMin, t);
      BurstStep(Replay(perMin, init), perMin, t);
    }
  }

  lemma {:induction false} PurgeDropsAllOld(q: seq<real>, cutoff: real)
    requires forall k :: 0 <= k < |q| ==> q[k] <= cutoff
    ensures Purge(q, cutoff) == []
    decreases |q|
  {
    if q != [] {
      PurgeDropsAllOld(q[1..], cutoff);
    }
  }

  /** Once every stored time is at least a window old, a call with a positive limit is admitted again. */
  lemma RecoversAfterWindow(q: seq<real>, perMin: int, now: real)
    requires perMin > 0
    requires forall k :: 0 <= k < |q| ==> q[k] <= now - WindowSeconds as real
    ensures Admit(q, perMin, now).1 == Decision(true, perMin - 1)
    ensures Admit(q, perMin, now).0 == [now]
  {
    PurgeDropsAllOld(q, now - WindowSeconds as real);
  }

  /** A limit below 1 refuses every call and never stores anything. */
  lemma NonPositiveLimitRefusesAll(perMin: int, times: seq<real>)
    requires perMin <= 0
    ensures forall i :: 0 <= i < |times| ==> !Replay(perMin, times).decisions[i].allowed
    ensures Replay(perMin, times).q == []
  {
    QueueWithinCapacity(perMin, times);
  }

  /** A fresh limiter of capacity 3 and four calls at one instant. */
  lemma CapacityThreeBurst(t: real, times: seq<real>)
    requires |times| == 4 && forall k :: 0 <= k < 4 ==> times[k] == t
    ensures Replay(3, times).decisions ==
      [Decision(true, 2), Decision(true, 1), Decision(true, 0), Decision(false, 0)]
  {
    BurstAtOneInstant(3, t, times);
    var d := Replay(3, times).decisions;
    assert d[0] == BurstDecision(0, 3) && d[1] == BurstDecision(1, 3);
    assert d[2] == BurstDecision(2, 3) && d[3] == BurstDecision(3, 3);
  }
}
