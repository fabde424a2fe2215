/**
 Software timers (src/bl/stimer.c). The tick counter is advanced by an interrupt, so every operation
 is given the value it reads; ticks are natural numbers, which leaves out the 49-day wrap-around.
 */
module Stimer {
  import opened Bytes

  /** Stimer_t as a value. */
  datatype Timer = Timer(autoReset: bool, hasElapsed: bool, waitTime: nat, targetTime: nat)

  function Start(ticks: nat, waitTime: nat, autoReset: bool): Timer {
    Timer(autoReset, false, waitTime, ticks + waitTime)
  }

  function Reload(t: Timer, ticks: nat): Timer {
    if t.hasElapsed then t else t.(targetTime := ticks + t.waitTime)
  }

  predicate Fires(t: Timer, ticks: nat) {
    !t.hasElapsed && ticks >= t.targetTime
  }

  function Ping(t: Timer, ticks: nat): Timer {
    if !Fires(t, ticks) then t
    else if t.autoReset then t.(targetTime := ticks + t.waitTime - (ticks - t.targetTime))
    else t.(hasElapsed := true)
  }

  class StimerT {
    var autoReset: bool
    var hasElapsed: bool
    var waitTime: nat
    var targetTime: nat

    function Value(): Timer reads this {
      Timer(autoReset, hasElapsed, waitTime, targetTime)
    }

    /** stimer_start on a fresh timer */
    constructor (ticks: nat, wait: nat, auto: bool)
      ensures Value() == Start(ticks, wait, auto)
    {
      new;
      StartAt(ticks, wait, auto);
    }

    /** stimer_start */
    method StartAt(ticks: nat, wait: nat, auto: bool)
      modifies this
      ensures Value() == Start(ticks, wait, auto)
    {
      autoReset := auto;
      waitTime := wait;
      targetTime := ticks + wait;
      hasElapsed := false;
    }

    /** stimer_reload */
    method ReloadAt(ticks: nat)
      modifies this
      ensures Value() == Reload(old(Value()), ticks)
    {
      if !hasElapsed {
        targetTime := ticks + waitTime;
      }
    }

    /** stimer_ping */
    method PingAt(ticks: nat) returns (elapsed: bool)
      modifies this
      ensures elapsed == Fires(old(Value()), ticks)
      ensures Value() == Ping(old(Value()), ticks)
    {
      if hasElapsed {
        return false;
      }
      var now := ticks;
      elapsed := now >= targetTime;
      if elapsed {
        if autoReset {
          var drift := now - targetTime;
          targetTime := (now + waitTime) - drift;
        } else {
          hasElapsed := true;
        }
      }
    }
  }

  // ----- periodic timers do not drift -----

  /** A timer after a series of pings. */
  function Pinged(t: Timer, times: seq<nat>): Timer {
    if times == [] then t else Ping(Pinged(t, times[..|times| - 1]), times[|times| - 1])
  }

  /** How many of the pings reported that the timer elapsed. */
  function Firings(t: Timer, times: seq<nat>): nat {
    if times == [] then 0
    else
      var k := |times| - 1;
      Firings(t, times[..k]) + if Fires(Pinged(t, times[..k]), times[k]) then 1 else 0
  }

  predicate NonDecreasing(times: seq<nat>) {
    forall i, j :: 0 <= i < j < |times| ==> times[i] <= times[j]
  }

  /** The length of k periods. */
  function Periods(k: nat, period: nat): nat {
    k * period
  }

  lemma NextPeriod(k: nat, period: nat)
    ensures Periods(k + 1, period) == Periods(k, period) + period
  {
  }

  /**
   However late the pings come, the k-th firing moves the deadline to start + (k + 1) * period; there
   are never more firings than whole periods elapsed, and as many once a ping finds nothing due.
   */
  lemma {:induction false} PeriodicTimer(start: nat, period: nat, times: seq<nat>)
    requires period > 0 && NonDecreasing(times)
    requires forall i :: 0 <= i < |times| ==> start <= times[i]
    ensures var k := Firings(Start(start, period, true), times);
      Pinged(Start(start, period, true), times) == Timer(true, false, period, start + Periods(k + 1, period))
    ensures times != [] ==>
      var t, k := times[|times| - 1], Firings(Start(start, period, true), times);
      && Periods(k, period) <= t - start
      && (!Fires(Pinged(Start(start, period, true), times[..|times| - 1]), t) ==> k == (t - start) / period)
  {
    hide Periods;
    if times == [] {
      OnePeriod(period);
    } else {
      var n := |times| - 1;
      var t0, t := Start(start, period, true), times[n];
      PeriodicTimer(start, period, times[..n]);
      var k := Firings(t0, times[..n]);
      NextPeriod(k, period);
      NextPeriod(k + 1, period);
      if n == 0 {
        OnePeriod(period);
      } else {
        assert times[..n][n - 1] == times[n - 1] <= t;
      }
      if !Fires(Pinged(t0, times[..n]), t) {
        QuotientBetween(t - start, period, k);
      }
    }
  }

  /** A one-shot timer fires once, at the first ping that comes no earlier than its deadline, and never again. */
  lemma {:induction false} OneShotTimer(start: nat, wait: nat, times: seq<nat>)
    requires NonDecreasing(times)
    ensures var due := times != [] && times[|times| - 1] >= start + wait;
      && Firings(Start(start, wait, false), times) == (if due then 1 else 0)
      && Pinged(Start(start, wait, false), times) == Timer(false, due, wait, start + wait)
  {
    if times != [] {
      var n := |times| - 1;
      OneShotTimer(start, wait, times[..n]);
      if n > 0 {
        assert times[..n][n - 1] == times[n - 1] <= times[n];
      }
    }
  }

  /** Once elapsed, a one-shot timer neither fires nor moves, reloaded or not; before that a reload moves its deadline
      and nothing else. */
  lemma ReloadIff(t: Timer, ticks: nat, now: nat)
    ensures t.hasElapsed ==> Reload(t, ticks) == t && Ping(t, ticks) == t && !Fires(t, ticks)
    ensures !t.hasElapsed ==>
      && Reload(t, ticks) == Timer(t.autoReset, false, t.waitTime, ticks + t.waitTime)
      && (Fires(Reload(t, ticks), now) <==> now >= ticks + t.waitTime)
  {
  }

  lemma OnePeriod(period: nat)
    ensures Periods(0, period) == 0 && Periods(1, period) == period
  {
  }

  lemma QuotientBetween(x: nat, p: nat, k: nat)
    requires p > 0 && Periods(k, p) <= x < Periods(k, p) + p
    ensures k == x / p
  {
    var q, r := Divide(x, p);
    assert p * k + (x - k * p) == p * q + r;
    QuotientUnique(p, k, x - k * p, q, r);
    DivideQuotient(x, p, q, r);
  }

  lemma DivideQuotient(x: nat, p: nat, q: nat, r: nat)
    requires p > 0 && x == p * q + r && r == x % p
    ensures q == x / p
  {
    var q' := x / p;
    assert p * q' == x - x % p;
    QuotientUnique(p, q, r, q', r);
  }
}
