/**
 * Timeout budgets, in milliseconds: the poll loop of src/api/python/cloudi.py and
 * src/api/c/cloudi.cpp, and the adjustment of forwards and returns.
 */
module Timeouts {

  /** `if elapsed >= timeout: timeout = 0 else: timeout -= elapsed`, also `timeout -= min(elapsed, timeout)`. */
  function Charge(timeout: nat, elapsed: nat): (left: nat) {
    if elapsed >= timeout then 0 else timeout - elapsed
  }

  function ChargeAll(timeout: nat, elapsed: seq<nat>): nat {
    if elapsed == [] then timeout else ChargeAll(Charge(timeout, elapsed[0]), elapsed[1..])
  }

  function Sum(s: seq<nat>): nat {
    if s == [] then 0 else s[0] + Sum(s[1..])
  }

  /** Rounds telescope: only the sum of what was charged matters, and a spent budget stays spent. */
  lemma {:induction false} ChargeTelescopes(timeout: nat, elapsed: seq<nat>)
    ensures ChargeAll(timeout, elapsed) == if Sum(elapsed) >= timeout then 0 else timeout - Sum(elapsed)
    ensures ChargeAll(timeout, elapsed) <= timeout
  {
    if elapsed != [] {
      ChargeTelescopes(Charge(timeout, elapsed[0]), elapsed[1..]);
    }
  }

  /** `max(0, int(seconds * 1000.0))`. */
  function Truncated(seconds: real): nat {
    if seconds <= 0.0 then 0 else (seconds * 1000.0).Floor
  }

  /** `static_cast<int>(::round(seconds * 1000.0))` of a time that is not negative. */
  function Rounded(seconds: real): nat {
    if seconds <= 0.0 then 0 else (seconds * 1000.0 + 0.5).Floor
  }

  /** A clock that is set back charges nothing, and no reading charges more than a later one. */
  lemma ChargesGrow(early: real, late: real)
    requires early <= late
    ensures early <= 0.0 ==> Truncated(early) == 0
    ensures Truncated(early) <= Truncated(late)
  {
  }

  ghost predicate Monotonic(clock: seq<real>) {
    forall k :: 0 <= k < |clock| - 1 ==> clock[k] <= clock[k + 1]
  }

  /** What the rounds between successive clock readings are charged. */
  function Charges(clock: seq<real>, ms: real -> nat): (charged: seq<nat>)
    ensures |charged| == if |clock| < 2 then 0 else |clock| - 1
    decreases |clock|
  {
    if |clock| < 2 then [] else [ms(clock[1] - clock[0])] + Charges(clock[1..], ms)
  }

  /** Truncation never charges more than the time that passed, and less than one millisecond a round less. */
  lemma {:induction false} TruncatedDrift(clock: seq<real>)
    requires |clock| > 0 && Monotonic(clock)
    ensures var spent := (clock[|clock| - 1] - clock[0]) * 1000.0;
            var charged := Sum(Charges(clock, Truncated)) as real;
            charged <= spent && (|clock| > 1 ==> spent < charged + (|clock| - 1) as real)
    decreases |clock|
  {
    if |clock| > 1 {
      TruncatedDrift(clock[1..]);
      var d := clock[1] - clock[0];
      assert Truncated(d) as real <= d * 1000.0 < Truncated(d) as real + 1.0;
      SumCons(Truncated(d), Charges(clock[1..], Truncated));
    }
  }

  /** Rounding is off by at most half a millisecond a round, either way. */
  lemma {:induction false} RoundedDrift(clock: seq<real>)
    requires |clock| > 0 && Monotonic(clock)
    ensures var spent := (clock[|clock| - 1] - clock[0]) * 1000.0;
            var charged := Sum(Charges(clock, Rounded)) as real;
            -((|clock| - 1) as real) <= 2.0 * (charged - spent) <= (|clock| - 1) as real
    decreases |clock|
  {
    if |clock| > 1 {
      RoundedDrift(clock[1..]);
      var d := clock[1] - clock[0];
      assert d * 1000.0 - 0.5 <= Rounded(d) as real <= d * 1000.0 + 0.5;
      SumCons(Rounded(d), Charges(clock[1..], Rounded));
    }
  }

  lemma SumCons(n: nat, s: seq<nat>)
    ensures Sum([n] + s) == n + Sum(s)
  {
    assert ([n] + s)[1..] == s;
  }

  /** The budget that the Python poll loop has left after the readings of its clock. */
  lemma {:induction false} PollBudget(timeout: nat, clock: seq<real>)
    requires |clock| > 1 && Monotonic(clock)
    ensures var left := ChargeAll(timeout, Charges(clock, Truncated)) as real;
            var spent := (clock[|clock| - 1] - clock[0]) * 1000.0;
            && left <= timeout as real
            && left >= timeout as real - spent
            && (left > 0.0 ==> left < timeout as real - spent + (|clock| - 1) as real)
  {
    ChargeTelescopes(timeout, Charges(clock, Truncated));
    TruncatedDrift(clock);
  }

  /** The budget left after k rounds. */
  function LeftAfter(timeout: nat, clock: seq<real>, k: nat): nat
    requires k < |clock|
  {
    ChargeAll(timeout, Charges(clock[..k + 1], Truncated))
  }

  lemma LeftStep(timeout: nat, clock: seq<real>, k: nat)
    requires k + 1 < |clock|
    ensures LeftAfter(timeout, clock, k + 1)
         == Charge(LeftAfter(timeout, clock, k), Truncated(clock[k + 1] - clock[k]))
  {
    assert clock[..k + 2] == clock[..k + 1] + [clock[k + 1]];
    ChargesSnoc(clock[..k + 1], clock[k + 1], Truncated);
    ChargeSnoc(timeout, Charges(clock[..k + 1], Truncated), Truncated(clock[k + 1] - clock[k]));
  }

  /** The loop itself: the timer variable, the clock readings, the early return at zero. */
  method PollLoop(timeout: nat, clock: seq<real>) returns (left: nat, rounds: nat)
    requires |clock| > 0
    ensures rounds < |clock| && left == LeftAfter(timeout, clock, rounds)
    ensures left == 0 || rounds == |clock| - 1
    ensures forall k :: 0 < k < rounds ==> LeftAfter(timeout, clock, k) > 0
  {
    left := timeout;
    rounds := 0;
    var pollTimer := clock[0];
    while rounds < |clock| - 1
      invariant rounds <= |clock| - 1 && pollTimer == clock[rounds]
      invariant left == LeftAfter(timeout, clock, rounds)
      invariant forall k :: 0 < k <= rounds ==> LeftAfter(timeout, clock, k) > 0
    {
      var pollTimerNew := clock[rounds + 1];
      var elapsed := Truncated(pollTimerNew - pollTimer);
      LeftStep(timeout, clock, rounds);
      pollTimer := pollTimerNew;
      left := if elapsed >= left then 0 else left - elapsed;
      rounds := rounds + 1;
      if left == 0 {
        return;
      }
    }
  }

  lemma {:induction false} ChargesSnoc(clock: seq<real>, t: real, ms: real -> nat)
    requires |clock| > 0
    ensures Charges(clock + [t], ms) == Charges(clock, ms) + [ms(t - clock[|clock| - 1])]
    decreases |clock|
  {
    assert (clock + [t])[1..] == clock[1..] + [t];
    if |clock| > 1 {
      ChargesSnoc(clock[1..], t, ms);
    }
  }

  lemma {:induction false} ChargeSnoc(timeout: nat, elapsed: seq<nat>, e: nat)
    ensures ChargeAll(timeout, elapsed + [e]) == Charge(ChargeAll(timeout, elapsed), e)
  {
    if elapsed == [] {
      assert elapsed + [e] == [e];
    } else {
      assert (elapsed + [e])[1..] == elapsed[1..] + [e];
      ChargeSnoc(Charge(timeout, elapsed[0]), elapsed[1..], e);
    }
  }

  // Forwards and returns

  /** The timeout that `cloudi_forward_` and `cloudi_return_` send. */
  function Adjusted(adjustment: bool, timeout: nat, requestTimeout: nat, elapsed: nat): nat {
    if adjustment && timeout == requestTimeout then
      if elapsed > timeout then 0 else timeout - elapsed
    else timeout
  }

  /** Whether `cloudi_return_` drops the response because the time is over. */
  predicate Emptied(adjustment: bool, timeout: nat, requestTimeout: nat, elapsed: nat) {
    adjustment && timeout == requestTimeout && elapsed > timeout
  }

  /** The timeout after a chain of handlers that each forward with the timeout they were given. */
  function Forwarded(timeout: nat, elapsed: seq<nat>): nat {
    if elapsed == [] then timeout
    else Forwarded(Adjusted(true, timeout, timeout, elapsed[0]), elapsed[1..])
  }

  /** Forwards telescope too: the last handler gets what the whole chain has left of the first timeout. */
  lemma {:induction false} ForwardsTelescope(timeout: nat, elapsed: seq<nat>)
    ensures Forwarded(timeout, elapsed) == ChargeAll(timeout, elapsed)
    ensures Forwarded(timeout, elapsed) == if Sum(elapsed) >= timeout then 0 else timeout - Sum(elapsed)
  {
    ChargeTelescopes(timeout, elapsed);
    if elapsed != [] {
      ForwardsTelescope(Charge(timeout, elapsed[0]), elapsed[1..]);
    }
  }

  /**
   * The response at the end of a chain is dropped exactly when the whole chain took longer than the
   * first timeout and the last handler took any time at all.
   */
  lemma {:induction false} LateResponse(timeout: nat, forwards: seq<nat>, last: nat)
    ensures var t := Forwarded(timeout, forwards);
            Emptied(true, t, t, last) <==> Sum(forwards) + last > timeout && last > 0
  {
    ForwardsTelescope(timeout, forwards);
  }
}
