/** The rate limiter: a token bucket kept as one point in time. Times are real numbers. */
module RateLimiter {
  /** The time between two packets, and how far back the limiter may be behind the clock. */
  datatype Rate = Rate(period: real, emission: real) {
    predicate Valid() {
      period > 0.0 && emission >= 0.0
    }
  }

  function RateOf(capacity: nat, period: real): (r: Rate)
    requires capacity >= 1 && period > 0.0
    ensures r.Valid()
  {
    Rate(period, (capacity - 1) as real * period)
  }

  function Clamped(r: Rate, readyAt: real, now: real): real {
    if readyAt < now - r.emission then now - r.emission else readyAt
  }

  predicate Succeeds(r: Rate, readyAt: real, now: real) {
    Clamped(r, readyAt, now) <= now
  }

  function Take(r: Rate, readyAt: real, now: real): real {
    Clamped(r, readyAt, now) + if Succeeds(r, readyAt, now) then r.period else 0.0
  }

  predicate IsFull(r: Rate, readyAt: real, now: real) {
    readyAt < now - r.emission
  }

  class Limiter {
    const rate: Rate
    var readyAt: real

    constructor (capacity: nat, period: real)
      requires capacity >= 1 && period > 0.0
      ensures rate == RateOf(capacity, period) && readyAt == -rate.emission
    {
      rate := RateOf(capacity, period);
      readyAt := -RateOf(capacity, period).emission;
    }

    method TakeAt(now: real) returns (ok: bool)
      modifies this
      ensures ok == Succeeds(rate, old(readyAt), now) && readyAt == Take(rate, old(readyAt), now)
    {
      var minReadyAt := now - rate.emission;
      if readyAt < minReadyAt {
        readyAt := minReadyAt;
      }
      if readyAt > now {
        return false;
      }
      readyAt := readyAt + rate.period;
      return true;
    }

    /** The time from which on a packet will be let through. */
    method ReadyAt(now: real) returns (t: real)
      requires rate.Valid()
      ensures t >= now && forall u | u >= now :: Succeeds(rate, readyAt, u) <==> u >= t
    {
      t := if readyAt > now then readyAt else now;
    }
  }

  // ---- runs ----

  ghost predicate InOrder(ts: seq<real>) {
    forall i, j | 0 <= i <= j < |ts| :: ts[i] <= ts[j]
  }

  function Outcomes(r: Rate, readyAt: real, ts: seq<real>): (s: seq<bool>)
    ensures |s| == |ts|
    decreases |ts|
  {
    if ts == [] then [] else [Succeeds(r, readyAt, ts[0])] + Outcomes(r, Take(r, readyAt, ts[0]), ts[1..])
  }

  function Count(s: seq<bool>): nat
    decreases |s|
  {
    if s == [] then 0 else (if s[0] then 1 else 0) + Count(s[1..])
  }

  /** The sum of the periods of all successes. */
  function Spent(s: seq<bool>, period: real): real
    decreases |s|
  {
    if s == [] then 0.0 else (if s[0] then period else 0.0) + Spent(s[1..], period)
  }

  lemma {:induction false} SpentIsCount(s: seq<bool>, period: real)
    ensures Spent(s, period) == Count(s) as real * period
    decreases |s|
  {
    if s != [] {
      SpentIsCount(s[1..], period);
      var n := Count(s[1..]) as real;
      assert (n + 1.0) * period == n * period + period;
    }
  }

  function Final(r: Rate, readyAt: real, ts: seq<real>): real
    decreases |ts|
  {
    if ts == [] then readyAt else Final(r, Take(r, readyAt, ts[0]), ts[1..])
  }

  lemma {:induction false} OneAttemptMore(r: Rate, readyAt: real, ts: seq<real>, t: real)
    ensures Final(r, readyAt, ts + [t]) == Take(r, Final(r, readyAt, ts), t)
    ensures Count(Outcomes(r, readyAt, ts + [t])) == Count(Outcomes(r, readyAt, ts)) + if Succeeds(r, Final(r, readyAt, ts), t) then 1 else 0
    decreases |ts|
  {
    if ts == [] {
      assert ts + [t] == [t] && Outcomes(r, readyAt, [t])[1..] == [];
    } else {
      assert (ts + [t])[1..] == ts[1..] + [t];
      var r1 := Take(r, readyAt, ts[0]);
      OneAttemptMore(r, r1, ts[1..], t);
      assert Outcomes(r, readyAt, ts + [t])[1..] == Outcomes(r, r1, ts[1..] + [t]);
      assert Outcomes(r, readyAt, ts)[1..] == Outcomes(r, r1, ts[1..]);
    }
  }

  /** Every success pushes `readyAt` a period ahead, and it never goes back. */
  lemma {:induction false} FinalIsAhead(r: Rate, readyAt: real, ts: seq<real>)
    requires r.Valid()
    ensures Final(r, readyAt, ts) >= readyAt + Spent(Outcomes(r, readyAt, ts), r.period)
    decreases |ts|
  {
    if ts != [] {
      FinalIsAhead(r, Take(r, readyAt, ts[0]), ts[1..]);
      assert Outcomes(r, readyAt, ts)[1..] == Outcomes(r, Take(r, readyAt, ts[0]), ts[1..]);
    }
  }

  /** A success leaves `readyAt` at most a period ahead of the clock. */
  lemma {:induction false} FinalIsNear(r: Rate, readyAt: real, ts: seq<real>, until: real)
    requires r.Valid() && (forall t | t in ts :: t <= until)
    ensures Final(r, readyAt, ts) <= readyAt || Final(r, readyAt, ts) <= until + r.period
    decreases |ts|
  {
    if ts != [] {
      assert ts[0] in ts && forall t | t in ts[1..] :: t in ts;
      FinalIsNear(r, Take(r, readyAt, ts[0]), ts[1..], until);
    }
  }

  lemma {:induction false} NoneIfFar(r: Rate, readyAt: real, ts: seq<real>, until: real)
    requires r.Valid() && (forall t | t in ts :: t <= until) && readyAt > until
    ensures Spent(Outcomes(r, readyAt, ts), r.period) == 0.0
    decreases |ts|
  {
    if ts != [] {
      assert ts[0] in ts && forall t | t in ts[1..] :: t in ts;
      NoneIfFar(r, Take(r, readyAt, ts[0]), ts[1..], until);
      assert Outcomes(r, readyAt, ts)[1..] == Outcomes(r, Take(r, readyAt, ts[0]), ts[1..]);
    }
  }

  lemma ClampedFirst(r: Rate, readyAt: real, ts: seq<real>)
    requires ts != []
    ensures Outcomes(r, readyAt, ts) == Outcomes(r, Clamped(r, readyAt, ts[0]), ts)
  {
  }

  lemma SpentIsBounded(r: Rate, readyAt: real, ts: seq<real>)
    requires r.Valid() && ts != [] && InOrder(ts)
    ensures Spent(Outcomes(r, readyAt, ts), r.period) <= r.emission + r.period + (ts[|ts| - 1] - ts[0])
  {
    var until := ts[|ts| - 1];
    var start := Clamped(r, readyAt, ts[0]);
    ClampedFirst(r, readyAt, ts);
    forall t | t in ts ensures t <= until {
      var i :| 0 <= i < |ts| && ts[i] == t;
    }
    if start > until {
      NoneIfFar(r, start, ts, until);
    } else {
      FinalIsAhead(r, start, ts);
      FinalIsNear(r, start, ts, until);
    }
  }

  lemma Divided(n: real, c: nat, t: real, p: real)
    requires c >= 1 && p > 0.0 && n * p <= (c - 1) as real * p + p + t
    ensures n <= c as real + t / p
  {
    var x := c as real;
    assert (x - 1.0) * p + p == x * p;
    assert t == t / p * p;
    assert (n - x - t / p) * p <= 0.0;
  }

  /** From any state, `n` successes within a time `T` satisfy `n <= capacity + T / period`. */
  lemma TakesAreBounded(capacity: nat, period: real, readyAt: real, ts: seq<real>)
    requires capacity >= 1 && period > 0.0 && ts != [] && InOrder(ts)
    ensures Count(Outcomes(RateOf(capacity, period), readyAt, ts)) as real <= capacity as real + (ts[|ts| - 1] - ts[0]) / period
  {
    var r := RateOf(capacity, period);
    var s := Outcomes(r, readyAt, ts);
    SpentIsBounded(r, readyAt, ts);
    SpentIsCount(s, period);
    Divided(Count(s) as real, capacity, ts[|ts| - 1] - ts[0], period);
  }

  /** How far the limiter is behind the clock when `left` attempts succeed. */
  predicate Behind(r: Rate, left: nat, time: real) {
    time == (left as real - 1.0) * r.period
  }

  lemma BehindNext(r: Rate, left: nat, time: real)
    requires r.Valid() && Behind(r, left, time)
    ensures if left > 0 then time >= 0.0 && Behind(r, left - 1, time - r.period) else time < 0.0
  {
    var x := left as real;
    assert (x - 1.0 - 1.0) * r.period == (x - 1.0) * r.period - r.period;
  }

  /** `left` more attempts at this instant succeed. */
  lemma {:induction false} FullTakes(r: Rate, readyAt: real, now: real, n: nat, left: nat, time: real, i: nat)
    requires r.Valid() && i < n && Behind(r, left, time) && Clamped(r, readyAt, now) == now - time
    ensures Outcomes(r, readyAt, seq(n, _ => now))[i] <==> i < left
    decreases n
  {
    var ts := seq(n, _ => now);
    assert ts[1..] == seq(n - 1, _ => now);
    BehindNext(r, left, time);
    if i > 0 {
      if left > 0 {
        FullTakes(r, Take(r, readyAt, now), now, n - 1, left - 1, time - r.period, i - 1);
      } else {
        FullTakes(r, Take(r, readyAt, now), now, n - 1, left, time, i - 1);
      }
    }
  }

  /** From a full limiter exactly `capacity` attempts at one instant succeed, and all later ones fail. */
  lemma FullLimiter(capacity: nat, period: real, readyAt: real, now: real, n: nat, i: nat)
    requires capacity >= 1 && period > 0.0 && IsFull(RateOf(capacity, period), readyAt, now) && i < n
    ensures Outcomes(RateOf(capacity, period), readyAt, seq(n, _ => now))[i] <==> i < capacity
  {
    FullTakes(RateOf(capacity, period), readyAt, now, n, capacity, RateOf(capacity, period).emission, i);
  }
}
