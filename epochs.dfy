/** Epoch arithmetic of the expiry scheduler (makeCache.js, `getEpoch` and
    the walk of `evictExpireds`). Time is an integer count of milliseconds. */
module Epochs {

  /** Bound at which epoch numbers cycle: the largest exact 32-bit signed
      integer, less ten of headroom. */
  const MAX_INT: int := 2147483647 - 10

  /** JavaScript's `%` for a positive divisor: the remainder takes the sign of
      the dividend (Dafny's own `%` never returns a negative number). */
  function JsRem(a: int, b: int): (r: int)
    requires b > 0
    ensures 0 <= a ==> 0 <= r < b
    ensures a < 0 ==> -b < r <= 0
  {
    if a >= 0 then a % b else -((-a) % b)
  }

  /** The quotient that goes with JsRem: rounded toward zero. */
  function TruncQuot(a: int, b: int): (q: int)
    requires b > 0
    ensures b * q + JsRem(a, b) == a
    ensures 0 <= a ==> 0 <= q
    ensures a < 0 ==> q <= 0
  {
    if a >= 0 then
      Euclid(a, b);
      a / b
    else
      Euclid(-a, b);
      Negate(-a, b, (-a) / b, (-a) % b);
      -((-a) / b)
  }

  lemma Euclid(a: int, b: int)
    requires b > 0 && a >= 0
    ensures b * (a / b) + a % b == a && a / b >= 0
  {
  }

  lemma Negate(n: int, b: int, q: int, r: int)
    requires b > 0 && n == b * q + r
    ensures -n == b * -q - r
  {
    assert b * -q == -(b * q);
  }

  /** `(a - a % b) / b`, computed as JavaScript does, is the quotient rounded
      toward zero: the division is exact. */
  lemma {:induction false} ExactQuotient(a: int, b: int)
    requires b > 0
    ensures (a - JsRem(a, b)) / b == TruncQuot(a, b)
  {
    MulDiv(b, TruncQuot(a, b));
  }

  lemma MulDiv(b: int, q: int)
    requires b > 0
    ensures (b * q) / b == q
  {
    var m := b * q;
    var q' := m / b;
    assert m == b * q' + m % b;
    if q' < q {
      assert b * (q - q') == b * q - b * q';
      MulPos(b, q - q');
    } else if q' > q {
      assert b * (q' - q) == b * q' - b * q;
      MulPos(b, q' - q);
    }
  }

  lemma MulPos(b: int, x: int)
    requires b > 0 && x >= 1
    ensures b * x >= b
  {
  }

  /** Floor division by a positive number is monotone. */
  lemma DivMonotone(a: int, c: int, b: int)
    requires a <= c && b > 0
    ensures a / b <= c / b
  {
    var qa, qc := a / b, c / b;
    assert a == b * qa + a % b && c == b * qc + c % b;
    if qa > qc {
      assert b * (qa - qc) == b * qa - b * qc;
      MulPos(b, qa - qc);
    }
  }

  /** The epoch a timestamp falls in: epochs are `interval` wide, counted from
      1 at `inception` (0 is left free), and taken modulo MAX_INT with
      JavaScript's remainder. */
  function Epoch(time: int, inception: int, interval: int): (e: int)
    requires interval > 0
    ensures -MAX_INT < e < MAX_INT
  {
    var longevity := time - inception;
    var partialEpochLongevity := JsRem(longevity, interval);
    var epoch := (longevity - partialEpochLongevity) / interval + 1;
    JsRem(epoch, MAX_INT)
  }

  /** From `inception` on, the epoch of `time` is one more than the number of
      whole intervals since `inception`, modulo MAX_INT; it is at least 1 until
      the numbers wrap around. */
  lemma EpochCounts(time: int, inception: int, interval: int)
    requires interval > 0 && inception <= time
    ensures Epoch(time, inception, interval) == ((time - inception) / interval + 1) % MAX_INT
    ensures Unwrapped(time, inception, interval) ==> 1 <= Epoch(time, inception, interval)
  {
    ExactQuotient(time - inception, interval);
  }

  /** `time` lies before the first wrap-around of epoch numbers. */
  predicate Unwrapped(time: int, inception: int, interval: int)
    requires interval > 0
  {
    (time - inception) / interval + 1 < MAX_INT
  }

  /** Below the wrap-around, a later timestamp never falls in an earlier epoch. */
  lemma EpochMonotone(t1: int, t2: int, inception: int, interval: int)
    requires interval > 0 && inception <= t1 <= t2
    requires Unwrapped(t2, inception, interval)
    ensures Unwrapped(t1, inception, interval)
    ensures 1 <= Epoch(t1, inception, interval) <= Epoch(t2, inception, interval)
  {
    var q1, q2 := (t1 - inception) / interval, (t2 - inception) / interval;
    DivMonotone(t1 - inception, t2 - inception, interval);
    Euclid(t1 - inception, interval);
    EpochCounts(t1, inception, interval);
    EpochCounts(t2, inception, interval);
    SmallMod(q1 + 1);
    SmallMod(q2 + 1);
  }

  /** Below MAX_INT, the remainder is the number itself. */
  lemma SmallMod(x: int)
    requires 0 <= x < MAX_INT
    ensures x % MAX_INT == x
  {
  }

  /** A scheduler bucket strictly older than the epoch of `now` only holds
      times that have passed: if `at` falls in an epoch before the one `now`
      falls in, then `at < now`. */
  lemma DueEpochHasPassed(at: int, now: int, inception: int, interval: int)
    requires interval > 0 && inception <= at && inception <= now
    requires Unwrapped(at, inception, interval)
    requires Epoch(at, inception, interval) <= Epoch(now, inception, interval) - 1
    ensures at < now
  {
    if now <= at {
      EpochMonotone(now, at, inception, interval);
    }
  }

  /** Before `inception`, the division rounds toward zero, so the epoch is
      one less the number of whole intervals still to go: 1 in the last
      interval before inception, 0 in the one before that, and negative
      earlier. A negative epoch lies outside the range that `Next` walks, so
      a sweep that stops after a completed epoch of -2 or less never stops. */
  lemma {:induction false} EpochBeforeInception(time: int, inception: int, interval: int)
    requires interval > 0 && time < inception
    requires (inception - time) / interval < MAX_INT
    ensures Epoch(time, inception, interval) == 1 - (inception - time) / interval
    ensures inception - interval < time ==> Epoch(time, inception, interval) == 1
    ensures inception - 2 * interval < time <= inception - interval ==> Epoch(time, inception, interval) == 0
    ensures time <= inception - 2 * interval ==> Epoch(time, inception, interval) <= -1
    ensures time <= inception - 2 * interval ==>
      forall e :: -1 <= e < MAX_INT ==> Next(e) != Epoch(time, inception, interval)
  {
    EpochCountsDown(time, inception, interval);
    IntervalsToGo(inception - time, interval);
  }

  lemma EpochCountsDown(time: int, inception: int, interval: int)
    requires interval > 0 && time < inception
    requires (inception - time) / interval < MAX_INT
    ensures Epoch(time, inception, interval) == 1 - (inception - time) / interval
  {
    var n := (inception - time) / interval;
    ExactQuotient(time - inception, interval);
    assert TruncQuot(time - inception, interval) == -n;
    if n > 1 {
      assert JsRem(1 - n, MAX_INT) == -((n - 1) % MAX_INT);
      SmallMod(n - 1);
    }
  }

  /** The whole intervals in `m`, read off from bounds on `m`. */
  lemma IntervalsToGo(m: int, interval: int)
    requires interval > 0 && m > 0
    ensures m < interval ==> m / interval == 0
    ensures interval <= m < 2 * interval ==> m / interval == 1
    ensures 2 * interval <= m ==> m / interval >= 2
  {
    if m >= 2 * interval {
      MulDiv(interval, 2);
      DivMonotone(2 * interval, m, interval);
    } else if m >= interval {
      MulDiv(interval, 1);
      DivMonotone(interval, m, interval);
      Euclid(m, interval);
    }
  }

  /** How many steps of `e := (e + 1) % MAX_INT` lead from epoch `from` to epoch `to`. */
  function Steps(from: int, to: int): (d: int)
    ensures 0 <= d < MAX_INT
    ensures 0 <= from <= to < MAX_INT ==> d == to - from
  {
    (to - from) % MAX_INT
  }

  /** The epochs a sweep walks: from the one after `evicted` forward, cycling
      through MAX_INT, up to and including `completed`. */
  predicate SweepVisits(evicted: int, completed: int, e: int) {
    0 <= e < MAX_INT && Steps((evicted + 1) % MAX_INT, e) < Steps((evicted + 1) % MAX_INT, completed + 1)
  }

  /** Without wrap-around, a sweep visits exactly the epochs after the last
      swept one, up to and including the completed one. */
  lemma SweepVisitsNoWrap(evicted: int, completed: int, e: int)
    requires -1 <= evicted <= completed < MAX_INT - 1
    ensures SweepVisits(evicted, completed, e) <==> evicted < e <= completed
  {
    assert (evicted + 1) % MAX_INT == evicted + 1;
    if 0 <= e < evicted + 1 {
      assert Steps(evicted + 1, e) == e - (evicted + 1) + MAX_INT;
    }
  }

  /** The epoch after `e`, wrapping at MAX_INT. */
  function Next(e: int): (n: int)
    requires -1 <= e < MAX_INT
    ensures 0 <= n < MAX_INT && n == (e + 1) % MAX_INT
    ensures 0 <= e ==> (n - 1) % MAX_INT == e
  {
    if e == MAX_INT - 1 then 0 else e + 1
  }

  /** The epoch that `Next` leads to from `e` tells what `e` is. */
  lemma PrevEpoch(e: int, c: int)
    requires -1 <= e < MAX_INT && 0 <= c < MAX_INT - 1 && Next(e) == c + 1
    ensures e == c
  {
  }

  /** Epoch `e` lies strictly between `start` (inclusive) and `epoch` on the walk. */
  predicate Visited(start: int, epoch: int, e: int) {
    0 <= e < MAX_INT && Steps(start, e) < Steps(start, epoch)
  }

  /** One step of the walk from `e`, which has not yet reached `to`: it
      adds `e` to the visited epochs. */
  lemma Step(from: int, e: int, to: int)
    requires 0 <= from < MAX_INT && 0 <= e < MAX_INT && 0 <= to < MAX_INT && e != to
    requires Steps(from, e) + Steps(e, to) == Steps(from, to)
    ensures Steps(from, Next(e)) == Steps(from, e) + 1
    ensures Steps(Next(e), to) == Steps(e, to) - 1
    ensures forall x :: Visited(from, Next(e), x) <==> Visited(from, e, x) || x == e
  {
    forall x
      ensures Visited(from, Next(e), x) <==> Visited(from, e, x) || x == e
    {
      if 0 <= x < MAX_INT && Steps(from, x) == Steps(from, e) {
        StepsInjective(from, x, e);
      }
    }
  }

  /** Different epochs lie a different number of steps away. */
  lemma StepsInjective(from: int, a: int, b: int)
    requires 0 <= a < MAX_INT && 0 <= b < MAX_INT
    requires Steps(from, a) == Steps(from, b)
    ensures a == b
  {
  }
}
