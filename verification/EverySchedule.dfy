/** When a schedule firing every period answers the first instant after a moment. */
module EverySchedule {
  import opened Sql
  import opened Schedule

  lemma QuotientOf(t: int, period: int)
    requires period > 0
    ensures t >= 0 || IsMultiple(t, period) ==> Quotient(t, period) == t / period
    ensures t < 0 && !IsMultiple(t, period) ==> Quotient(t, period) == t / period + 1
  {
    if t < 0 {
      var q, r := t / period, t % period;
      assert -t == -q * period - r;
      if r == 0 {
        DivUnique(-t, period, -q, 0);
      } else {
        assert -t == (-q - 1) * period + (period - r);
        DivUnique(-t, period, -q - 1, period - r);
      }
    }
  }

  lemma WrapWithin(x: int)
    ensures IsInt64(x) ==> Wrap(x) == x
    ensures IsInt64(Wrap(x))
  {
  }

  /** A product by a positive factor lies no nearer to zero. */
  lemma Grows(q: int, b: int)
    requires b > 0
    ensures if q >= 0 then q * b >= q else q * b <= q
  {
    assert q * b == q + q * (b - 1);
  }

  /** The quotient and its successor stay within int64 where the grid does. */
  lemma QuotientWithin(t: int, period: int)
    requires 0 < period && IsInt64(t) && GridAfter(period, t) <= MaxInt64
    ensures IsInt64(t / period + 1)
  {
    var q := t / period;
    assert t == q * period + t % period;
    Grows(q, period);
    Grows(q + 1, period);
  }

  lemma AnswersOnGrid(period: int, t: int)
    requires 0 < period && IsInt64(t) && (t >= 0 || IsMultiple(t, period)) && GridAfter(period, t) <= MaxInt64
    ensures EveryNext(period, t) == Some(GridAfter(period, t))
  {
    QuotientOf(t, period);
    QuotientWithin(t, period);
    WrapWithin(t / period + 1);
    GridAfterIsLeast(period, t);
    WrapWithin(GridAfter(period, t));
  }

  /** Truncating division rounds a moment off the grid before the epoch up already,
      and the answer skips an instant. */
  lemma SkipsBeforeEpoch(period: int, t: int)
    requires 0 < period <= MaxInt64 && MinInt64 <= t < 0 && !IsMultiple(t, period)
    ensures EveryNext(period, t) == Some(GridAfter(period, t) + period)
  {
    QuotientOf(t, period);
    GridAfterIsLeast(period, t);
    DivUnique(0, period, 0, 0);
    assert GridAfter(period, t) <= 0;
    var q := t / period;
    NegativeQuotient(t, period);
    WrapWithin(q + 2);
    assert (q + 2) * period == GridAfter(period, t) + period;
    WrapWithin((q + 2) * period);
  }

  lemma NegativeQuotient(t: int, period: int)
    requires 0 < period && MinInt64 <= t < 0
    ensures MinInt64 <= t / period < 0
  {
    var q := t / period;
    assert t == q * period + t % period;
    Scaled(q, period);
    Grows(q, period);
  }

  /** The answer is the first multiple of the period after t exactly when t is no
      moment before the epoch off the grid and that multiple is within int64. */
  lemma EveryNextIsFirstExactly(period: int, t: int)
    requires 0 < period <= MaxInt64 && IsInt64(t)
    ensures EveryNext(period, t) == Some(GridAfter(period, t)) <==>
      (t >= 0 || IsMultiple(t, period)) && GridAfter(period, t) <= MaxInt64
    ensures IsMultiple(GridAfter(period, t), period) && GridAfter(period, t) > t
    ensures forall x :: t < x && IsMultiple(x, period) ==> GridAfter(period, t) <= x
  {
    GridAfterIsLeast(period, t);
    if t >= 0 || IsMultiple(t, period) {
      if GridAfter(period, t) <= MaxInt64 { AnswersOnGrid(period, t); } else { AnswerIsInt64(period, t); }
    } else {
      SkipsBeforeEpoch(period, t);
    }
  }

  lemma AnswerIsInt64(period: int, t: int)
    requires period > 0
    ensures IsInt64(EveryNext(period, t).value)
  {
    WrapWithin(Wrap(Quotient(t, period) + 1) * period);
  }

  function Every(period: int): Schedule { Schedule(t => EveryNext(period, t)) }

  lemma EveryAnswers(period: int, t: int)
    requires 0 < period <= MaxInt64 && 0 <= t && GridAfter(period, t) <= MaxInt64
    ensures AnswersFirst(Every(period), t)
  {
    var n := GridAfter(period, t);
    EveryNextIsFirstExactly(period, t);
    GridBefore(period, n);
    EveryNextIsFirstExactly(period, n - 1);
    forall x | t < x < n ensures !IsInstant(Every(period), x) {
      if GridAfter(period, x - 1) == x { GridAfterIsLeast(period, x - 1); }
      EveryNextIsFirstExactly(period, x - 1);
      GridAfterIsLeast(period, x - 1);
    }
  }

  lemma GridBefore(period: int, n: int)
    requires period > 0 && IsMultiple(n, period)
    ensures GridAfter(period, n - 1) == n
  {
    GridAfterIsLeast(period, n - 1);
  }

  /** A schedule firing every period answers every moment from the epoch on whose next
      instant an int64 holds. */
  lemma EveryAnswersRange(period: int, low: int, high: int)
    requires 0 < period <= MaxInt64 && 0 <= low && GridAfter(period, high) <= MaxInt64
    ensures Answering(Every(period), low, high) && forall t :: low <= t <= high ==> Every(period).next(t).Some?
  {
    forall t | low <= t <= high ensures AnswersFirst(Every(period), t) {
      GridGrows(period, t, high);
      EveryAnswers(period, t);
    }
  }

  /** Within a day and later of the epoch, the catch-up of a schedule firing every
      whole number of seconds has all it asks of its schedule. */
  lemma EveryCanBeCaughtUp(period: int, now: int)
    requires 1_000_000_000 <= period <= MaxInt64 && CatchUpLookback <= now && GridAfter(period, now) <= MaxInt64
    ensures Answering(Every(period), now - CatchUpLookback, now) && Spaced(Every(period), now - CatchUpLookback, now)
  {
    EveryAnswersRange(period, now - CatchUpLookback, now);
    forall x, y | IsInstant(Every(period), x) && IsInstant(Every(period), y) && now - CatchUpLookback < x < y <= now ensures y - x >= Millisecond {
      EverySpaced(period, x, y, now);
    }
  }

  lemma EverySpaced(period: int, x: int, y: int, now: int)
    requires 0 < period <= MaxInt64 && 0 < x < y <= now && GridAfter(period, now) <= MaxInt64
    requires IsInstant(Every(period), x) && IsInstant(Every(period), y)
    ensures x + period <= y
  {
    InstantsOnGrid(period, x, now);
    InstantsOnGrid(period, y, now);
    WholeProduct(x, period);
    WholeProduct(y, period);
    MultiplesAreApart(period, x / period, y / period);
  }

  lemma WholeProduct(x: int, period: int)
    requires period > 0 && IsMultiple(x, period)
    ensures x / period * period == x
  {
  }

  lemma GridGrows(period: int, t: int, now: int)
    requires period > 0 && t <= now
    ensures GridAfter(period, t) <= GridAfter(period, now)
  {
    GridAfterIsLeast(period, t);
    GridAfterIsLeast(period, now);
  }

  lemma InstantsOnGrid(period: int, x: int, now: int)
    requires 0 < period <= MaxInt64 && 0 < x <= now && GridAfter(period, now) <= MaxInt64 && IsInstant(Every(period), x)
    ensures IsMultiple(x, period)
  {
    GridGrows(period, x - 1, now);
    EveryNextIsFirstExactly(period, x - 1);
  }
}
