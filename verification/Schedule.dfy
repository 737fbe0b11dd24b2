/** Schedule arithmetic (cronjob/schedule.go), moments and durations as
    nanoseconds. A schedule answers only the first instant after a moment. */
module Schedule {
  import opened Sql

  datatype Schedule = Schedule(next: int -> Option<int>)

  predicate IsInstant(s: Schedule, x: int) { s.next(x - 1) == Some(x) }

  /** After t comes the first instant after t, or no instant at all. */
  ghost predicate AnswersFirst(s: Schedule, t: int) {
    match s.next(t)
    case None => forall x :: x > t ==> !IsInstant(s, x)
    case Some(n) => n > t && IsInstant(s, n) && forall x :: t < x < n ==> !IsInstant(s, x)
  }

  ghost predicate Answering(s: Schedule, from: int, to: int) { forall t :: from <= t <= to ==> AnswersFirst(s, t) }

  const Millisecond := 1_000_000
  const CatchUpLookback := 24 * 3600 * 1_000_000_000

  /** Instants lie a millisecond apart at the least; a parsed schedule's are whole
      seconds. */
  ghost predicate Spaced(s: Schedule, from: int, to: int) {
    forall x, y :: IsInstant(s, x) && IsInstant(s, y) && from < x < y <= to ==> y - x >= Millisecond
  }

  /** The most recent instant at or before now, and within the lookback. */
  ghost predicate IsPrevious(s: Schedule, now: int, x: int) {
    now - CatchUpLookback < x <= now && IsInstant(s, x) && forall y :: x < y <= now ==> !IsInstant(s, y)
  }

  predicate Reached(s: Schedule, t: int, now: int) { s.next(t).Some? && s.next(t).value <= now }

  method PreviousInstant(s: Schedule, now: int) returns (at: Option<int>)
    requires Answering(s, now - CatchUpLookback, now) && Spaced(s, now - CatchUpLookback, now)
    ensures at.Some? ==> IsPrevious(s, now, at.value)
    ensures at.None? ==> forall x :: now - CatchUpLookback < x <= now ==> !IsInstant(s, x)
  {
    var lo, hi := now - CatchUpLookback, now;
    assert AnswersFirst(s, lo) && AnswersFirst(s, now);
    if !Reached(s, lo, now) { return None; }
    while hi - lo > Millisecond
      invariant now - CatchUpLookback <= lo <= hi <= now
      invariant Reached(s, lo, now) && !Reached(s, hi, now)
      decreases hi - lo
    {
      var mid := lo + (hi - lo) / 2;
      if Reached(s, mid, now) { lo := mid; } else { hi := mid; }
    }
    assert AnswersFirst(s, lo) && AnswersFirst(s, hi);
    at := s.next(lo);
  }

  // ---- every period ----

  const MaxInt64 := 0x7FFF_FFFF_FFFF_FFFF
  const MinInt64 := -0x8000_0000_0000_0000

  predicate IsInt64(x: int) { MinInt64 <= x <= MaxInt64 }

  /** Go's int64 arithmetic wraps, and its division truncates toward zero. */
  function Wrap(x: int): int { (x - MinInt64) % 0x1_0000_0000_0000_0000 + MinInt64 }

  function Quotient(a: int, b: int): int
    requires b > 0
  {
    if a >= 0 then a / b else -(-a / b)
  }

  /** The instant after t of a schedule firing every period, on the multiples of the
      period counted from the Unix epoch. */
  function EveryNext(period: int, t: int): Option<int> {
    if period <= 0 then None else Some(Wrap(Wrap(Quotient(t, period) + 1) * period))
  }

  predicate IsMultiple(x: int, period: int)
    requires period > 0
  {
    x % period == 0
  }

  /** The least multiple of period above t. */
  function GridAfter(period: int, t: int): int
    requires period > 0
  {
    (t / period + 1) * period
  }

  lemma Scaled(k: int, b: int)
    requires b > 0
    ensures k >= 1 ==> k * b >= b
    ensures k <= -1 ==> k * b <= -b
  {
    if k >= 1 { assert k * b == (k - 1) * b + b; }
    if k <= -1 { assert k * b == (k + 1) * b - b; }
  }

  lemma DivUnique(a: int, b: int, q: int, r: int)
    requires b > 0 && a == q * b + r && 0 <= r < b
    ensures a / b == q && a % b == r
  {
    var p, s := a / b, a % b;
    assert a == p * b + s;
    assert (p - q) * b == r - s;
    Scaled(p - q, b);
  }

  lemma MultiplesAreApart(period: int, x: int, y: int)
    requires period > 0 && x * period < y * period
    ensures x * period + period <= y * period
  {
    assert (y - x) * period == y * period - x * period;
    Scaled(y - x, period);
  }

  lemma GridAfterIsLeast(period: int, t: int)
    requires period > 0
    ensures IsMultiple(GridAfter(period, t), period) && t < GridAfter(period, t) <= t + period
    ensures forall x :: t < x && IsMultiple(x, period) ==> GridAfter(period, t) <= x
  {
    var g := GridAfter(period, t);
    assert g == t - t % period + period by { assert t == t / period * period + t % period; }
    DivUnique(g, period, t / period + 1, 0);
    forall x | t < x && IsMultiple(x, period) ensures g <= x {
      assert x == x / period * period;
      if x < g { MultiplesAreApart(period, x / period, t / period + 1); }
    }
  }

  /** What is caught up lies less than a day back, on the instant. */
  lemma LookbackIsADay(s: Schedule, now: int, x: int)
    ensures IsPrevious(s, now, x) <==>
      IsInstant(s, x) && 0 <= now - x < 86_400_000_000_000 && forall y :: x < y <= now ==> !IsInstant(s, y)
  {
  }
}
