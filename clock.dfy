/**
 * Time as the bot sees it. Python's aware `datetime` values are modelled as
 * integer microseconds since the Unix epoch (UTC), the resolution `datetime`
 * keeps and that `isoformat()` writes out.
 */
module Clock {

  /** Microseconds since 1970-01-01T00:00:00Z. */
  type Instant = int

  const MICROS_PER_SECOND: int := 1_000_000
  const SECONDS_PER_DAY: int := 86_400
  const MINUTES_PER_DAY: int := 1_440
  /** The reminder sweep runs in the fixed zone UTC+7 (WIB). */
  const LOCAL_OFFSET_MINUTES: int := 7 * 60

  /** Integer division truncating toward zero, as Python's `int()` does to a float quotient. */
  function TruncDiv(a: int, b: int): (q: int)
    requires 0 < b
    ensures a >= 0 ==> q >= 0
    ensures a <= 0 ==> q <= 0
  {
    if a >= 0 then a / b else -((-a) / b)
  }

  /** The truncated quotient is the multiple of `b` nearest to `a` on the side of zero. */
  lemma TruncDivBounds(a: int, b: int)
    requires 0 < b
    ensures a >= 0 ==> TruncDiv(a, b) * b <= a < (TruncDiv(a, b) + 1) * b
    ensures a < 0 ==> (TruncDiv(a, b) - 1) * b < a <= TruncDiv(a, b) * b
  {
    if a >= 0 {
      var q, r := a / b, a % b;
      assert a == q * b + r && 0 <= r < b;
      ScaleSteps(q, b);
      assert TruncDiv(a, b) == q;
    } else {
      var q, r := (-a) / b, (-a) % b;
      assert -a == q * b + r && 0 <= r < b;
      ScaleSteps(q, b);
      assert TruncDiv(a, b) == -q;
    }
  }

  lemma ScaleSteps(q: int, b: int)
    ensures (q + 1) * b == q * b + b
    ensures (-q) * b == -(q * b)
    ensures (-q - 1) * b == -(q * b) - b
  {
  }

  /**
   * `int((end - start).total_seconds())`: whole seconds elapsed, truncated
   * toward zero, never clamped. Forwards it is the largest count of whole
   * seconds not exceeding the elapsed time; backwards, the mirror image.
   */
  function ElapsedSeconds(start: Instant, end: Instant): (seconds: int)
    ensures start <= end ==>
      seconds * MICROS_PER_SECOND <= end - start < (seconds + 1) * MICROS_PER_SECOND
    ensures end < start ==>
      (seconds - 1) * MICROS_PER_SECOND < end - start <= seconds * MICROS_PER_SECOND
  {
    TruncDiv(end - start, MICROS_PER_SECOND)
  }

  /** Truncation toward zero makes elapsed time antisymmetric, which flooring would not. */
  lemma ElapsedSecondsAntisymmetric(start: Instant, end: Instant)
    ensures ElapsedSeconds(start, end) == -ElapsedSeconds(end, start)
  {
  }

  /** An elapsed time of a full second or more backwards gives a negative duration: nothing clamps it. */
  lemma ElapsedSecondsSign(start: Instant, end: Instant)
    ensures start <= end ==> 0 <= ElapsedSeconds(start, end) && ElapsedSeconds(start, end) * MICROS_PER_SECOND <= end - start
    ensures end <= start - MICROS_PER_SECOND ==> ElapsedSeconds(start, end) < 0
    ensures start - MICROS_PER_SECOND < end < start ==> ElapsedSeconds(start, end) == 0
  {
  }

  /** `datetime.fromisoformat(x).date()` for a UTC timestamp: the day number since the epoch. */
  function UtcDay(t: Instant): (day: int)
    ensures day * 86_400_000_000 <= t < day * 86_400_000_000 + 86_400_000_000
  {
    t / (SECONDS_PER_DAY * MICROS_PER_SECOND)
  }

  /** Two instants fall on the same UTC day exactly when they lie in that day's interval. */
  lemma UtcDayInterval(t: Instant, day: int)
    ensures UtcDay(t) == day <==>
      day * SECONDS_PER_DAY * MICROS_PER_SECOND <= t < (day + 1) * SECONDS_PER_DAY * MICROS_PER_SECOND
  {
    var d := SECONDS_PER_DAY * MICROS_PER_SECOND;
    if day * d <= t < (day + 1) * d {
      DivisionIsUnique(t, d, day);
    }
  }

  lemma DivisionIsUnique(a: int, b: int, q: int)
    requires 0 < b && q * b <= a < (q + 1) * b
    ensures a / b == q
  {
    var q', r' := a / b, a % b;
    assert a == q' * b + r' && 0 <= r' < b;
    if q' < q {
      assert (q' + 1) * b == q' * b + b;
      MultiplicationIsMonotonic(q' + 1, q, b);
      assert false;
    } else if q < q' {
      assert (q + 1) * b == q * b + b;
      MultiplicationIsMonotonic(q + 1, q', b);
      assert false;
    }
  }

  lemma MultiplicationIsMonotonic(x: int, y: int, b: int)
    requires x <= y && 0 < b
    ensures x * b <= y * b
  {
    assert y * b - x * b == (y - x) * b;
  }

  /** The UTC+7 wall-clock minute of the day, `now.hour * 60 + now.minute` in that zone. */
  function LocalMinuteOfDay(t: Instant): (minute: int)
    ensures 0 <= minute < MINUTES_PER_DAY
  {
    (t / (60 * MICROS_PER_SECOND) + LOCAL_OFFSET_MINUTES) % MINUTES_PER_DAY
  }

  /** One minute later the local clock reads one minute more, wrapping at midnight. */
  lemma LocalMinuteAdvances(t: Instant)
    ensures LocalMinuteOfDay(t + 60 * MICROS_PER_SECOND) == (LocalMinuteOfDay(t) + 1) % MINUTES_PER_DAY
  {
    var unit := 60 * MICROS_PER_SECOND;
    DivisionIsUnique(t + unit, unit, t / unit + 1);
  }
}
