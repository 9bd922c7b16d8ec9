/** The clock: times are whole seconds of local time, counted from a local
    midnight, so that a day bucket is the floor of the time divided by the
    length of a day. */
module Clock {

  /** Seconds in one day (`timedelta(days=1)`). */
  const SecondsPerDay: int := 86400

  /** Width of the "online" window in seconds (`timedelta(minutes=5)`). */
  const OnlineWindow: int := 300

  /** The day bucket of time `t`: truncation to local midnight, keeping only
      the calendar date. The bucket starts at or before `t` and the next one
      starts after it. */
  function Day(t: int): (d: int)
    ensures d * SecondsPerDay <= t < (d + 1) * SecondsPerDay
  {
    t / SecondsPerDay
  }

  /** A time lies in bucket `d` exactly when it falls between the midnight
      that opens day `d` (inclusive) and the next midnight (exclusive). */
  lemma DayIff(t: int, d: int)
    ensures Day(t) == d <==> d * SecondsPerDay <= t < (d + 1) * SecondsPerDay
  {
    var e := Day(t);
    if d < e {
      assert (d + 1) * SecondsPerDay <= e * SecondsPerDay;
    } else if e < d {
      assert (e + 1) * SecondsPerDay <= d * SecondsPerDay;
    }
  }

  /** Two times on the same calendar date share a bucket. */
  lemma SameDateSameBucket(t1: int, t2: int, d: int)
    requires d * SecondsPerDay <= t1 < (d + 1) * SecondsPerDay
    requires d * SecondsPerDay <= t2 < (d + 1) * SecondsPerDay
    ensures Day(t1) == Day(t2) == d
  {
    DayIff(t1, d);
    DayIff(t2, d);
  }

  /** Day boundaries: the last second before midnight belongs to its day, the
      midnight itself to the next. */
  lemma MidnightBoundary(d: int)
    ensures Day((d + 1) * SecondsPerDay - 1) == d
    ensures Day((d + 1) * SecondsPerDay) == d + 1
  {
    DayIff((d + 1) * SecondsPerDay - 1, d);
    DayIff((d + 1) * SecondsPerDay, d + 1);
  }

  /** The same time of day, one day earlier, lies in the previous bucket. */
  lemma YesterdayBucket(t: int)
    ensures Day(t - SecondsPerDay) == Day(t) - 1
  {
    DayIff(t - SecondsPerDay, Day(t) - 1);
  }
}
