/** When time_bucket gives a bucket: whenever the bucket is in range, but for two milliseconds at the ends. */
module TimeBucketRange {
  import opened Sequences
  import opened Calendar
  import opened CalendarOrder
  import opened TimeBucket

  /** A bucket in microseconds is given if the distances from the origin are 64-bit numbers. */
  lemma MicrosBucketInRange(months: Months, w: int, ts: int, origin: int)
    requires ValidMonths(months) && w > 0 && Ordinary(origin) && Ordinary(origin + Floor(ts - origin, w))
    requires InInt64(ts - origin) && InInt64(Floor(ts - origin, w))
    ensures MicrosBucket(months, w, ts, origin) == Ok(origin + Floor(ts - origin, w))
    ensures InBucket(origin + Floor(ts - origin, w), ts, origin, w)
  {
    hide Floor, Sum, ValidMonths, InBucket;
    OrdinarySum(months, origin, Interval(0, 0, Floor(ts - origin, w)));
    FloorInBucket(ts - origin, w, origin);
  }

  /** The days between two timestamps are always a 32-bit number. */
  lemma DaysInRange(w: int, ts: int, origin: int)
    requires w > 0 && InInt64(ts) && InInt64(origin)
    ensures InInt32(Quotient(DaysBetween(origin, ts), w) * w)
  {
    TruncateInRange(DaysBetween(origin, ts), w, INT32_MIN, INT32_MAX) by {
      assert -300_000_000 < DaysBetween(origin, ts) < 300_000_000;
    }
  }

  /** A bucket in days is given if the day that it is counted to is in range. */
  lemma DaysBucketInRange(months: Months, w: int, ts: int, origin: int)
    requires ValidMonths(months) && w > 0 && InInt64(ts) && Ordinary(origin)
    requires var b := origin + Quotient(DaysBetween(origin, ts), w) * w * MICROS_PER_DAY;
             Ordinary(b) && (ts < b ==> Ordinary(b - w * MICROS_PER_DAY))
    ensures DaysBucket(months, w, ts, origin).Ok?
    ensures InBucket(DaysBucket(months, w, ts, origin).value, ts, origin, w * MICROS_PER_DAY) <==> !Slips(w, ts, origin)
  {
    var days := Quotient(DaysBetween(origin, ts), w) * w;
    var b := origin + days * MICROS_PER_DAY;
    DaysInRange(w, ts, origin);
    hide Quotient, DaysBetween, Sum, ValidMonths, InBucket, Slips;
    OrdinarySum(months, origin, Interval(0, days, 0));
    if ts < b {
      OrdinarySum(months, b, Interval(0, -w, 0));
    }
    DaysBucketLaw(months, w, ts, origin);
  }

  /** A month has at least one day. */
  lemma {:induction false} MonthsTakeDays(months: Months, m: int, k: int)
    requires ValidMonths(months) && m <= k
    ensures months.start(k) - months.start(m) >= (k - m) * MSECS_PER_DAY
    decreases k - m
  {
    if m < k {
      MonthsTakeDays(months, m, k - 1);
      NextMonth(months, k - 1);
    }
  }

  lemma NextMonth(months: Months, m: int)
    requires ValidMonths(months)
    ensures months.start(m + 1) - months.start(m) >= MSECS_PER_DAY
  {
    var a, b := months.start(m), months.start(m + 1);
    assert a % MSECS_PER_DAY == 0 && months.start(m + 1) % MSECS_PER_DAY == 0;
  }

  /** The months between two timestamps are always a 32-bit number. */
  lemma MonthsInRange(months: Months, ts: int, origin: int)
    requires ValidMonths(months) && InInt64(ts) && InInt64(origin)
    ensures InInt32(MonthOf(months, ts) - MonthOf(months, origin))
  {
    var t, o := ts / MICROS_PER_MSEC, origin / MICROS_PER_MSEC;
    var m, k := MonthOf(months, ts), MonthOf(months, origin);
    assert months.start(m) <= t < months.start(m + 1) && months.start(k) <= o < months.start(k + 1);
    if m > k {
      MonthsTakeDays(months, k + 1, m);
    } else if m < k {
      MonthsTakeDays(months, m + 1, k);
    }
    hide ValidMonths;
  }

  /** A bucket in months is given if the months that it is counted from and to start in range. */
  lemma MonthsBucketInRange(months: Months, w: int, ts: int, origin: int)
    requires ValidMonths(months) && w > 0 && InInt64(ts) && InInt64(origin)
    requires var first := MonthOf(months, origin); var n := Floor(MonthOf(months, ts) - first, w);
             && InInt32(n) && LOWEST <= TimeUnsafe(months.start(first), 0) < INFINITY
             && LOWEST <= TimeUnsafe(months.start(first + n), 0) < INFINITY
    ensures var first := MonthOf(months, origin); var m := first + Floor(MonthOf(months, ts) - first, w);
            MonthsBucket(months, w, ts, origin) == Ok(TimeUnsafe(months.start(m), 0))
            && InMonthBucket(months, m, ts, first, w)
  {
    hide Floor, MonthOf, Sum, InMonthBucket, ValidMonths, Made;
    var first := MonthOf(months, origin);
    var n := Floor(MonthOf(months, ts) - first, w);
    MonthsInRange(months, ts, origin);
    MonthBucketUnique(months, first + n, ts, first, w);
    var t := TimeUnsafe(months.start(first), 0);
    SumOfOnlyMonths(months, t, n);
    AddToStart(months, first, n);
    assert t / MICROS_PER_MSEC == months.start(first) && t % MICROS_PER_MSEC == 0;
    MadeInRange(months.start(first), months.start(first + n), 0);
  }

  lemma AddToStart(months: Months, m: int, k: int)
    requires ValidMonths(months)
    ensures months.add(months.start(m), k) == months.start(m + k)
  {
  }
}
