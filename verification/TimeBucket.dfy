/** time_bucket: the start of the bucket of a given width that a timestamp falls into. */
module TimeBucket {
  import opened Sequences
  import opened Calendar

  // ----- which kind of width -----

  datatype BucketWidthType = CONVERTIBLE_TO_MICROS | CONVERTIBLE_TO_DAYS | CONVERTIBLE_TO_MONTHS | UNCLASSIFIED

  function ClassifyBucketWidth(w: Interval): BucketWidthType {
    if w.months == 0 && w.days == 0 && w.micros > 0 then CONVERTIBLE_TO_MICROS
    else if w.months == 0 && w.days >= 0 && w.micros == 0 then CONVERTIBLE_TO_DAYS
    else if w.months > 0 && w.days == 0 && w.micros == 0 then CONVERTIBLE_TO_MONTHS
    else UNCLASSIFIED
  }

  function ClassifyBucketWidthErrorThrow(w: Interval): TimeResult<BucketWidthType> {
    if w.months == 0 && w.days == 0 then (if w.micros <= 0 then Err(Unsupported) else Ok(CONVERTIBLE_TO_MICROS))
    else if w.months == 0 && w.micros == 0 then (if w.days <= 0 then Err(Unsupported) else Ok(CONVERTIBLE_TO_DAYS))
    else if w.days == 0 && w.micros == 0 then (if w.months <= 0 then Err(Unsupported) else Ok(CONVERTIBLE_TO_MONTHS))
    else Err(Unsupported)
  }

  /** The quick classifier and the one that reports errors agree on every positive width; the quick one alone also
      takes the zero width, as a width of zero days. */
  lemma ClassifiersAgree(w: Interval)
    ensures ClassifyBucketWidthErrorThrow(w).Ok? <==>
              ClassifyBucketWidth(w) != UNCLASSIFIED && w != Interval(0, 0, 0)
    ensures ClassifyBucketWidthErrorThrow(w).Ok? ==> ClassifyBucketWidthErrorThrow(w).value == ClassifyBucketWidth(w)
  {
  }

  // ----- the law of buckets -----

  /** `b` starts a bucket of width `w` counted from the origin, and `x` lies in it. */
  predicate InBucket(b: int, x: int, origin: int, w: int)
    requires w > 0
  {
    b <= x < b + w && (b - origin) % w == 0
  }

  /** A point lies in one bucket only. */
  lemma BucketUnique(b: int, b': int, x: int, origin: int, w: int)
    requires w > 0 && InBucket(b, x, origin, w) && InBucket(b', x, origin, w)
    ensures b == b'
  {
    var k, k' := (b - origin) / w, (b' - origin) / w;
    assert b == origin + k * w && b' == origin + k' * w;
    if k < k' {
      MulStep(k, k', w);
    } else if k' < k {
      MulStep(k', k, w);
    }
  }

  lemma {:induction false} MulStep(a: int, b: int, w: int)
    requires a < b && w > 0
    ensures a * w + w <= b * w
    decreases b - a
  {
    assert b * w == (b - 1) * w + w;
    if a < b - 1 {
      MulStep(a, b - 1, w);
    }
  }

  /** Later points lie in later buckets. */
  lemma BucketMonotone(b: int, b': int, x: int, x': int, origin: int, w: int)
    requires w > 0 && InBucket(b, x, origin, w) && InBucket(b', x', origin, w) && x <= x'
    ensures b <= b'
  {
    var k, k' := (b - origin) / w, (b' - origin) / w;
    assert b == origin + k * w && b' == origin + k' * w;
    if k < k' {
      MulStep(k, k', w);
    } else if k' < k {
      MulStep(k', k, w);
    }
  }

  /** The bucket of `x` counted from 0. */
  function Floor(x: int, w: int): int
    requires w > 0
  {
    (x / w) * w
  }

  lemma FloorInBucket(x: int, w: int, origin: int)
    requires w > 0
    ensures InBucket(origin + Floor(x, w), origin + x, origin, w)
  {
    assert x == Floor(x, w) + x % w;
    DivUnique(Floor(x, w), w, x / w, 0);
  }

  /** Rounding toward zero, and one width less for negative numbers that are no multiple, is rounding down. */
  lemma TruncateThenStepBack(x: int, w: int)
    requires w > 0
    ensures Quotient(x, w) * w - (if x < 0 && Remainder(x, w) != 0 then w else 0) == Floor(x, w)
  {
    if x < 0 {
      var q, r := (-x) / w, (-x) % w;
      assert -x == q * w + r;
      if r == 0 {
        assert x == (-q) * w;
        DivUnique(x, w, -q, 0);
      } else {
        assert x == (-q - 1) * w + (w - r);
        DivUnique(x, w, -q - 1, w - r);
      }
    }
  }

  lemma DivUnique(x: int, w: int, q: int, r: int)
    requires w > 0 && x == q * w + r && 0 <= r < w
    ensures x / w == q && x % w == r
  {
    var q', r' := x / w, x % w;
    assert (q - q') * w == r' - r;
    if q > q' {
      MulStep(0, q - q', w);
    } else if q < q' {
      MulStep(0, q' - q, w);
    }
  }

  // ----- widths in microseconds -----

  /** What the bucket of a microsecond width is, when nothing overflows. */
  function MicrosBucket(months: Months, w: int, ts: int, origin: int): TimeResult<int>
    requires w > 0
  {
    var x := ts - origin;
    if !InInt64(x) || !InInt64(Floor(x, w)) then Err(Overflow)
    else Sum(months, origin, Interval(0, 0, Floor(x, w)))
  }

  /** Rounding toward zero does not overflow; only the step back can. */
  lemma TruncateInRange(x: int, w: int, low: int, high: int)
    requires w > 0 && low <= x <= high && low <= 0 <= high
    ensures low <= Quotient(x, w) * w <= high
  {
    var r := Remainder(x, w);
    assert Quotient(x, w) * w == x - r;
    if x >= 0 {
      QuotientSign(Quotient(x, w), w);
    } else {
      QuotientSign(-Quotient(x, w), w);
    }
  }

  lemma QuotientSign(q: int, w: int)
    requires q >= 0 && w > 0
    ensures q * w >= 0 && -q * w <= 0
  {
  }

  method WidthConvertibleToMicrosCommon(w: int, ts: int, origin: int, calendar: IcuCalendar) returns (r: TimeResult<int>)
    requires w >= 0 && InInt64(w)
    modifies calendar
    ensures r == if w == 0 then Err(OutOfRange) else MicrosBucket(calendar.months, w, ts, origin)
  {
    if w == 0 {
      return Err(OutOfRange);
    }
    var x := ts - origin;
    if !InInt64(x) {
      return Err(Overflow);
    }
    TruncateThenStepBack(x, w);
    TruncateInRange(x, w, INT64_MIN, INT64_MAX);
    hide Floor, Quotient, Remainder, Sum;
    var result := Quotient(x, w) * w;
    if x < 0 && Remainder(x, w) != 0 {
      result := result - w;
      if !InInt64(result) {
        return Err(Overflow);
      }
    }
    r := AddInterval(calendar, origin, Interval(0, 0, result));
  }

  /** time_bucket with a microsecond width: the bucket that is returned contains the timestamp and lies a multiple of
      the width away from the origin. */
  lemma MicrosBucketLaw(months: Months, w: int, ts: int, origin: int)
    requires ValidMonths(months) && w > 0 && IsFinite(origin)
    ensures var r := MicrosBucket(months, w, ts, origin); r.Ok? ==> InBucket(r.value, ts, origin, w)
  {
    if InInt64(ts - origin) && InInt64(Floor(ts - origin, w)) {
      FloorInBucket(ts - origin, w, origin);
      SumIsExact(months, origin, Interval(0, 0, Floor(ts - origin, w)));
    }
  }

  // ----- widths in days -----

  /** The whole days from the origin to a timestamp, as the calendar counts them: from the millisecond below the
      origin to the millisecond of the timestamp nearest to the epoch, rounding toward zero. */
  function DaysBetween(origin: int, ts: int): int {
    Quotient(Quotient(ts, MICROS_PER_MSEC) - origin / MICROS_PER_MSEC, MSECS_PER_DAY)
  }

  function DaysBucket(months: Months, w: int, ts: int, origin: int): TimeResult<int>
    requires w > 0
  {
    var days := Quotient(DaysBetween(origin, ts), w) * w;
    if !InInt32(days) then Err(Overflow) else
    var bucket := Sum(months, origin, Interval(0, days, 0));
    if bucket.Ok? && ts < bucket.value then Sum(months, bucket.value, Interval(0, -w, 0)) else bucket
  }

  method WidthConvertibleToDaysCommon(w: int, ts: int, origin: int, calendar: IcuCalendar) returns (r: TimeResult<int>)
    requires w >= 0 && InInt32(w)
    modifies calendar
    ensures r == if w == 0 then Err(OutOfRange) else DaysBucket(calendar.months, w, ts, origin)
  {
    if w == 0 {
      return Err(OutOfRange);
    }
    hide Quotient, Remainder, Sum;
    var _ := SetTime(calendar, origin);
    var tsDays := calendar.FieldDifference(Quotient(ts, MICROS_PER_MSEC), DATE);
    assert tsDays == DaysBetween(origin, ts);
    var resultDays := Quotient(tsDays, w) * w;
    if !InInt32(resultDays) {
      return Err(Overflow);
    }
    r := AddInterval(calendar, origin, Interval(0, resultDays, 0));
    if r.Ok? && ts < r.value {
      r := AddInterval(calendar, r.value, Interval(0, -w, 0));
    }
  }

  /** Rounding twice toward zero is rounding once: the bucket of a number of milliseconds. */
  lemma WholeDays(m: int, w: int)
    requires w > 0
    ensures var edge := Quotient(Quotient(m, MSECS_PER_DAY), w) * w * MSECS_PER_DAY;
            if m >= 0 then 0 <= m - edge < w * MSECS_PER_DAY else -w * MSECS_PER_DAY < m - edge <= 0
  {
    var days := Quotient(m, MSECS_PER_DAY);
    assert days == Quotient(days, w) * w + Remainder(days, w);
    assert m == days * MSECS_PER_DAY + Remainder(m, MSECS_PER_DAY);
  }

  /** When the bucket slips: a timestamp before the epoch whose bucket starts less than a millisecond after it, when
      the parts of a millisecond of origin and timestamp add up to more than one. */
  predicate Slips(w: int, ts: int, origin: int)
    requires w > 0
  {
    var m := Quotient(ts, MICROS_PER_MSEC) - origin / MICROS_PER_MSEC;
    && ts < 0 && m < 0
    && origin % MICROS_PER_MSEC + (-ts) % MICROS_PER_MSEC > MICROS_PER_MSEC
    && (m - 1) % (w * MSECS_PER_DAY) == 0
  }

  /** Multiples of the width are bucket boundaries. */
  lemma Boundary(k: int, width: int)
    requires width > 0
    ensures (k * width) % width == 0 && (k * width - width) % width == 0
  {
    DivUnique(k * width, width, k, 0);
    assert (k - 1) * width == k * width - width;
    DivUnique(k * width - width, width, k - 1, 0);
  }

  /** Within the bucket rounded toward zero, only the last millisecond can slip. */
  lemma SlipsAtEnd(k: int, msecs: int, m: int)
    requires msecs > 0 && -msecs < m - k * msecs <= 0
    ensures (m - 1) % msecs == 0 <==> m - k * msecs == 1 - msecs
  {
    var rest := m - k * msecs;
    assert (k - 1) * msecs == k * msecs - msecs;
    if rest == 1 - msecs {
      DivUnique(m - 1, msecs, k - 1, 0);
    } else {
      DivUnique(m - 1, msecs, k - 1, rest - 1 + msecs);
    }
  }

  /** A timestamp relative to the boundary `edge` milliseconds from the origin. */
  lemma Position(ts: int, origin: int, m: int, edge: int, msecs: int)
    requires m == Quotient(ts, MICROS_PER_MSEC) - origin / MICROS_PER_MSEC && msecs >= MSECS_PER_DAY
    requires if m >= 0 then 0 <= m - edge < msecs else -msecs < m - edge <= 0
    ensures var b, width := origin + edge * MICROS_PER_MSEC, msecs * MICROS_PER_MSEC;
            var start := if ts < b then b - width else b;
            start <= ts < start + width <==>
              !(ts < 0 && m < 0 && m - edge == 1 - msecs
                && origin % MICROS_PER_MSEC + (-ts) % MICROS_PER_MSEC > MICROS_PER_MSEC)
  {
    assert ts == Quotient(ts, MICROS_PER_MSEC) * MICROS_PER_MSEC + Remainder(ts, MICROS_PER_MSEC);
  }

  lemma Regroup(k: int, w: int, c: int)
    ensures k * w * c == k * (w * c)
  {
  }

  /** Slipping, seen from the boundary `edge` that rounding toward zero finds. */
  lemma SlipsFromEdge(w: int, ts: int, origin: int, days: int)
    requires w > 0 && days == Quotient(DaysBetween(origin, ts), w) * w
    ensures var m, edge := Quotient(ts, MICROS_PER_MSEC) - origin / MICROS_PER_MSEC, days * MSECS_PER_DAY;
            Slips(w, ts, origin) <==>
              (ts < 0 && m < 0 && m - edge == 1 - w * MSECS_PER_DAY
               && origin % MICROS_PER_MSEC + (-ts) % MICROS_PER_MSEC > MICROS_PER_MSEC)
  {
    var m := Quotient(ts, MICROS_PER_MSEC) - origin / MICROS_PER_MSEC;
    var k := Quotient(DaysBetween(origin, ts), w);
    if m < 0 {
      WholeDays(m, w);
      hide Quotient;
      Regroup(k, w, MSECS_PER_DAY);
      SlipsAtEnd(k, w * MSECS_PER_DAY, m);
    }
  }

  /** Whether a time lies in the bucket at a boundary is whether it lies between that and the next. */
  lemma AtBoundary(b: int, ts: int, origin: int, k: int, width: int)
    requires width > 0 && b == origin + k * width
    ensures InBucket(b, ts, origin, width) <==> b <= ts < b + width
    ensures InBucket(b - width, ts, origin, width) <==> b - width <= ts < b
  {
    Boundary(k, width);
    assert b - origin == k * width && b - width - origin == k * width - width;
  }

  /** The arithmetic of a day bucket: the days rounded toward zero, and one width less if that lies after the
      timestamp. */
  lemma DaysLaw(w: int, ts: int, origin: int, days: int)
    requires w > 0 && days == Quotient(DaysBetween(origin, ts), w) * w
    ensures var b, width := origin + days * MICROS_PER_DAY, w * MICROS_PER_DAY;
            InBucket(if ts < b then b - width else b, ts, origin, width) <==> !Slips(w, ts, origin)
  {
    var m := Quotient(ts, MICROS_PER_MSEC) - origin / MICROS_PER_MSEC;
    assert DaysBetween(origin, ts) == Quotient(m, MSECS_PER_DAY);
    hide *;
    var k := Quotient(Quotient(m, MSECS_PER_DAY), w);
    WholeDays(m, w);
    SlipsFromEdge(w, ts, origin, days);
    Regroup(k, w, MICROS_PER_DAY);
    AtBoundary(origin + days * MICROS_PER_DAY, ts, origin, k, w * MICROS_PER_DAY);
    Position(ts, origin, m, days * MSECS_PER_DAY, w * MSECS_PER_DAY);
  }

  /** The bucket that is returned: the one rounded toward zero or the one before it. */
  lemma DaysBucketIs(months: Months, w: int, ts: int, origin: int, days: int)
    requires ValidMonths(months) && w > 0 && IsFinite(origin) && days == Quotient(DaysBetween(origin, ts), w) * w
    ensures var r, b := DaysBucket(months, w, ts, origin), origin + days * MICROS_PER_DAY;
            r.Ok? ==> r.value == if ts < b then b - w * MICROS_PER_DAY else b
  {
    SumIsExact(months, origin, Interval(0, days, 0));
    var b := Sum(months, origin, Interval(0, days, 0));
    if b.Ok? {
      SumIsExact(months, b.value, Interval(0, -w, 0));
    }
    hide Sum, Quotient, DaysBetween, ValidMonths;
  }

  /** time_bucket with a width in days: the bucket that is returned contains the timestamp and lies a multiple of the
      width away from the origin, unless it slips. */
  lemma DaysBucketLaw(months: Months, w: int, ts: int, origin: int)
    requires ValidMonths(months) && w > 0 && IsFinite(origin)
    ensures var r := DaysBucket(months, w, ts, origin);
            r.Ok? ==> (InBucket(r.value, ts, origin, w * MICROS_PER_DAY) <==> !Slips(w, ts, origin))
  {
    hide *;
    var days := Quotient(DaysBetween(origin, ts), w) * w;
    DaysLaw(w, ts, origin, days);
    DaysBucketIs(months, w, ts, origin, days);
  }

  /** An origin on a whole millisecond, such as the default one, never lets a bucket slip; neither does a timestamp
      after the epoch. */
  lemma WholeOriginNeverSlips(w: int, ts: int, origin: int)
    requires w > 0 && (origin % MICROS_PER_MSEC == 0 || ts >= 0)
    ensures !Slips(w, ts, origin)
  {
    hide Quotient;
    assert (-ts) % MICROS_PER_MSEC < MICROS_PER_MSEC;
  }

  /** A bucket that slips: counted in days from 600 microseconds past the epoch, the timestamp half a millisecond
      less than a day before the epoch is given the bucket that starts 100 microseconds after it. */
  lemma SlipExample(months: Months)
    requires ValidMonths(months)
    ensures DaysBucket(months, 1, 500 - MICROS_PER_DAY, 600) == Ok(600 - MICROS_PER_DAY)
  {
    var ts := 500 - MICROS_PER_DAY;
    assert DaysBetween(600, ts) == 0;
    assert months.add(0, 0) == 0;
    assert Sum(months, 600, Interval(0, 0, 0)) == Ok(600);
    assert Sum(months, 600, Interval(0, -1, 0)) == Ok(600 - MICROS_PER_DAY);
  }

  // ----- widths in months -----

  function MonthOf(months: Months, ts: int): int {
    months.number(ts / MICROS_PER_MSEC)
  }

  function MonthsBucket(months: Months, w: int, ts: int, origin: int): TimeResult<int>
    requires w > 0
  {
    var first := MonthOf(months, origin);
    var count := MonthOf(months, ts) - first;
    if !InInt32(count) || !InInt32(Floor(count, w)) then Err(Overflow)
    else Sum(months, TimeUnsafe(months.start(first), 0), Interval(Floor(count, w), 0, 0))
  }

  method TruncateToMonth(calendar: IcuCalendar, ts: int) returns (truncated: int)
    modifies calendar
    ensures truncated == TimeUnsafe(calendar.months.start(MonthOf(calendar.months, ts)), 0)
  {
    var _ := SetTime(calendar, ts);
    calendar.TruncMonth();
    truncated := TimeUnsafe(calendar.millis, 0);
  }

  /** The months from the start of the origin's month to the start of the timestamp's. */
  method MonthsBetween(calendar: IcuCalendar, ts: int, origin: int) returns (truncatedOrigin: int, n: int)
    requires ValidMonths(calendar.months)
    modifies calendar
    ensures truncatedOrigin == TimeUnsafe(calendar.months.start(MonthOf(calendar.months, origin)), 0)
    ensures n == MonthOf(calendar.months, ts) - MonthOf(calendar.months, origin)
  {
    var truncatedTs := TruncateToMonth(calendar, ts);
    truncatedOrigin := TruncateToMonth(calendar, origin);
    StartsItsMonth(calendar.months, MonthOf(calendar.months, ts));
    StartsItsMonth(calendar.months, MonthOf(calendar.months, origin));
    var _ := SetTime(calendar, truncatedOrigin);
    n := calendar.MonthDifference(Quotient(truncatedTs, MICROS_PER_MSEC));
  }

  method WidthConvertibleToMonthsCommon(w: int, ts: int, origin: int, calendar: IcuCalendar) returns (r: TimeResult<int>)
    requires w >= 0 && InInt32(w) && ValidMonths(calendar.months)
    modifies calendar
    ensures r == if w == 0 then Err(OutOfRange) else MonthsBucket(calendar.months, w, ts, origin)
  {
    if w == 0 {
      return Err(OutOfRange);
    }
    var truncatedOrigin, tsMonths := MonthsBetween(calendar, ts, origin);
    hide *;
    if !InInt32(tsMonths) {
      return Err(Overflow);
    }
    TruncateThenStepBack(tsMonths, w);
    TruncateInRange(tsMonths, w, INT32_MIN, INT32_MAX);
    var resultMonths := Quotient(tsMonths, w) * w;
    if tsMonths < 0 && Remainder(tsMonths, w) != 0 {
      resultMonths := resultMonths - w;
      if !InInt32(resultMonths) {
        return Err(Overflow);
      }
    }
    r := AddInterval(calendar, truncatedOrigin, Interval(resultMonths, 0, 0));
  }

  lemma StartsInOrder(months: Months, m: int, k: int)
    requires ValidMonths(months) && m <= k
    ensures months.start(m) <= months.start(k) && (m < k ==> months.start(m) < months.start(k))
    decreases k - m
  {
    if m < k {
      StartsInOrder(months, m, k - 1);
      assert months.start(k - 1) < months.start(k - 1 + 1);
    }
  }

  /** The start of a month lies in that month. */
  lemma StartsItsMonth(months: Months, m: int)
    requires ValidMonths(months)
    ensures months.number(months.start(m)) == m
  {
    var t := months.start(m);
    var n := months.number(t);
    assert months.start(n) <= t < months.start(n + 1);
    if n < m {
      StartsInOrder(months, n + 1, m);
    } else if m < n {
      StartsInOrder(months, m, n);
    }
  }

  /** The bucket that starts with month `m`, when months are grouped by `w` from month `first` on. */
  predicate InMonthBucket(months: Months, m: int, ts: int, first: int, w: int)
    requires w > 0
  {
    && (m - first) % w == 0
    && TimeUnsafe(months.start(m), 0) <= ts < TimeUnsafe(months.start(m + w), 0)
  }

  /** A group of months holds a timestamp if and only if it holds the timestamp's month. */
  lemma GroupHoldsMonth(months: Months, m: int, ts: int, first: int, w: int)
    requires ValidMonths(months) && w > 0
    ensures InMonthBucket(months, m, ts, first, w) <==> InBucket(m, MonthOf(months, ts), first, w)
  {
    var n := MonthOf(months, ts);
    assert months.start(n) <= ts / MICROS_PER_MSEC < months.start(n + 1);
    if n < m {
      StartsInOrder(months, n + 1, m);
    } else {
      StartsInOrder(months, m, n);
    }
    if n < m + w {
      StartsInOrder(months, n + 1, m + w);
    } else {
      StartsInOrder(months, m + w, n);
    }
    hide ValidMonths;
  }

  /** A timestamp lies in one group of months only, the one that rounding down its month gives. */
  lemma MonthBucketUnique(months: Months, m: int, ts: int, first: int, w: int)
    requires ValidMonths(months) && w > 0
    ensures InMonthBucket(months, m, ts, first, w) <==> m == first + Floor(MonthOf(months, ts) - first, w)
  {
    hide *;
    var n := MonthOf(months, ts);
    var f := first + Floor(n - first, w);
    FloorInBucket(n - first, w, first);
    GroupHoldsMonth(months, m, ts, first, w);
    GroupHoldsMonth(months, f, ts, first, w);
    if InBucket(m, n, first, w) {
      BucketUnique(m, f, n, first, w);
    }
  }

  /** time_bucket with a width in months: the bucket that is returned is the start of the group of months that holds
      the timestamp, counted from the month of the origin. */
  lemma MonthsBucketLaw(months: Months, w: int, ts: int, origin: int)
    requires ValidMonths(months) && w > 0
    ensures var r := MonthsBucket(months, w, ts, origin); var first := MonthOf(months, origin);
            r.Ok? ==> exists m :: r.value == TimeUnsafe(months.start(m), 0) && InMonthBucket(months, m, ts, first, w)
  {
    var first := MonthOf(months, origin);
    var f := Floor(MonthOf(months, ts) - first, w);
    hide MonthOf, Floor, InMonthBucket, Sum, ValidMonths, TimeUnsafe;
    MonthBucketUnique(months, first + f, ts, first, w);
    if MonthsBucket(months, w, ts, origin).Ok? {
      SumOfMonths(months, first, f);
    }
  }

  /** Adding months to the start of a month gives the start of a month. */
  lemma SumOfMonths(months: Months, m: int, k: int)
    requires ValidMonths(months)
    ensures var r := Sum(months, TimeUnsafe(months.start(m), 0), Interval(k, 0, 0));
            r.Ok? ==> r.value == TimeUnsafe(months.start(m + k), 0)
  {
    var ts := TimeUnsafe(months.start(m), 0);
    assert Quotient(ts, MICROS_PER_MSEC) == months.start(m);
    assert IsFinite(ts);
  }

  // ----- the operators -----

  const DEFAULT_ORIGIN_MICROS_1: int := 10959 * MICROS_PER_DAY
  const DEFAULT_ORIGIN_MICROS_2: int := 10957 * MICROS_PER_DAY

  /** Where buckets of a kind are counted from when no origin is given. */
  function DefaultOrigin(kind: BucketWidthType): int {
    if kind == CONVERTIBLE_TO_MONTHS then DEFAULT_ORIGIN_MICROS_2 else DEFAULT_ORIGIN_MICROS_1
  }

  /** An infinite timestamp is its own bucket, whatever the width. */
  function BucketOfKind(months: Months, kind: BucketWidthType, width: Interval, ts: int, origin: int): TimeResult<int>
    requires kind != UNCLASSIFIED && ClassifyBucketWidth(width) == kind
  {
    if !IsFinite(ts) then Ok(ts)
    else match kind
      case CONVERTIBLE_TO_MICROS => MicrosBucket(months, width.micros, ts, origin)
      case CONVERTIBLE_TO_DAYS => if width.days == 0 then Err(OutOfRange) else DaysBucket(months, width.days, ts, origin)
      case CONVERTIBLE_TO_MONTHS => MonthsBucket(months, width.months, ts, origin)
  }

  method Operation(kind: BucketWidthType, width: Interval, ts: int, origin: int, calendar: IcuCalendar)
    returns (r: TimeResult<int>)
    requires kind != UNCLASSIFIED && ClassifyBucketWidth(width) == kind
    requires ValidInterval(width) && ValidMonths(calendar.months)
    modifies calendar
    ensures r == BucketOfKind(calendar.months, kind, width, ts, origin)
  {
    hide ValidMonths, MicrosBucket, DaysBucket, MonthsBucket;
    if !IsFinite(ts) {
      r := Ok(ts);
    } else if kind == CONVERTIBLE_TO_MICROS {
      r := WidthConvertibleToMicrosCommon(width.micros, ts, origin, calendar);
    } else if kind == CONVERTIBLE_TO_DAYS {
      r := WidthConvertibleToDaysCommon(width.days, ts, origin, calendar);
    } else {
      r := WidthConvertibleToMonthsCommon(width.months, ts, origin, calendar);
    }
  }

  function BinaryBucket(months: Months, width: Interval, ts: int): TimeResult<int> {
    var kind := ClassifyBucketWidthErrorThrow(width);
    if kind.Err? then Err(kind.error) else BucketOfKind(months, kind.value, width, ts, DefaultOrigin(kind.value))
  }

  /** time_bucket of one row: the width is checked before the timestamp is looked at. */
  method BinaryOperator(width: Interval, ts: int, calendar: IcuCalendar) returns (r: TimeResult<int>)
    requires ValidInterval(width) && ValidMonths(calendar.months)
    modifies calendar
    ensures r == BinaryBucket(calendar.months, width, ts)
  {
    var kind := ClassifyBucketWidthErrorThrow(width);
    if kind.Err? {
      return Err(kind.error);
    }
    r := Operation(kind.value, width, ts, DefaultOrigin(kind.value), calendar);
  }

  function ConstantBucket(months: Months, width: Interval, ts: int): TimeResult<int> {
    var kind := ClassifyBucketWidth(width);
    if kind == UNCLASSIFIED then BinaryBucket(months, width, ts)
    else BucketOfKind(months, kind, width, ts, DefaultOrigin(kind))
  }

  /** time_bucket of one row when the width is the same for all rows: it is classified once, by the quick classifier. */
  method ConstantWidthOperator(width: Interval, ts: int, calendar: IcuCalendar) returns (r: TimeResult<int>)
    requires ValidInterval(width) && ValidMonths(calendar.months)
    modifies calendar
    ensures r == ConstantBucket(calendar.months, width, ts)
  {
    var kind := ClassifyBucketWidth(width);
    if kind == UNCLASSIFIED {
      r := BinaryOperator(width, ts, calendar);
    } else {
      r := Operation(kind, width, ts, DefaultOrigin(kind), calendar);
    }
  }

  /** Whether the width is constant makes no difference to the value, except that a constant width of zero lets
      infinite timestamps pass. */
  lemma ConstantWidthMakesNoDifference(months: Months, width: Interval, ts: int)
    ensures var c, b := ConstantBucket(months, width, ts), BinaryBucket(months, width, ts);
            (if b.Ok? then c == b else c.Err?) <==> !(width == Interval(0, 0, 0) && !IsFinite(ts))
  {
    hide MicrosBucket, DaysBucket, MonthsBucket;
    ClassifiersAgree(width);
  }

  /** What a bucket is, for each kind of width. */
  ghost predicate Holds(months: Months, kind: BucketWidthType, width: Interval, b: int, ts: int, origin: int)
    requires kind != UNCLASSIFIED && ClassifyBucketWidth(width) == kind
  {
    match kind
    case CONVERTIBLE_TO_MICROS => InBucket(b, ts, origin, width.micros)
    case CONVERTIBLE_TO_DAYS => width.days > 0 && InBucket(b, ts, origin, width.days * MICROS_PER_DAY)
    case CONVERTIBLE_TO_MONTHS =>
      exists m :: b == TimeUnsafe(months.start(m), 0)
                  && InMonthBucket(months, m, ts, MonthOf(months, origin), width.months)
  }

  /** time_bucket without an origin: whatever the width, a finite timestamp lies in the bucket it is given. */
  lemma TimeBucketLaw(months: Months, width: Interval, ts: int)
    requires ValidMonths(months) && IsFinite(ts) && ConstantBucket(months, width, ts).Ok?
    ensures ClassifyBucketWidth(width) != UNCLASSIFIED
    ensures var kind := ClassifyBucketWidth(width);
            Holds(months, kind, width, ConstantBucket(months, width, ts).value, ts, DefaultOrigin(kind))
  {
    hide ValidMonths, MicrosBucket, DaysBucket, MonthsBucket, InBucket, InMonthBucket, Slips;
    ClassifiersAgree(width);
    var kind := ClassifyBucketWidth(width);
    var origin := DefaultOrigin(kind);
    if kind == CONVERTIBLE_TO_MICROS {
      MicrosBucketLaw(months, width.micros, ts, origin);
    } else if kind == CONVERTIBLE_TO_DAYS {
      DaysBucketLaw(months, width.days, ts, origin);
      WholeOriginNeverSlips(width.days, ts, origin);
    } else {
      MonthsBucketLaw(months, width.months, ts, origin);
    }
  }
}
