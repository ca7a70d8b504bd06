/** Subtracting timestamps, and when adding the difference gets back to where it came from. */
module TimestampDifference {
  import opened Sequences
  import opened Calendar

  const TWO_TO_THE_64: int := 0x1_0000_0000_0000_0000
  const TWO_TO_THE_32: int := 0x1_0000_0000

  /** Conversion to an unsigned 64-bit number. */
  function ToUInt64(x: int): int {
    x % TWO_TO_THE_64
  }

  /** Conversion to a signed 32-bit number: the low 32 bits. */
  function ToInt32(x: int): (r: int)
    ensures InInt32(r)
    ensures InInt32(x) ==> r == x
  {
    var low := x % TWO_TO_THE_32;
    if low > INT32_MAX then low - TWO_TO_THE_32 else low
  }

  lemma ToInt32AfterToUInt64(x: int)
    ensures ToInt32(ToUInt64(x)) == ToInt32(x)
  {
    var q := x / TWO_TO_THE_64;
    assert ToUInt64(x) == x + (-q * TWO_TO_THE_32) * TWO_TO_THE_32;
    ModShift(x, -q * TWO_TO_THE_32);
  }

  lemma ModShift(x: int, k: int)
    ensures (x + k * TWO_TO_THE_32) % TWO_TO_THE_32 == x % TWO_TO_THE_32
  {
  }

  /** Unsigned arithmetic may be reduced at any point. */
  lemma ToUInt64Sum(a: int, b: int)
    ensures ToUInt64(ToUInt64(a) + b) == ToUInt64(a + b)
  {
  }

  function FromTime(hour: int, minute: int, second: int, micros: int): int {
    ((hour * MINS_PER_HOUR + minute) * SECS_PER_MINUTE + second) * MICROS_PER_SEC + micros
  }

  function Negated(iv: Interval): Interval {
    Interval(-iv.months, -iv.days, -iv.micros)
  }

  /** The microseconds an interval without months stands for. */
  function Total(iv: Interval): int {
    iv.days * MICROS_PER_DAY + iv.micros
  }

  /** The subtraction borrows a millisecond that the end does not have: the end lies in the first millisecond after
      the epoch, the start before it, and the start's microseconds are greater. */
  predicate BorrowsAcrossEpoch(start: int, end: int) {
    start < 0 < end < MICROS_PER_MSEC && start % MICROS_PER_MSEC > end
  }

  /** What the difference of two timestamps, the earlier one first, stands for. */
  function Elapsed(start: int, end: int): int {
    end - start + if BorrowsAcrossEpoch(start, end) then MICROS_PER_MSEC else 0
  }

  /** The millisecond the end is cut to, after the borrow. */
  function EndMillis(start: int, end: int): int {
    var borrows := start % MICROS_PER_MSEC > ToUInt64(Remainder(end, MICROS_PER_MSEC));
    Quotient(if borrows then end - MICROS_PER_MSEC else end, MICROS_PER_MSEC)
  }

  /** The interval between two timestamps, the earlier one first: whole days between their milliseconds, and the rest. */
  function Difference(start: int, end: int): Interval {
    var days := Quotient(EndMillis(start, end) - start / MICROS_PER_MSEC, MSECS_PER_DAY);
    Interval(0, days, Elapsed(start, end) - days * MICROS_PER_DAY)
  }

  function DifferenceOf(end: int, start: int): (r: TimeResult<Interval>)
    ensures r.Ok? ==> r.value.months == 0
    ensures r.Ok? ==> Total(r.value) == if start <= end then Elapsed(start, end) else -Elapsed(end, start)
  {
    if !IsFinite(end) || !IsFinite(start) then Err(Unsupported)
    else Ok(if start <= end then Difference(start, end) else Negated(Difference(end, start)))
  }

  /** The five field differences together are the milliseconds between the calendar's time and `when`. */
  method FieldDifferences(calendar: IcuCalendar, when: int) returns (days: int, hours: int, minutes: int,
                          seconds: int, millis: int)
    modifies calendar
    ensures ((((days * 24 + hours) * MINS_PER_HOUR + minutes) * SECS_PER_MINUTE) + seconds) * MSECS_PER_SEC + millis
         == when - old(calendar.millis)
    ensures days == Quotient(when - old(calendar.millis), MSECS_PER_DAY) && -MSECS_PER_SEC < millis < MSECS_PER_SEC
  {
    hide Quotient;
    days := calendar.FieldDifference(when, DATE);
    ghost var d := DifferenceTurn(when - old(calendar.millis), MSECS_PER_DAY);
    hours := calendar.FieldDifference(when, HOUR);
    d := DifferenceTurn(d, 3_600_000);
    minutes := calendar.FieldDifference(when, MINUTE);
    d := DifferenceTurn(d, 60_000);
    seconds := calendar.FieldDifference(when, SECOND);
    d := DifferenceTurn(d, MSECS_PER_SEC);
    millis := calendar.FieldDifference(when, MILLISECOND);
  }

  lemma DifferenceTurn(d: int, unit: int) returns (rest: int)
    requires unit > 0
    ensures rest == d - Quotient(d, unit) * unit && -unit < rest < unit
    ensures Quotient(rest, 1) == rest
  {
    rest := Remainder(d, unit);
  }

  /** The difference of two timestamps, the later one usually first. */
  method SubtractTimestamps(calendar: IcuCalendar, end: int, start: int) returns (r: TimeResult<Interval>)
    modifies calendar
    ensures r == DifferenceOf(end, start)
    decreases start > end
  {
    if !IsFinite(end) || !IsFinite(start) {
      return Err(Unsupported);
    }
    if start > end {
      var negated := SubtractTimestamps(calendar, start, end);
      return Ok(Negated(negated.value));
    }
    var startMicros := SetTime(calendar, start);
    var endMicros := ToUInt64(Remainder(end, MICROS_PER_MSEC));
    var end' := end;
    if startMicros > endMicros {
      end' := end' - MICROS_PER_MSEC;
      endMicros := endMicros + MICROS_PER_MSEC;
    }
    var days, hours, minutes, seconds, millis := FieldDifferences(calendar, Quotient(end', MICROS_PER_MSEC));
    var micros := ToInt32(ToUInt64(millis * MICROS_PER_MSEC + ToUInt64(endMicros - startMicros)));
    MicrosSurvive(millis, end, startMicros, endMicros);
    BorrowIsExact(start, end, end');
    r := Ok(Interval(0, days, FromTime(hours, minutes, seconds, micros)));
  }

  /** The detour of the microseconds through unsigned 64-bit arithmetic does no harm. */
  lemma MicrosSurvive(millis: int, end: int, startMicros: int, endMicros: int)
    requires -MSECS_PER_SEC < millis < MSECS_PER_SEC && 0 <= startMicros < MICROS_PER_MSEC
    requires var rest := Remainder(end, MICROS_PER_MSEC);
             endMicros == ToUInt64(rest) + if startMicros > ToUInt64(rest) then MICROS_PER_MSEC else 0
    ensures ToInt32(ToUInt64(millis * MICROS_PER_MSEC + ToUInt64(endMicros - startMicros)))
            == millis * MICROS_PER_MSEC + Remainder(end, MICROS_PER_MSEC) - startMicros
               + if startMicros > ToUInt64(Remainder(end, MICROS_PER_MSEC)) then MICROS_PER_MSEC else 0
  {
    var rest := Remainder(end, MICROS_PER_MSEC);
    var offset := endMicros - ToUInt64(rest) - startMicros;
    ToUInt64Sum(rest, offset);
    ToUInt64Sum(rest + offset, millis * MICROS_PER_MSEC);
    hide ToUInt64, Remainder;
    ToInt32AfterToUInt64(millis * MICROS_PER_MSEC + rest + offset);
  }

  /** What the borrow makes of the end: the millisecond it is cut to, and the microseconds on top. */
  lemma BorrowIsExact(start: int, end: int, end': int)
    requires start <= end
    requires var rest := Remainder(end, MICROS_PER_MSEC);
             if start % MICROS_PER_MSEC > ToUInt64(rest) then end' == end - MICROS_PER_MSEC else end' == end
    ensures var rest := Remainder(end, MICROS_PER_MSEC) + if end' == end then 0 else MICROS_PER_MSEC;
            Quotient(end', MICROS_PER_MSEC) * MICROS_PER_MSEC + rest
            == end + if BorrowsAcrossEpoch(start, end) then MICROS_PER_MSEC else 0
  {
  }

  /** Adding to one timestamp what subtraction returns for another gives the other one back, unless the subtraction
      borrows across the epoch: then, and only then, the result is off, by one millisecond. */
  lemma SubtractThenAdd(months: Months, end: int, start: int)
    requires ValidMonths(months) && DifferenceOf(end, start).Ok?
    requires Sum(months, start, DifferenceOf(end, start).value).Ok?
    ensures var back := Sum(months, start, DifferenceOf(end, start).value).value;
            && (back == end <==> !BorrowsAcrossEpoch(start, end) && !BorrowsAcrossEpoch(end, start))
            && (BorrowsAcrossEpoch(start, end) ==> back == end + MICROS_PER_MSEC)
            && (BorrowsAcrossEpoch(end, start) ==> back == end - MICROS_PER_MSEC)
  {
    hide Difference, Sum;
    SumIsExact(months, start, DifferenceOf(end, start).value);
  }

  /** The borrow goes wrong, for instance, between 300 microseconds before the epoch and 500 after it. */
  lemma BorrowExample()
    ensures BorrowsAcrossEpoch(-300, 500) && Elapsed(-300, 500) == 1800
  {
  }
}
