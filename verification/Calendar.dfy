/** Adding intervals to timestamps and subtracting timestamps through a calendar that counts whole milliseconds.
    Timestamps and intervals count microseconds; all days have the same length. */
module Calendar {
  import opened Sequences

  const MICROS_PER_MSEC: int := 1000
  const MSECS_PER_SEC: int := 1000
  const SECS_PER_MINUTE: int := 60
  const MINS_PER_HOUR: int := 60
  const MSECS_PER_DAY: int := 86_400_000
  const MICROS_PER_SEC: int := 1_000_000
  const MICROS_PER_DAY: int := 86_400_000_000

  const INT32_MAX: int := 0x7FFF_FFFF
  const INT32_MIN: int := -0x8000_0000
  const INT64_MAX: int := 0x7FFF_FFFF_FFFF_FFFF
  const INT64_MIN: int := -0x8000_0000_0000_0000

  predicate InInt32(x: int) {
    INT32_MIN <= x <= INT32_MAX
  }

  predicate InInt64(x: int) {
    INT64_MIN <= x <= INT64_MAX
  }

  // ----- division that rounds toward zero -----

  function Quotient(a: int, b: int): (q: int)
    requires b > 0
  {
    if a >= 0 then a / b else -((-a) / b)
  }

  function Remainder(a: int, b: int): (r: int)
    requires b > 0
    ensures -b < r < b && (a >= 0 ==> r >= 0) && (a <= 0 ==> r <= 0)
    ensures a == b * Quotient(a, b) + r
  {
    if a >= 0 then a % b else -((-a) % b)
  }

  // ----- timestamps and intervals -----

  const INFINITY: int := INT64_MAX
  const NINFINITY: int := -INT64_MAX

  predicate IsFinite(ts: int) {
    ts != INFINITY && ts != NINFINITY
  }

  /** A number of microseconds that is a finite timestamp whose day starts at a 64-bit number. */
  predicate Representable(ts: int) {
    InInt64(ts) && IsFinite(ts) && InInt64((ts / MICROS_PER_DAY) * MICROS_PER_DAY)
  }

  datatype Interval = Interval(months: int, days: int, micros: int)

  predicate ValidInterval(iv: Interval) {
    InInt32(iv.months) && InInt32(iv.days) && InInt64(iv.micros)
  }

  datatype Error = Overflow | Unsupported | OutOfRange

  type TimeResult<+T> = Result<T, Error>

  // ----- the calendar -----

  datatype Field = MILLISECOND | SECOND | MINUTE | HOUR | DATE

  function FieldMillis(f: Field): (n: int)
    ensures n > 0
  {
    match f
    case MILLISECOND => 1
    case SECOND => MSECS_PER_SEC
    case MINUTE => MSECS_PER_SEC * SECS_PER_MINUTE
    case HOUR => MSECS_PER_SEC * SECS_PER_MINUTE * MINS_PER_HOUR
    case DATE => MSECS_PER_DAY
  }

  /** The months of a calendar: where month `m` starts, which month a time lies in, and what adding months to a
      time gives. */
  datatype Months = Months(start: int -> int, number: int -> int, add: (int, int) -> int)

  /** Months follow one another, start at midnight, and adding months to the start of one gives the start of another. */
  ghost predicate ValidMonths(months: Months) {
    && (forall m: int :: months.start(m) < months.start(m + 1) && months.start(m) % MSECS_PER_DAY == 0)
    && (forall t: int :: months.start(months.number(t)) <= t < months.start(months.number(t) + 1))
    && (forall t: int :: months.add(t, 0) == t)
    && (forall m: int, k: int :: months.add(months.start(m), k) == months.start(m + k))
  }

  class IcuCalendar {
    const months: Months
    var millis: int

    constructor (months: Months)
      ensures this.months == months
    {
      this.months := months;
    }

    method SetMillis(millis: int)
      modifies this
      ensures this.millis == millis
    {
      this.millis := millis;
    }

    /** The amount of a field is a 32-bit number. */
    method Add(field: Field, amount: int)
      requires InInt32(amount)
      modifies this
      ensures millis == old(millis) + amount * FieldMillis(field)
    {
      millis := millis + amount * FieldMillis(field);
    }

    method AddMonths(amount: int)
      requires InInt32(amount)
      modifies this
      ensures millis == months.add(old(millis), amount)
    {
      millis := months.add(millis, amount);
    }

    /** Clears the time of day and the day of the month. */
    method TruncMonth()
      modifies this
      ensures millis == months.start(months.number(old(millis)))
    {
      millis := months.start(months.number(millis));
    }

    /** Between the starts of two months, the difference is that of their numbers. */
    method MonthDifference(when: int) returns (n: int)
      requires months.start(months.number(millis)) == millis && months.start(months.number(when)) == when
      modifies this
      ensures n == months.number(when) - months.number(old(millis))
      ensures millis == when
    {
      n := months.number(when) - months.number(millis);
      millis := when;
    }

    /** The number of whole fields from the calendar's time to `when`; the time moves on by as many. */
    method FieldDifference(when: int, field: Field) returns (n: int)
      modifies this
      ensures n == Quotient(when - old(millis), FieldMillis(field))
      ensures millis == old(millis) + n * FieldMillis(field)
    {
      n := Quotient(when - millis, FieldMillis(field));
      millis := millis + n * FieldMillis(field);
    }
  }

  /** Sets the calendar to the millisecond of a timestamp and returns the microseconds behind it. */
  method SetTime(calendar: IcuCalendar, ts: int) returns (micros: int)
    modifies calendar
    ensures calendar.millis == ts / MICROS_PER_MSEC && micros == ts % MICROS_PER_MSEC
  {
    var millis := Quotient(ts, MICROS_PER_MSEC);
    micros := Remainder(ts, MICROS_PER_MSEC);
    if micros < 0 {
      millis := millis - 1;
      micros := micros + MICROS_PER_MSEC;
    }
    calendar.SetMillis(millis);
  }

  function TimeUnsafe(millis: int, micros: int): int {
    millis * MICROS_PER_MSEC + micros
  }

  method GetTime(calendar: IcuCalendar, micros: int) returns (r: TimeResult<int>)
    ensures var ts := calendar.millis * MICROS_PER_MSEC + micros;
            r == if InInt64(calendar.millis * MICROS_PER_MSEC) && Representable(ts) then Ok(ts) else Err(Overflow)
  {
    var product := calendar.millis * MICROS_PER_MSEC;
    if !InInt64(product) {
      return Err(Overflow);
    }
    var ts := product + micros;
    if !InInt64(ts) || !IsFinite(ts) || !InInt64((ts / MICROS_PER_DAY) * MICROS_PER_DAY) {
      return Err(Overflow);
    }
    r := Ok(ts);
  }

  /** Adds any number of hours, 32 bits at a time. */
  method CalendarAddHour(calendar: IcuCalendar, hours: int)
    modifies calendar
    ensures calendar.millis == old(calendar.millis) + hours * FieldMillis(HOUR)
  {
    var left := hours;
    if left >= 0 {
      while left > 0
        invariant calendar.millis == old(calendar.millis) + (hours - if left > 0 then left else 0) * FieldMillis(HOUR)
      {
        calendar.Add(HOUR, if left > INT32_MAX then INT32_MAX else left);
        left := left - INT32_MAX;
      }
    } else {
      while left < 0
        invariant calendar.millis == old(calendar.millis) + (hours - if left < 0 then left else 0) * FieldMillis(HOUR)
      {
        calendar.Add(HOUR, if left < INT32_MIN then INT32_MIN else left);
        left := left - INT32_MIN;
      }
    }
  }

  // ----- timestamp + interval -----

  predicate HasNegative(iv: Interval) {
    iv.months < 0 || iv.days < 0 || iv.micros < 0
  }

  /** The microsecond part is moved by hand: whole milliseconds, and the microseconds on top. */
  function MovedMicros(ts: int, micros: int): (r: (int, int))
    ensures r.0 * MICROS_PER_MSEC + r.1 == ts + Remainder(micros, MICROS_PER_MSEC)
  {
    var millis := Quotient(ts, MICROS_PER_MSEC);
    var rest := Remainder(ts, MICROS_PER_MSEC) + Remainder(micros, MICROS_PER_MSEC);
    if rest >= MICROS_PER_MSEC then (millis + 1, rest - MICROS_PER_MSEC)
    else if rest < 0 then (millis - 1, rest + MICROS_PER_MSEC)
    else (millis, rest)
  }

  /** The calendar's time after the fields of an interval have been added: months before days, but the time of day
      first if a field is negative. */
  function MovedMillis(months: Months, millis: int, iv: Interval): int {
    var time := Quotient(iv.micros, MICROS_PER_MSEC);
    if HasNegative(iv) then months.add(millis + time, iv.months) + iv.days * MSECS_PER_DAY
    else months.add(millis, iv.months) + iv.days * MSECS_PER_DAY + time
  }

  function Sum(months: Months, ts: int, iv: Interval): TimeResult<int> {
    if !IsFinite(ts) then Ok(ts) else
    var (millis, micros) := MovedMicros(ts, iv.micros);
    if !Representable(millis * MICROS_PER_MSEC) then Err(Overflow) else
    var moved := MovedMillis(months, millis, iv) * MICROS_PER_MSEC;
    if InInt64(moved) && Representable(moved + micros) then Ok(moved + micros) else Err(Overflow)
  }

  /** The time of day of an interval, split into 32-bit fields: together they are all its milliseconds. */
  lemma SplitTime(micros: int)
    ensures var q := Quotient(micros, MICROS_PER_MSEC);
            var q1 := Quotient(q, MSECS_PER_SEC);
            var q2 := Quotient(q1, SECS_PER_MINUTE);
            q == Remainder(q, MSECS_PER_SEC) + Remainder(q1, SECS_PER_MINUTE) * FieldMillis(SECOND)
                 + Remainder(q2, MINS_PER_HOUR) * FieldMillis(MINUTE) + Quotient(q2, MINS_PER_HOUR) * FieldMillis(HOUR)
  {
  }

  method AddTime(calendar: IcuCalendar, micros: int, descending: bool)
    modifies calendar
    ensures calendar.millis == old(calendar.millis) + Quotient(micros, MICROS_PER_MSEC)
  {
    SplitTime(micros);
    var h := Quotient(micros, MICROS_PER_MSEC);
    var ms := Remainder(h, MSECS_PER_SEC);
    h := Quotient(h, MSECS_PER_SEC);
    var s := Remainder(h, SECS_PER_MINUTE);
    h := Quotient(h, SECS_PER_MINUTE);
    var m := Remainder(h, MINS_PER_HOUR);
    h := Quotient(h, MINS_PER_HOUR);
    if descending {
      CalendarAddHour(calendar, h);
      calendar.Add(MINUTE, m);
      calendar.Add(SECOND, s);
      calendar.Add(MILLISECOND, ms);
    } else {
      calendar.Add(MILLISECOND, ms);
      calendar.Add(SECOND, s);
      calendar.Add(MINUTE, m);
      CalendarAddHour(calendar, h);
    }
  }

  /** The calendar fields of an interval: months before days, but the time of day first if a field is negative. */
  method AddFields(calendar: IcuCalendar, iv: Interval)
    requires ValidInterval(iv)
    modifies calendar
    ensures calendar.millis == MovedMillis(calendar.months, old(calendar.millis), iv)
  {
    hide Quotient;
    if iv.months < 0 || iv.days < 0 || iv.micros < 0 {
      AddTime(calendar, iv.micros, false);
      calendar.AddMonths(iv.months);
      calendar.Add(DATE, iv.days);
    } else {
      calendar.AddMonths(iv.months);
      calendar.Add(DATE, iv.days);
      AddTime(calendar, iv.micros, true);
    }
  }

  method AddInterval(calendar: IcuCalendar, ts: int, iv: Interval) returns (r: TimeResult<int>)
    requires ValidInterval(iv)
    modifies calendar
    ensures r == Sum(calendar.months, ts, iv)
  {
    if !IsFinite(ts) {
      return Ok(ts);
    }
    hide Quotient, Remainder, Representable, MovedMillis;
    var millis := Quotient(ts, MICROS_PER_MSEC);
    var micros := Remainder(ts, MICROS_PER_MSEC);
    micros := micros + Remainder(iv.micros, MICROS_PER_MSEC);
    if micros >= MICROS_PER_MSEC {
      micros := micros - MICROS_PER_MSEC;
      millis := millis + 1;
    } else if micros < 0 {
      micros := micros + MICROS_PER_MSEC;
      millis := millis - 1;
    }
    if !Representable(millis * MICROS_PER_MSEC) {
      return Err(Overflow);
    }
    calendar.SetMillis(millis);
    AddFields(calendar, iv);
    r := GetTime(calendar, micros);
  }

  /** An interval without months moves a timestamp by exactly its days and microseconds: nothing is lost in the
      millisecond carry, the split into fields or the 32-bit hours. */
  lemma SumIsExact(months: Months, ts: int, iv: Interval)
    requires ValidMonths(months) && IsFinite(ts) && iv.months == 0
    ensures Sum(months, ts, iv).Ok? ==> Sum(months, ts, iv).value == ts + iv.days * MICROS_PER_DAY + iv.micros
    ensures Sum(months, ts, iv).Ok? ==> Representable(Sum(months, ts, iv).value)
  {
    var (millis, micros) := MovedMicros(ts, iv.micros);
    var time := Quotient(iv.micros, MICROS_PER_MSEC);
    assert months.add(millis + time, 0) == millis + time && months.add(millis, 0) == millis;
  }
}
