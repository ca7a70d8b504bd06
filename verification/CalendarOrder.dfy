/** The order in which the fields of an interval are added, and when the sum is a timestamp. */
module CalendarOrder {
  import opened Sequences
  import opened Calendar

  // ----- when a sum is a timestamp -----

  /** The start of the first day that starts at a 64-bit number. */
  const LOWEST: int := -106_751_991 * MICROS_PER_DAY

  lemma RepresentableExactly(ts: int)
    ensures Representable(ts) <==> LOWEST <= ts < INFINITY
  {
  }

  /** Without months, the sum is a timestamp exactly if it is in range, and its whole milliseconds are, before and after
      days and time of day have been added. */
  lemma SumInRange(months: Months, ts: int, iv: Interval)
    requires ValidMonths(months) && IsFinite(ts) && iv.months == 0
    ensures var t, (millis, micros) := ts + iv.days * MICROS_PER_DAY + iv.micros, MovedMicros(ts, iv.micros);
            Sum(months, ts, iv).Ok? <==> Representable(millis * MICROS_PER_MSEC) && InInt64(t - micros) && Representable(t)
  {
    hide Representable;
    NoMonths(months, ts, iv);
  }

  lemma NoMonths(months: Months, ts: int, iv: Interval)
    requires ValidMonths(months) && iv.months == 0
    ensures var (millis, micros) := MovedMicros(ts, iv.micros);
            MovedMillis(months, millis, iv) * MICROS_PER_MSEC + micros == ts + iv.days * MICROS_PER_DAY + iv.micros
  {
    var (millis, micros) := MovedMicros(ts, iv.micros);
    var time := Quotient(iv.micros, MICROS_PER_MSEC);
    assert months.add(millis + time, 0) == millis + time && months.add(millis, 0) == millis;
  }

  /** Two milliseconds from the ends of the range. */
  predicate Ordinary(ts: int) {
    LOWEST + 2000 <= ts < INFINITY - 2000
  }

  /** There it always is. */
  lemma OrdinarySum(months: Months, ts: int, iv: Interval)
    requires ValidMonths(months) && iv.months == 0
    requires Ordinary(ts) && Ordinary(ts + iv.days * MICROS_PER_DAY + iv.micros)
    ensures Sum(months, ts, iv) == Ok(ts + iv.days * MICROS_PER_DAY + iv.micros)
  {
    SumInRange(months, ts, iv);
    SumIsExact(months, ts, iv);
    var (millis, micros) := MovedMicros(ts, iv.micros);
    MovedLittle(ts, iv.micros);
    RepresentableExactly(millis * MICROS_PER_MSEC);
    RepresentableExactly(ts + iv.days * MICROS_PER_DAY + iv.micros);
    hide Sum, MovedMicros, Representable, ValidMonths;
  }

  lemma MovedLittle(ts: int, micros: int)
    ensures var (millis, rest) := MovedMicros(ts, micros);
            -1000 < rest < 1000 && ts - 2000 < millis * MICROS_PER_MSEC < ts + 2000
  {
  }

  // ----- the order of the fields -----

  /** Adding another interval to a sum, if there is one. */
  function Then(months: Months, r: TimeResult<int>, iv: Interval): TimeResult<int> {
    if r.Ok? then Sum(months, r.value, iv) else r
  }

  /** Months take a millisecond and the next one to a millisecond and the next one. */
  predicate Steady(months: Months, millis: int, n: int) {
    months.add(millis + 1, n) == months.add(millis, n) + 1
  }

  /** The microseconds above the millisecond of a timestamp and those of an interval make up another millisecond. */
  predicate Carries(ts: int, micros: int) {
    ts % MICROS_PER_MSEC + micros % MICROS_PER_MSEC >= MICROS_PER_MSEC
  }

  /** What comes of a sum: the timestamp at a millisecond, given the microseconds above it, when it and the millisecond
      it was counted from are in range. */
  function Made(from: int, millis: int, micros: int): TimeResult<int> {
    if !Representable(from * MICROS_PER_MSEC) then Err(Overflow)
    else if InInt64(millis * MICROS_PER_MSEC) && Representable(millis * MICROS_PER_MSEC + micros)
    then Ok(millis * MICROS_PER_MSEC + micros)
    else Err(Overflow)
  }

  lemma MadeIs(from: int, millis: int, micros: int)
    ensures var r := Made(from, millis, micros);
            r.Ok? ==> r.value == millis * MICROS_PER_MSEC + micros && IsFinite(r.value)
    ensures 0 <= micros < MICROS_PER_MSEC ==>
              (millis * MICROS_PER_MSEC + micros) / MICROS_PER_MSEC == millis
              && (millis * MICROS_PER_MSEC + micros) % MICROS_PER_MSEC == micros
  {
  }

  lemma MadeInRange(from: int, millis: int, micros: int)
    requires LOWEST <= from * MICROS_PER_MSEC < INFINITY && LOWEST <= millis * MICROS_PER_MSEC < INFINITY
    requires LOWEST <= millis * MICROS_PER_MSEC + micros < INFINITY
    ensures Made(from, millis, micros) == Ok(millis * MICROS_PER_MSEC + micros)
  {
    RepresentableExactly(from * MICROS_PER_MSEC);
    RepresentableExactly(millis * MICROS_PER_MSEC + micros);
    hide Representable;
  }

  /** Only months. */
  lemma SumOfOnlyMonths(months: Months, ts: int, n: int)
    requires IsFinite(ts)
    ensures var f := ts / MICROS_PER_MSEC;
            Sum(months, ts, Interval(n, 0, 0)) == Made(f, months.add(f, n), ts % MICROS_PER_MSEC)
  {
    assert MovedMicros(ts, 0) == (ts / MICROS_PER_MSEC, ts % MICROS_PER_MSEC);
    hide Representable;
  }

  /** The millisecond that months are added to when no field is negative. */
  lemma CarryIs(ts: int, micros: int)
    requires micros >= 0
    ensures var c := if Carries(ts, micros) then 1 else 0;
            MovedMicros(ts, micros)
            == (ts / MICROS_PER_MSEC + c, ts % MICROS_PER_MSEC + micros % MICROS_PER_MSEC - c * MICROS_PER_MSEC)
    ensures Quotient(micros, MICROS_PER_MSEC) == micros / MICROS_PER_MSEC
  {
  }

  lemma SumUpwards(months: Months, ts: int, iv: Interval)
    requires IsFinite(ts) && !HasNegative(iv)
    ensures var f := ts / MICROS_PER_MSEC + if Carries(ts, iv.micros) then 1 else 0;
            var rest := (ts % MICROS_PER_MSEC + iv.micros % MICROS_PER_MSEC) % MICROS_PER_MSEC;
            Sum(months, ts, iv)
            == Made(f, months.add(f, iv.months) + iv.days * MSECS_PER_DAY + iv.micros / MICROS_PER_MSEC, rest)
  {
    CarryIs(ts, iv.micros);
    hide Representable, Quotient, MovedMicros;
  }

  /** Without negative fields, months are added before days and time of day. A carry from the microseconds comes before
      the months all the same, and makes a difference exactly if the months are not steady there. */
  lemma MonthsBeforeDays(months: Months, ts: int, iv: Interval)
    requires ValidMonths(months) && IsFinite(ts) && !HasNegative(iv)
    ensures var r := Sum(months, ts, iv);
            var inTurn := Then(months, Sum(months, ts, Interval(iv.months, 0, 0)), Interval(0, iv.days, iv.micros));
            && (inTurn.Ok? && !Carries(ts, iv.micros) ==> r == inTurn)
            && (inTurn.Ok? && r.Ok? ==>
                  (r == inTurn <==> !Carries(ts, iv.micros) || Steady(months, ts / MICROS_PER_MSEC, iv.months)))
  {
    hide Sum, Representable, ValidMonths, InInt64, IsFinite;
    var f := ts / MICROS_PER_MSEC;
    var first := Sum(months, ts, Interval(iv.months, 0, 0));
    SumUpwards(months, ts, iv);
    SumOfOnlyMonths(months, ts, iv.months);
    MadeIs(f, months.add(f, iv.months), ts % MICROS_PER_MSEC);
    if first.Ok? {
      SumUpwards(months, first.value, Interval(0, iv.days, iv.micros));
      AddsNothing(months, first.value / MICROS_PER_MSEC);
    }
  }

  lemma AddsNothing(months: Months, t: int)
    requires ValidMonths(months)
    ensures months.add(t, 0) == t && months.add(t + 1, 0) == t + 1
  {
  }

  /** The order without exception: first the microseconds that do not make up a millisecond, then the months, then the
      days and the rest. */
  lemma CarryMonthsDays(months: Months, ts: int, iv: Interval)
    requires ValidMonths(months) && IsFinite(ts) && !HasNegative(iv)
    ensures var c := iv.micros % MICROS_PER_MSEC;
            var carried := Then(months, Sum(months, ts, Interval(0, 0, c)), Interval(iv.months, 0, 0));
            var inTurn := Then(months, carried, Interval(0, iv.days, iv.micros - c));
            inTurn.Ok? ==> Sum(months, ts, iv) == inTurn
  {
    hide Sum, Made, ValidMonths, IsFinite, Carries;
    var c, b := iv.micros % MICROS_PER_MSEC, if Carries(ts, iv.micros) then 1 else 0;
    var f, rest := ts / MICROS_PER_MSEC + b, (ts % MICROS_PER_MSEC + c) % MICROS_PER_MSEC;
    var first := Sum(months, ts, Interval(0, 0, c));
    CarriedParts(ts, iv.micros);
    SumUpwards(months, ts, iv);
    SumUpwards(months, ts, Interval(0, 0, c));
    AddsNothing(months, ts / MICROS_PER_MSEC);
    assert first == Made(f, f, rest);
    MadeIs(f, f, rest);
    if first.Ok? {
      SumOfOnlyMonths(months, first.value, iv.months);
      MadeIs(f, months.add(f, iv.months), rest);
      var second := Sum(months, first.value, Interval(iv.months, 0, 0));
      if second.Ok? {
        CarriedParts(second.value, iv.micros);
        SumUpwards(months, second.value, Interval(0, iv.days, iv.micros - c));
        AddsNothing(months, second.value / MICROS_PER_MSEC);
        MadeFrom(f, months.add(f, iv.months), rest, iv.days * MSECS_PER_DAY + iv.micros / MICROS_PER_MSEC);
      }
    }
  }

  lemma CarriedParts(ts: int, micros: int)
    requires micros >= 0
    ensures var c := micros % MICROS_PER_MSEC;
            && 0 <= c <= micros && c / MICROS_PER_MSEC == 0 && c % MICROS_PER_MSEC == c
            && (Carries(ts, c) <==> Carries(ts, micros)) && !Carries(ts, micros - c)
            && (micros - c) % MICROS_PER_MSEC == 0 && (micros - c) / MICROS_PER_MSEC == micros / MICROS_PER_MSEC
            && (ts % MICROS_PER_MSEC + 0) % MICROS_PER_MSEC == ts % MICROS_PER_MSEC
  {
  }

  /** Days and time of day can be added to the millisecond before it is checked, or to the timestamp afterwards. */
  lemma MadeFrom(from: int, millis: int, rest: int, more: int)
    ensures Made(from, millis, rest).Ok? && Made(millis, millis + more, rest).Ok? ==>
              Made(from, millis + more, rest) == Made(millis, millis + more, rest)
  {
  }

  /** The microseconds of a timestamp before the epoch and of a negative interval take away more than a millisecond. */
  predicate BorrowsTwice(ts: int, micros: int) {
    Remainder(ts, MICROS_PER_MSEC) + Remainder(micros, MICROS_PER_MSEC) < -MICROS_PER_MSEC
  }

  /** The millisecond that months are added to when a field is negative. */
  lemma BorrowIs(ts: int, micros: int)
    ensures var (millis, rest) := MovedMicros(ts, micros);
            var b := if BorrowsTwice(ts, micros) then 1 else 0;
            && millis + Quotient(micros, MICROS_PER_MSEC) == (ts + micros) / MICROS_PER_MSEC + b
            && rest == (ts + micros) % MICROS_PER_MSEC - b * MICROS_PER_MSEC
  {
  }

  lemma SumDownwards(months: Months, ts: int, iv: Interval)
    requires ValidMonths(months) && IsFinite(ts) && (HasNegative(iv) || iv.months == 0)
    ensures var b := if BorrowsTwice(ts, iv.micros) then 1 else 0;
            var f := (ts + iv.micros) / MICROS_PER_MSEC + b;
            Sum(months, ts, iv)
            == Made(MovedMicros(ts, iv.micros).0, months.add(f, iv.months) + iv.days * MSECS_PER_DAY,
                    (ts + iv.micros) % MICROS_PER_MSEC - b * MICROS_PER_MSEC)
  {
    BorrowIs(ts, iv.micros);
    var (millis, rest) := MovedMicros(ts, iv.micros);
    assert months.add(millis, 0) == millis
        && months.add(millis + Quotient(iv.micros, MICROS_PER_MSEC), 0) == millis + Quotient(iv.micros, MICROS_PER_MSEC);
    hide Representable, Quotient, MovedMicros, BorrowsTwice, ValidMonths;
  }

  /** With a negative field the time of day is added first, then the months, then the days. Only when it takes away more
      than a millisecond twice over do the months start from the next millisecond. */
  lemma TimeBeforeMonths(months: Months, ts: int, iv: Interval)
    requires ValidMonths(months) && IsFinite(ts) && HasNegative(iv)
    ensures var r := Sum(months, ts, iv);
            var timed := Then(months, Sum(months, ts, Interval(0, 0, iv.micros)), Interval(iv.months, 0, 0));
            var inTurn := Then(months, timed, Interval(0, iv.days, 0));
            && (inTurn.Ok? && !BorrowsTwice(ts, iv.micros) ==> r == inTurn)
            && (inTurn.Ok? && r.Ok? ==>
                  (r == inTurn <==> !BorrowsTwice(ts, iv.micros)
                                    || Steady(months, (ts + iv.micros) / MICROS_PER_MSEC, iv.months)))
  {
    hide Sum, Representable, ValidMonths, InInt64, IsFinite, BorrowsTwice, MovedMicros, HasNegative;
    var t := ts + iv.micros;
    var f, rest := t / MICROS_PER_MSEC, t % MICROS_PER_MSEC;
    var first := Sum(months, ts, Interval(0, 0, iv.micros));
    SumDownwards(months, ts, iv);
    SumDownwards(months, ts, Interval(0, 0, iv.micros));
    AddsNothing(months, f);
    MadeIs(MovedMicros(ts, iv.micros).0, if BorrowsTwice(ts, iv.micros) then f + 1 else f,
           if BorrowsTwice(ts, iv.micros) then rest - MICROS_PER_MSEC else rest);
    if first.Ok? {
      assert first.value == t;
      SumOfOnlyMonths(months, t, iv.months);
      MadeIs(f, months.add(f, iv.months), rest);
      var second := Sum(months, t, Interval(iv.months, 0, 0));
      if second.Ok? {
        SumOfOnlyDays(months, second.value, iv.days);
      }
    }
  }

  lemma SumOfOnlyDays(months: Months, ts: int, n: int)
    requires ValidMonths(months) && IsFinite(ts)
    ensures var f := ts / MICROS_PER_MSEC;
            Sum(months, ts, Interval(0, n, 0)) == Made(f, f + n * MSECS_PER_DAY, ts % MICROS_PER_MSEC)
  {
    assert MovedMicros(ts, 0) == (ts / MICROS_PER_MSEC, ts % MICROS_PER_MSEC);
    assert months.add(ts / MICROS_PER_MSEC, 0) == ts / MICROS_PER_MSEC;
    hide Representable, ValidMonths;
  }

  // ----- a calendar in which the order matters -----

  /** Months of 31 and 28 days in turn, the first of which starts at the epoch. */
  function FirstDay(m: int): int {
    m / 2 * 59 + m % 2 * 31
  }

  function MonthOfDay(day: int): int {
    day / 59 * 2 + if day % 59 < 31 then 0 else 1
  }

  /** The last day of a shorter month stands for the days that it does not have. */
  function DayInMonth(day: int, m: int): int {
    var n := day - FirstDay(MonthOfDay(day));
    FirstDay(m) + if FirstDay(m) + n < FirstDay(m + 1) then n else FirstDay(m + 1) - FirstDay(m) - 1
  }

  lemma DaysOfMonths(day: int, m: int)
    ensures FirstDay(m) < FirstDay(m + 1) && MonthOfDay(FirstDay(m)) == m
    ensures FirstDay(MonthOfDay(day)) <= day < FirstDay(MonthOfDay(day) + 1)
  {
  }

  function StartOf(m: int): int {
    FirstDay(m) * MSECS_PER_DAY
  }

  function NumberOf(t: int): int {
    MonthOfDay(t / MSECS_PER_DAY)
  }

  function AddTo(t: int, n: int): int {
    DayInMonth(t / MSECS_PER_DAY, NumberOf(t) + n) * MSECS_PER_DAY + t % MSECS_PER_DAY
  }

  const ALTERNATING: Months := Months(StartOf, NumberOf, AddTo)

  /** A day keeps its place in its own month, and a first day is one in every month. */
  lemma DaysKeepTheirPlace(day: int, m: int, k: int)
    ensures DayInMonth(day, MonthOfDay(day)) == day && DayInMonth(FirstDay(m), k) == FirstDay(k)
  {
    DaysOfMonths(day, m);
    DaysOfMonths(day, k);
    hide FirstDay, MonthOfDay;
  }

  lemma StartsAreMidnights(m: int, k: int)
    ensures StartOf(m) < StartOf(m + 1) && StartOf(m) % MSECS_PER_DAY == 0 && AddTo(StartOf(m), k) == StartOf(m + k)
  {
    hide FirstDay, MonthOfDay, DayInMonth;
    assert StartOf(m) / MSECS_PER_DAY == FirstDay(m);
    DaysOfMonths(0, m);
    DaysKeepTheirPlace(0, m, m + k);
  }

  lemma TimesLieInMonths(t: int)
    ensures StartOf(NumberOf(t)) <= t < StartOf(NumberOf(t) + 1) && AddTo(t, 0) == t
  {
    hide FirstDay, MonthOfDay, DayInMonth;
    DaysOfMonths(t / MSECS_PER_DAY, 0);
    DaysKeepTheirPlace(t / MSECS_PER_DAY, 0, 0);
  }

  lemma AlternatingIsValid()
    ensures ValidMonths(ALTERNATING)
  {
    hide StartOf, NumberOf, AddTo;
    forall m: int ensures StartOf(m) < StartOf(m + 1) && StartOf(m) % MSECS_PER_DAY == 0 {
      StartsAreMidnights(m, 0);
    }
    forall t: int ensures StartOf(NumberOf(t)) <= t < StartOf(NumberOf(t) + 1) && AddTo(t, 0) == t {
      TimesLieInMonths(t);
    }
    forall m: int, k: int ensures AddTo(StartOf(m), k) == StartOf(m + k) {
      StartsAreMidnights(m, k);
    }
  }

  const JANUARY_30: int := 29 * MICROS_PER_DAY
  const FEBRUARY_28: int := 58 * MICROS_PER_DAY

  /** The days of the examples, a month later. */
  lemma DaysLater()
    ensures MonthOfDay(29) == 0 && DayInMonth(29, 1) == 58 && MonthOfDay(30) == 0 && DayInMonth(30, 1) == 58
    ensures MonthOfDay(-30) == -2 && DayInMonth(-30, -1) == -1 && MonthOfDay(-29) == -2 && DayInMonth(-29, -1) == -1
  {
  }

  /** A day and a time of day. */
  lemma AddToDay(day: int, time: int, n: int)
    requires 0 <= time < MSECS_PER_DAY
    ensures AddTo(day * MSECS_PER_DAY + time, n) == DayInMonth(day, MonthOfDay(day) + n) * MSECS_PER_DAY + time
  {
    hide DayInMonth, MonthOfDay;
    assert (day * MSECS_PER_DAY + time) / MSECS_PER_DAY == day;
  }

  /** A month after 30 January, after its last millisecond, and after 31 January; and the same before the epoch. */
  lemma AMonthLater()
    ensures AddTo(29 * MSECS_PER_DAY, 1) == 58 * MSECS_PER_DAY
    ensures AddTo(30 * MSECS_PER_DAY - 1, 1) == 59 * MSECS_PER_DAY - 1
    ensures AddTo(30 * MSECS_PER_DAY, 1) == 58 * MSECS_PER_DAY
    ensures AddTo(-29 * MSECS_PER_DAY, 1) == -MSECS_PER_DAY && AddTo(-29 * MSECS_PER_DAY - 1, 1) == -1
  {
    hide AddTo, DayInMonth, MonthOfDay;
    DaysLater();
    AddToDay(29, 0, 1);
    AddToDay(29, MSECS_PER_DAY - 1, 1);
    AddToDay(30, 0, 1);
    AddToDay(-29, 0, 1);
    AddToDay(-30, MSECS_PER_DAY - 1, 1);
  }

  /** One month and one day after 30 January is 1 March: a month later is 28 February, and a day later than that is the
      first of March; but a month after 31 January is 28 February. */
  lemma ThirtiethOfJanuary()
    ensures Sum(ALTERNATING, JANUARY_30, Interval(1, 1, 0)) == Ok(FEBRUARY_28 + MICROS_PER_DAY)
    ensures Then(ALTERNATING, Sum(ALTERNATING, JANUARY_30, Interval(0, 1, 0)), Interval(1, 0, 0)) == Ok(FEBRUARY_28)
  {
    hide Sum, ValidMonths, Made, StartOf, NumberOf, AddTo;
    AlternatingIsValid();
    AMonthLater();
    SumUpwards(ALTERNATING, JANUARY_30, Interval(1, 1, 0));
    MadeInRange(29 * MSECS_PER_DAY, 59 * MSECS_PER_DAY, 0);
    OrdinarySum(ALTERNATING, JANUARY_30, Interval(0, 1, 0));
    SumOfOnlyMonths(ALTERNATING, JANUARY_30 + MICROS_PER_DAY, 1);
    MadeInRange(30 * MSECS_PER_DAY, 58 * MSECS_PER_DAY, 0);
  }

  /** One month and one microsecond after the last microsecond of 30 January is the start of 28 February, because the
      microsecond is carried to 31 January first; a month later and then a microsecond would be 1 March. */
  lemma LastMicrosecond()
    ensures var ts := JANUARY_30 + MICROS_PER_DAY - 1;
            && Sum(ALTERNATING, ts, Interval(1, 0, 1)) == Ok(FEBRUARY_28)
            && Then(ALTERNATING, Sum(ALTERNATING, ts, Interval(1, 0, 0)), Interval(0, 0, 1))
               == Ok(FEBRUARY_28 + MICROS_PER_DAY)
  {
    hide Sum, ValidMonths, Made, StartOf, NumberOf, AddTo;
    var ts := JANUARY_30 + MICROS_PER_DAY - 1;
    AlternatingIsValid();
    AMonthLater();
    SumUpwards(ALTERNATING, ts, Interval(1, 0, 1));
    MadeInRange(30 * MSECS_PER_DAY, 58 * MSECS_PER_DAY, 0);
    SumOfOnlyMonths(ALTERNATING, ts, 1);
    MadeInRange(30 * MSECS_PER_DAY - 1, 59 * MSECS_PER_DAY - 1, 999);
    OrdinarySum(ALTERNATING, 59 * MICROS_PER_DAY - 1, Interval(0, 0, 1));
  }

  /** One month less 999 microseconds after the first microsecond of a 31st before the epoch: 999 microseconds earlier is
      the end of the 30th, and a month later the end of the 28th; but the month is added to the 31st, and the sum is a
      day less. */
  lemma BorrowedTwice()
    ensures var ts := 1 - 29 * MICROS_PER_DAY;
            && Sum(ALTERNATING, ts, Interval(1, 0, -999)) == Ok(-MICROS_PER_DAY - 998)
            && Then(ALTERNATING, Sum(ALTERNATING, ts, Interval(0, 0, -999)), Interval(1, 0, 0)) == Ok(-998)
  {
    hide Sum, ValidMonths, Made, StartOf, NumberOf, AddTo;
    var ts := 1 - 29 * MICROS_PER_DAY;
    AlternatingIsValid();
    AMonthLater();
    SumDownwards(ALTERNATING, ts, Interval(1, 0, -999));
    MadeInRange(-29 * MSECS_PER_DAY, -MSECS_PER_DAY, -998);
    OrdinarySum(ALTERNATING, ts, Interval(0, 0, -999));
    SumOfOnlyMonths(ALTERNATING, -29 * MICROS_PER_DAY - 998, 1);
    MadeInRange(-29 * MSECS_PER_DAY - 1, -1, 2);
  }
}
