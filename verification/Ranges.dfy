/** The timestamps from a start to an end in steps of an interval: what range and generate_series yield. */
module Ranges {
  import opened Sequences
  import opened Calendar

  datatype RangeError = InfiniteBounds | ZeroInterval | MixedSigns | TooLong | TimestampOverflow

  type Outcome<+T> = Result<T, RangeError>

  /** One input row; any column may be NULL. */
  datatype Row = Row(start: Option<int>, end: Option<int>, increment: Option<Interval>)

  predicate IsNull(row: Row) {
    row.start.None? || row.end.None? || row.increment.None?
  }

  predicate HasPositive(iv: Interval) {
    iv.months > 0 || iv.days > 0 || iv.micros > 0
  }

  /** Adding an interval to a timestamp: nothing if the sum is out of range. */
  type Adder = (int, Interval) -> Option<int>

  /** Adding an interval whose fields all point the same way moves every timestamp that way. */
  ghost predicate Monotone(add: Adder) {
    forall t: int, iv: Interval :: IsFinite(t) && add(t, iv).Some? ==>
      && IsFinite(add(t, iv).value)
      && (HasPositive(iv) && !HasNegative(iv) ==> add(t, iv).value > t)
      && (HasNegative(iv) && !HasPositive(iv) ==> add(t, iv).value < t)
  }

  // ----- one series -----

  /** The parameters of a series; its interval points up or down. */
  datatype Series = Series(end: int, increment: Interval, up: bool, inclusive: bool)

  predicate ValidSeries(s: Series) {
    if s.up then HasPositive(s.increment) && !HasNegative(s.increment)
    else HasNegative(s.increment) && !HasPositive(s.increment)
  }

  predicate Finished(s: Series, v: int) {
    if s.up then (if s.inclusive then v > s.end else v >= s.end)
    else (if s.inclusive then v < s.end else v <= s.end)
  }

  function Distance(s: Series, v: int): nat {
    var d := if s.up then s.end - v + 1 else v - s.end + 1;
    if d > 0 then d else 0
  }

  /** All timestamps from `v` on. The one behind the last must still be in range. */
  ghost function Values(add: Adder, s: Series, v: int): Outcome<seq<int>>
    requires Monotone(add) && (ValidSeries(s) || Finished(s, v)) && IsFinite(v)
    decreases Distance(s, v)
  {
    if Finished(s, v) then Ok([]) else
    var next := add(v, s.increment);
    if next.None? then Err(TimestampOverflow) else
    var rest := Values(add, s, next.value);
    if rest.Err? then rest else Ok([v] + rest.value)
  }

  /** A failure behind some values is a failure. */
  function Join(xs: seq<int>, rest: Outcome<seq<int>>): Outcome<seq<int>> {
    if rest.Err? then rest else Ok(xs + rest.value)
  }

  lemma JoinNothing(rest: Outcome<seq<int>>)
    ensures Join([], rest) == rest
  {
    if rest.Ok? {
      assert [] + rest.value == rest.value;
    }
  }

  lemma JoinJoin(xs: seq<int>, ys: seq<int>, rest: Outcome<seq<int>>)
    ensures Join(xs, Join(ys, rest)) == Join(xs + ys, rest)
  {
    if rest.Ok? {
      assert xs + (ys + rest.value) == xs + ys + rest.value;
    }
  }

  lemma ValuesTurn(add: Adder, s: Series, v: int)
    requires Monotone(add) && (ValidSeries(s) || Finished(s, v)) && IsFinite(v)
    ensures Values(add, s, v) ==
              if Finished(s, v) then Ok([])
              else if add(v, s.increment).None? then Err(TimestampOverflow)
              else Join([v], Values(add, s, add(v, s.increment).value))
    ensures !Finished(s, v) && add(v, s.increment).Some? ==>
              IsFinite(add(v, s.increment).value) && Distance(s, add(v, s.increment).value) < Distance(s, v)
  {
  }

  /** Every value lies between start and end, and each is one step from the one before. */
  lemma {:induction false} ValuesAre(add: Adder, s: Series, v: int, k: nat)
    requires Monotone(add) && (ValidSeries(s) || Finished(s, v)) && IsFinite(v)
    requires Values(add, s, v).Ok? && k < |Values(add, s, v).value|
    ensures var xs := Values(add, s, v).value;
            && xs[0] == v && !Finished(s, xs[k]) && IsFinite(xs[k]) && add(xs[k], s.increment).Some?
            && (if k + 1 < |xs| then xs[k + 1] == add(xs[k], s.increment).value
                else Finished(s, add(xs[k], s.increment).value))
    decreases k
  {
    var next := add(v, s.increment).value;
    if k == 0 {
      assert !Finished(s, next) ==> Values(add, s, next).value[0] == next;
    } else {
      ValuesAre(add, s, next, k - 1);
    }
  }

  // ----- what a row asks for -----

  /** What the table function makes of a row: where it starts, the series, and whether the start is beyond the end.
      NULLs give an empty series. */
  datatype Parameters = Parameters(start: int, series: Series, beyond: bool)

  const NULL_PARAMETERS: Parameters := Parameters(0, Series(0, Interval(0, 0, 0), true, false), false)

  function RowParameters(row: Row, inclusive: bool): Outcome<Parameters> {
    if IsNull(row) then Ok(NULL_PARAMETERS) else
    var start, end, iv := row.start.value, row.end.value, row.increment.value;
    if !IsFinite(start) || !IsFinite(end) then Err(InfiniteBounds)
    else if iv == Interval(0, 0, 0) then Err(ZeroInterval)
    else if HasPositive(iv) && HasNegative(iv) then Err(MixedSigns)
    else Ok(Parameters(start, Series(end, iv, HasPositive(iv), inclusive),
                       if HasPositive(iv) then start > end else start < end))
  }

  lemma ParametersValid(row: Row, inclusive: bool)
    requires RowParameters(row, inclusive).Ok?
    ensures var p := RowParameters(row, inclusive).value;
            (ValidSeries(p.series) || Finished(p.series, p.start)) && IsFinite(p.start)
    ensures var p := RowParameters(row, inclusive).value; p.beyond ==> Finished(p.series, p.start)
  {
  }

  ghost function RowValues(add: Adder, row: Row, inclusive: bool): Outcome<seq<int>>
    requires Monotone(add)
  {
    var p := RowParameters(row, inclusive);
    if p.Err? then Err(p.error) else
    ParametersValid(row, inclusive);
    Values(add, p.value.series, p.value.start)
  }

  /** The start of a row is already at or beyond its end, or the row has a NULL. */
  predicate IsEmptyRow(row: Row, inclusive: bool)
    requires RowParameters(row, inclusive).Ok?
  {
    var p := RowParameters(row, inclusive).value;
    Finished(p.series, p.start)
  }

  lemma EmptyRowExactly(add: Adder, row: Row, inclusive: bool)
    requires Monotone(add) && RowValues(add, row, inclusive).Ok?
    ensures RowParameters(row, inclusive).Ok?
    ensures RowValues(add, row, inclusive).value == [] <==> IsEmptyRow(row, inclusive)
  {
    var p := RowParameters(row, inclusive).value;
    ParametersValid(row, inclusive);
    ValuesTurn(add, p.series, p.start);
    hide Values;
  }

  // ----- the calendar's addition -----

  /** The addition of the calendar, for intervals without months, is such an addition. */
  function CalendarAdder(months: Months): Adder {
    (t: int, iv: Interval) => if iv.months != 0 || Sum(months, t, iv).Err? then None else Some(Sum(months, t, iv).value)
  }

  lemma CalendarAdderIsMonotone(months: Months)
    requires ValidMonths(months)
    ensures Monotone(CalendarAdder(months))
  {
    forall t: int, iv: Interval | IsFinite(t) && CalendarAdder(months)(t, iv).Some?
      ensures IsFinite(CalendarAdder(months)(t, iv).value)
      ensures HasPositive(iv) && !HasNegative(iv) ==> CalendarAdder(months)(t, iv).value > t
      ensures HasNegative(iv) && !HasPositive(iv) ==> CalendarAdder(months)(t, iv).value < t
    {
      SumIsExact(months, t, iv);
    }
  }
}
