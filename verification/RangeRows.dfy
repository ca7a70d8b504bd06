/** What a row of range or generate_series yields, said of its start, end and interval alone. */
module RangeRows {
  import opened Sequences
  import opened Calendar
  import opened Ranges

  /** The timestamp that a number of steps leads to, if all sums on the way are in range. */
  ghost function Nth(add: Adder, start: int, iv: Interval, n: nat): Option<int> {
    if n == 0 then Some(start) else
    var before := Nth(add, start, iv, n - 1);
    if before.None? then None else add(before.value, iv)
  }

  /** The interval points one way. */
  predicate PointsOneWay(iv: Interval) {
    HasPositive(iv) != HasNegative(iv)
  }

  /** A timestamp does not lie beyond the end; the end itself only if it is included. */
  predicate InBounds(iv: Interval, v: int, end: int, inclusive: bool) {
    (v == end && inclusive) || (if HasPositive(iv) then v < end else v > end)
  }

  predicate Bounded(row: Row)
    requires !IsNull(row)
  {
    IsFinite(row.start.value) && IsFinite(row.end.value)
  }

  /** The steps from the start, up to the last one in bounds; the one behind it must be in range. A row with a NULL
      yields nothing. */
  ghost predicate Yields(add: Adder, row: Row, inclusive: bool, xs: seq<int>) {
    if IsNull(row) then xs == [] else
    var start, end, iv := row.start.value, row.end.value, row.increment.value;
    && Bounded(row) && PointsOneWay(iv)
    && (forall k :: 0 <= k < |xs| ==> Nth(add, start, iv, k) == Some(xs[k]) && InBounds(iv, xs[k], end, inclusive))
    && var behind := Nth(add, start, iv, |xs|); behind.Some? && !InBounds(iv, behind.value, end, inclusive)
  }

  /** The sum that is out of range: the one behind `n` steps, all of which are in bounds. */
  ghost predicate OverflowsAt(add: Adder, row: Row, inclusive: bool, n: nat)
    requires !IsNull(row)
  {
    var start, end, iv := row.start.value, row.end.value, row.increment.value;
    && (forall k :: 0 <= k <= n ==>
          var x := Nth(add, start, iv, k); x.Some? && InBounds(iv, x.value, end, inclusive))
    && Nth(add, start, iv, n + 1).None?
  }

  /** Why a row fails. */
  ghost predicate Fails(add: Adder, row: Row, inclusive: bool, e: RangeError) {
    && !IsNull(row)
    && match e
       case InfiniteBounds => !Bounded(row)
       case ZeroInterval => Bounded(row) && row.increment.value == Interval(0, 0, 0)
       case MixedSigns => Bounded(row) && HasPositive(row.increment.value) && HasNegative(row.increment.value)
       case TimestampOverflow =>
         Bounded(row) && PointsOneWay(row.increment.value) && exists n :: OverflowsAt(add, row, inclusive, n)
       case TooLong => false
  }

  // ----- the steps of a series -----

  lemma {:induction false} NthFromNext(add: Adder, v: int, iv: Interval, n: nat)
    requires add(v, iv).Some?
    ensures Nth(add, v, iv, n + 1) == Nth(add, add(v, iv).value, iv, n)
  {
    if n == 0 {
      assert Nth(add, v, iv, 0) == Some(v);
    } else {
      NthFromNext(add, v, iv, n - 1);
    }
  }

  /** The values of a series are the steps up to the first one that is finished, or there is no such step. */
  ghost predicate StepsAre(add: Adder, s: Series, v: int, xs: seq<int>) {
    && (forall k :: 0 <= k < |xs| ==> Nth(add, v, s.increment, k) == Some(xs[k]) && !Finished(s, xs[k]))
    && var behind := Nth(add, v, s.increment, |xs|); behind.Some? && Finished(s, behind.value)
  }

  ghost predicate StepsEnd(add: Adder, s: Series, v: int, n: nat) {
    && (forall k :: 0 <= k <= n ==> var x := Nth(add, v, s.increment, k); x.Some? && !Finished(s, x.value))
    && Nth(add, v, s.increment, n + 1).None?
  }

  lemma {:induction false} ValuesAreSteps(add: Adder, s: Series, v: int) returns (n: nat)
    requires Monotone(add) && (ValidSeries(s) || Finished(s, v)) && IsFinite(v)
    ensures var r := Values(add, s, v);
            if r.Ok? then StepsAre(add, s, v, r.value)
            else r.error == TimestampOverflow && StepsEnd(add, s, v, n)
    decreases Distance(s, v)
  {
    n := 0;
    ValuesTurn(add, s, v);
    if !Finished(s, v) {
      var next := add(v, s.increment);
      if next.None? {
        assert Nth(add, v, s.increment, 0) == Some(v);
      } else {
        hide Monotone, Values, Distance, Finished, ValidSeries;
        n := ValuesAreSteps(add, s, next.value);
        var rest := Values(add, s, next.value);
        if rest.Ok? {
          OneMoreStep(add, s, v, rest.value);
        } else {
          OneStepLater(add, s, v, n);
          n := n + 1;
        }
      }
    }
  }

  lemma OneMoreStep(add: Adder, s: Series, v: int, xs: seq<int>)
    requires add(v, s.increment).Some? && !Finished(s, v) && StepsAre(add, s, add(v, s.increment).value, xs)
    ensures StepsAre(add, s, v, [v] + xs)
  {
    hide Finished;
    forall k | 0 <= k < |[v] + xs|
      ensures Nth(add, v, s.increment, k) == Some(([v] + xs)[k]) && !Finished(s, ([v] + xs)[k])
    {
      if k > 0 {
        NthFromNext(add, v, s.increment, k - 1);
      }
    }
    NthFromNext(add, v, s.increment, |xs|);
  }

  lemma OneStepLater(add: Adder, s: Series, v: int, n: nat)
    requires add(v, s.increment).Some? && !Finished(s, v) && StepsEnd(add, s, add(v, s.increment).value, n)
    ensures StepsEnd(add, s, v, n + 1)
  {
    hide Finished;
    forall k | 0 <= k <= n + 1
      ensures var x := Nth(add, v, s.increment, k); x.Some? && !Finished(s, x.value)
    {
      if k > 0 {
        NthFromNext(add, v, s.increment, k - 1);
      }
    }
    NthFromNext(add, v, s.increment, n + 1);
  }

  // ----- rows -----

  /** A row yields the steps that are in bounds, or fails for one of the reasons. */
  lemma RowIs(add: Adder, row: Row, inclusive: bool)
    requires Monotone(add)
    ensures var r := RowValues(add, row, inclusive);
            if r.Ok? then Yields(add, row, inclusive, r.value) else Fails(add, row, inclusive, r.error)
  {
    hide Monotone, Values;
    var p := RowParameters(row, inclusive);
    if p.Ok? && !IsNull(row) {
      ParametersValid(row, inclusive);
      var n := ValuesAreSteps(add, p.value.series, p.value.start);
      SeriesOf(row, inclusive);
      hide RowParameters, Finished, InBounds;
      assert RowValues(add, row, inclusive).Err? ==> OverflowsAt(add, row, inclusive, n);
    } else if IsNull(row) {
      NothingOfNull(add);
    }
  }

  lemma SeriesOf(row: Row, inclusive: bool)
    requires !IsNull(row) && RowParameters(row, inclusive).Ok?
    ensures var p := RowParameters(row, inclusive).value;
            && p.start == row.start.value && p.series.increment == row.increment.value
            && Bounded(row) && PointsOneWay(row.increment.value)
            && forall v :: Finished(p.series, v) <==> !InBounds(row.increment.value, v, row.end.value, inclusive)
  {
  }

  lemma NothingOfNull(add: Adder)
    requires Monotone(add)
    ensures Values(add, NULL_PARAMETERS.series, NULL_PARAMETERS.start) == Ok([])
  {
  }

  /** There is no other list of such steps, and none if the row fails. */
  lemma OneYield(add: Adder, row: Row, inclusive: bool, xs: seq<int>, ys: seq<int>)
    requires Yields(add, row, inclusive, xs) && Yields(add, row, inclusive, ys)
    ensures xs == ys
  {
    hide InBounds;
    if !IsNull(row) {
      var start, iv := row.start.value, row.increment.value;
      var behind, behind' := Nth(add, start, iv, |xs|), Nth(add, start, iv, |ys|);
      assert |xs| == |ys|;
      forall k | 0 <= k < |xs| ensures xs[k] == ys[k] {
        assert Nth(add, start, iv, k) == Some(xs[k]);
      }
    }
  }

  lemma OverflowYieldsNothing(add: Adder, row: Row, inclusive: bool, n: nat, xs: seq<int>)
    requires !IsNull(row) && OverflowsAt(add, row, inclusive, n)
    ensures !Yields(add, row, inclusive, xs)
  {
    hide InBounds;
    var start, iv := row.start.value, row.increment.value;
    var behind, overflow := Nth(add, start, iv, |xs|), Nth(add, start, iv, n + 1);
  }

  lemma NoYieldOfFailure(add: Adder, row: Row, inclusive: bool, e: RangeError, xs: seq<int>)
    requires Fails(add, row, inclusive, e)
    ensures !Yields(add, row, inclusive, xs)
  {
    hide InBounds, OverflowsAt;
    if e == TimestampOverflow {
      var n :| OverflowsAt(add, row, inclusive, n);
      OverflowYieldsNothing(add, row, inclusive, n, xs);
    }
  }

  /** A row yields exactly the steps from its start that are in bounds, provided that the one behind them is in range; a
      NULL yields nothing, and infinite bounds, an interval of zero and mixed signs fail. */
  lemma RowYieldsExactly(add: Adder, row: Row, inclusive: bool, xs: seq<int>)
    requires Monotone(add)
    ensures RowValues(add, row, inclusive) == Ok(xs) <==> Yields(add, row, inclusive, xs)
  {
    hide RowValues, Yields, Fails, Monotone;
    RowIs(add, row, inclusive);
    var r := RowValues(add, row, inclusive);
    if Yields(add, row, inclusive, xs) {
      if r.Ok? {
        OneYield(add, row, inclusive, xs, r.value);
      } else {
        NoYieldOfFailure(add, row, inclusive, r.error, xs);
      }
    }
  }

  /** A row fails exactly for these reasons. */
  lemma RowFailsExactly(add: Adder, row: Row, inclusive: bool, e: RangeError)
    requires Monotone(add)
    ensures RowValues(add, row, inclusive) == Err(e) <==> Fails(add, row, inclusive, e)
  {
    hide RowValues, Yields, Monotone, OverflowsAt;
    RowIs(add, row, inclusive);
    var r := RowValues(add, row, inclusive);
    if Fails(add, row, inclusive, e) && r.Ok? {
      NoYieldOfFailure(add, row, inclusive, e, r.value);
    }
  }

  /** A row is marked as an empty range exactly if its start lies beyond its end, and yields nothing exactly if its start
      is not in bounds; a NULL yields nothing and is not marked. */
  lemma EmptyExactly(row: Row, inclusive: bool)
    requires RowParameters(row, inclusive).Ok?
    ensures RowParameters(row, inclusive).value.beyond <==>
              !IsNull(row) && !InBounds(row.increment.value, row.start.value, row.end.value, true)
    ensures IsEmptyRow(row, inclusive) <==>
              IsNull(row) || !InBounds(row.increment.value, row.start.value, row.end.value, inclusive)
  {
  }

  // ----- the end -----

  /** Some number of steps leads to the end. */
  ghost predicate EndIsReached(add: Adder, row: Row)
    requires !IsNull(row)
  {
    exists n :: Nth(add, row.start.value, row.increment.value, n) == Some(row.end.value)
  }

  lemma EndAt(add: Adder, row: Row, n: nat, xs: seq<int>, inclusive: bool)
    requires Monotone(add) && !IsNull(row) && Yields(add, row, inclusive, xs)
    requires Nth(add, row.start.value, row.increment.value, n) == Some(row.end.value)
    ensures n <= |xs| && (inclusive <==> n < |xs|)
  {
    var start, end, iv := row.start.value, row.end.value, row.increment.value;
    if n > |xs| {
      StepsMoveOn(add, start, iv, |xs|, n);
    }
    var there := Nth(add, start, iv, n);
  }

  /** Steps move on. */
  lemma {:induction false} StepsMoveOn(add: Adder, start: int, iv: Interval, k: nat, n: nat)
    requires Monotone(add) && PointsOneWay(iv) && IsFinite(start) && k < n && Nth(add, start, iv, n).Some?
    ensures Nth(add, start, iv, k).Some?
    ensures var a, b := Nth(add, start, iv, k).value, Nth(add, start, iv, n).value;
            IsFinite(a) && IsFinite(b) && if HasPositive(iv) then a < b else a > b
    decreases n
  {
    if k < n - 1 {
      StepsMoveOn(add, start, iv, k, n - 1);
    } else if k > 0 {
      StepsMoveOn(add, start, iv, k - 1, k);
    }
  }

  /** Nothing lies behind the end. */
  lemma LastIsEnd(add: Adder, row: Row, all: seq<int>, k: nat)
    requires Monotone(add) && !IsNull(row) && Yields(add, row, true, all) && k < |all| && all[k] == row.end.value
    ensures k == |all| - 1
  {
    var start, iv := row.start.value, row.increment.value;
    var there := Nth(add, start, iv, k);
    if k < |all| - 1 {
      var last := Nth(add, start, iv, |all| - 1);
      StepsMoveOn(add, start, iv, k, |all| - 1);
    }
  }

  /** The values in front of the end are those that are yielded without it. */
  lemma WithoutEnd(add: Adder, row: Row, all: seq<int>, n: nat)
    requires Monotone(add) && !IsNull(row) && Yields(add, row, true, all)
    requires if n == |all| then row.end.value !in all else n == |all| - 1 && all[n] == row.end.value
    ensures RowValues(add, row, false) == Ok(all[..n]) && row.end.value !in all[..n]
  {
    var start, end, iv := row.start.value, row.end.value, row.increment.value;
    forall k | 0 <= k < n
      ensures Nth(add, start, iv, k) == Some(all[..n][k]) && InBounds(iv, all[..n][k], end, false)
    {
      if n < |all| && all[k] == end {
        LastIsEnd(add, row, all, k);
      }
    }
    var behind := Nth(add, start, iv, n);
    RowYieldsExactly(add, row, false, all[..n]);
  }

  /** The end is among the values exactly if it is included and some number of steps leads to it; with and without it,
      the values are the same otherwise. */
  lemma EndIncludedExactly(add: Adder, row: Row)
    requires Monotone(add) && !IsNull(row) && RowValues(add, row, true).Ok?
    ensures RowValues(add, row, false).Ok?
    ensures var all, others := RowValues(add, row, true).value, RowValues(add, row, false).value;
            && (row.end.value in all <==> EndIsReached(add, row))
            && row.end.value !in others
            && all == others + if EndIsReached(add, row) then [row.end.value] else []
  {
    var all := RowValues(add, row, true).value;
    var end, n := row.end.value, |all|;
    RowYieldsExactly(add, row, true, all);
    hide RowValues;
    if EndIsReached(add, row) {
      var k: nat :| Nth(add, row.start.value, row.increment.value, k) == Some(end);
      EndAt(add, row, k, all, true);
      LastIsEnd(add, row, all, k);
      WithoutEnd(add, row, all, n - 1);
      assert all == all[..n - 1] + [end];
    } else {
      WithoutEnd(add, row, all, n);
      assert all == all[..n] + [];
    }
  }
}
