/** The table functions range and generate_series: one chunk per call, with the state in between. */
module TableRange {
  import opened Sequences
  import opened Calendar
  import opened Ranges

  // ----- what is left to be emitted -----

  /** The fields of the local state, as one value. */
  datatype LocalState = LocalState(initialized: bool, row: nat, current: int, series: Series, empty: bool)

  /** What the rows from `k` on yield, if an empty range has been seen already or not. */
  ghost function FromRow(add: Adder, rows: seq<Row>, k: nat, empty: bool, inclusive: bool): Outcome<seq<int>>
    requires Monotone(add) && k <= |rows|
    decreases |rows| - k
  {
    if k == |rows| then Ok([]) else
    var p := RowParameters(rows[k], inclusive);
    if p.Err? then Err(p.error) else
    var e := empty || p.value.beyond;
    var rest := FromRow(add, rows, k + 1, e, inclusive);
    if e then rest else
    var values := RowValues(add, rows[k], inclusive);
    if values.Err? then values else Join(values.value, rest)
  }

  ghost predicate ValidState(s: LocalState, rows: seq<Row>) {
    && s.row <= |rows|
    && (s.initialized ==> s.row < |rows| && (s.empty || ValidSeries(s.series) || Finished(s.series, s.current))
                          && IsFinite(s.current))
  }

  /** What is still to be emitted for these rows. */
  ghost function Left(add: Adder, rows: seq<Row>, s: LocalState, inclusive: bool): Outcome<seq<int>>
    requires Monotone(add) && ValidState(s, rows)
  {
    if !s.initialized then FromRow(add, rows, s.row, s.empty, inclusive) else
    var rest := FromRow(add, rows, s.row + 1, s.empty, inclusive);
    if s.empty then rest else
    var values := Values(add, s.series, s.current);
    if values.Err? then values else Join(values.value, rest)
  }

  /** Starting on a row. */
  lemma LeftStarted(add: Adder, rows: seq<Row>, s: LocalState, inclusive: bool)
    requires Monotone(add) && ValidState(s, rows) && !s.initialized && s.row < |rows|
    ensures var p := RowParameters(rows[s.row], inclusive);
            if p.Err? then Left(add, rows, s, inclusive).Err?
            else
              var s' := LocalState(true, s.row, p.value.start, p.value.series, s.empty || p.value.beyond);
              ValidState(s', rows) && Left(add, rows, s, inclusive) == Left(add, rows, s', inclusive)
  {
    if RowParameters(rows[s.row], inclusive).Ok? {
      ParametersValid(rows[s.row], inclusive);
    }
  }

  /** Done with a row. */
  lemma LeftSkipped(add: Adder, rows: seq<Row>, s: LocalState, inclusive: bool)
    requires Monotone(add) && ValidState(s, rows) && s.initialized
    requires s.empty || Values(add, s.series, s.current) == Ok([])
    ensures var s' := s.(initialized := false, row := s.row + 1);
            ValidState(s', rows) && Left(add, rows, s, inclusive) == Left(add, rows, s', inclusive)
  {
    JoinNothing(FromRow(add, rows, s.row + 1, s.empty, inclusive));
  }

  /** Some values of the row have been emitted. */
  lemma LeftEmitted(add: Adder, rows: seq<Row>, s: LocalState, s': LocalState, xs: seq<int>, inclusive: bool)
    requires Monotone(add) && ValidState(s, rows) && ValidState(s', rows) && s.initialized && !s.empty
    requires s' == s.(current := s'.current)
    requires Values(add, s.series, s.current) == Join(xs, Values(add, s.series, s'.current))
    ensures Left(add, rows, s, inclusive) == Join(xs, Left(add, rows, s', inclusive))
  {
    var rest, values := FromRow(add, rows, s.row + 1, s.empty, inclusive), Values(add, s.series, s'.current);
    if values.Ok? {
      JoinJoin(xs, values.value, rest);
    }
  }

  lemma LeftFails(add: Adder, rows: seq<Row>, s: LocalState, inclusive: bool)
    requires Monotone(add) && ValidState(s, rows) && s.initialized && !s.empty && Values(add, s.series, s.current).Err?
    ensures Left(add, rows, s, inclusive).Err?
  {
  }

  lemma JoinFails(xs: seq<int>, e: RangeError)
    ensures Join(xs, Err(e)) == Err(e)
  {
  }

  // ----- the function -----

  datatype OperatorResultType = NEED_MORE_INPUT | HAVE_MORE_OUTPUT

  class ICURangeLocalState {
    var initializedRow: bool
    var currentInputRow: nat
    var currentState: int
    var start: int
    var end: int
    var increment: Interval
    var inclusiveBound: bool
    var greaterThanCheck: bool
    var emptyRange: bool

    function State(): LocalState
      reads this
    {
      LocalState(initializedRow, currentInputRow, currentState, Series(end, increment, greaterThanCheck, inclusiveBound),
                 emptyRange)
    }

    constructor ()
      ensures !initializedRow && currentInputRow == 0 && !emptyRange
    {
      initializedRow, currentInputRow, emptyRange := false, 0, false;
    }

    method Finished(currentValue: int) returns (r: bool)
      ensures r == Ranges.Finished(State().series, currentValue)
    {
      if greaterThanCheck {
        r := if inclusiveBound then currentValue > end else currentValue >= end;
      } else {
        r := if inclusiveBound then currentValue < end else currentValue <= end;
      }
    }

    /** The parameters of a row. An empty range is marked, and a mark that is there already stays. */
    method GenerateRangeDateTimeParameters(row: Row, generateSeries: bool) returns (e: Option<RangeError>)
      modifies this
      ensures initializedRow == old(initializedRow) && currentInputRow == old(currentInputRow)
      ensures currentState == old(currentState)
      ensures var p := RowParameters(row, generateSeries);
              if p.Err? then e == Some(p.error)
              else e == None && start == p.value.start && State().series == p.value.series
                   && emptyRange == (old(emptyRange) || p.value.beyond)
    {
      if row.start.None? || row.end.None? || row.increment.None? {
        start, end, increment, greaterThanCheck, inclusiveBound := 0, 0, Interval(0, 0, 0), true, false;
        return None;
      }
      start, end, increment := row.start.value, row.end.value, row.increment.value;
      if !IsFinite(start) || !IsFinite(end) {
        return Some(InfiniteBounds);
      }
      if increment.months == 0 && increment.days == 0 && increment.micros == 0 {
        return Some(ZeroInterval);
      }
      if increment.months > 0 || increment.days > 0 || increment.micros > 0 {
        if increment.months < 0 || increment.days < 0 || increment.micros < 0 {
          return Some(MixedSigns);
        }
        greaterThanCheck := true;
        if start > end {
          emptyRange := true;
        }
      } else {
        greaterThanCheck := false;
        if start < end {
          emptyRange := true;
        }
      }
      inclusiveBound := generateSeries;
      e := None;
    }

    /** Fills a chunk with values of the current row, up to its capacity. */
    method FillChunk(add: Adder, capacity: nat) returns (chunk: Outcome<seq<int>>)
      requires Monotone(add) && capacity > 0 && IsFinite(currentState)
      requires ValidSeries(State().series) || Ranges.Finished(State().series, currentState)
      modifies this`currentState
      ensures var all := Values(add, State().series, old(currentState));
              if chunk.Err? then all.Err?
              else
                && IsFinite(currentState) && |chunk.value| <= capacity
                && (ValidSeries(State().series) || Ranges.Finished(State().series, currentState))
                && all == Join(chunk.value, Values(add, State().series, currentState))
      ensures chunk.Ok? && chunk.value == [] ==> Values(add, State().series, currentState) == Ok([])
      ensures chunk.Ok? && chunk.value != [] ==>
                Distance(State().series, currentState) < Distance(State().series, old(currentState))
    {
      var values: seq<int> := [];
      ghost var s := State().series;
      ghost var all := Values(add, s, currentState);
      JoinNothing(all);
      hide Values, Join, Monotone, Distance;
      while true
        invariant |values| < capacity && IsFinite(currentState) && State().series == s
        invariant ValidSeries(s) || Ranges.Finished(s, currentState)
        invariant all == Join(values, Values(add, s, currentState))
        invariant values == [] ==> currentState == old(currentState)
        invariant values != [] ==> Distance(s, currentState) < Distance(s, old(currentState))
        decreases Distance(s, currentState)
      {
        var finished := Finished(currentState);
        if finished {
          break;
        }
        ValuesTurn(add, s, currentState);
        var next := add(currentState, increment);
        if next.None? {
          JoinFails(values, TimestampOverflow);
          return Err(TimestampOverflow);
        }
        JoinJoin(values, [currentState], Values(add, s, next.value));
        values := values + [currentState];
        currentState := next.value;
        if |values| >= capacity {
          break;
        }
      }
      ValuesTurn(add, s, currentState);
      chunk := Ok(values);
    }

    /** Starts on the current row. */
    method BeginRow(add: Adder, rows: seq<Row>, generateSeries: bool) returns (e: Option<RangeError>)
      requires Monotone(add) && ValidState(State(), rows) && !initializedRow && currentInputRow < |rows|
      modifies this
      ensures e.Some? ==> Left(add, rows, old(State()), generateSeries).Err?
      ensures e.None? ==>
                && ValidState(State(), rows) && initializedRow && currentInputRow == old(currentInputRow)
                && Left(add, rows, State(), generateSeries) == Left(add, rows, old(State()), generateSeries)
    {
      LeftStarted(add, rows, State(), generateSeries);
      hide Left, Monotone, RowParameters, ValidState;
      e := GenerateRangeDateTimeParameters(rows[currentInputRow], generateSeries);
      if e.None? {
        initializedRow := true;
        currentState := start;
      }
    }

    /** Emits values of the current row. */
    method EmitRow(add: Adder, rows: seq<Row>, generateSeries: bool, capacity: nat) returns (chunk: Outcome<seq<int>>)
      requires Monotone(add) && capacity > 0 && ValidState(State(), rows) && initializedRow && !emptyRange
      modifies this
      ensures chunk.Err? ==> Left(add, rows, old(State()), generateSeries).Err?
      ensures chunk.Ok? ==>
                && |chunk.value| <= capacity && ValidState(State(), rows)
                && Left(add, rows, old(State()), generateSeries) ==
                     Join(chunk.value, Left(add, rows, State(), generateSeries))
      ensures chunk.Ok? && chunk.value != [] ==> Advances(rows, old(State()), State())
      ensures chunk.Ok? && chunk.value == [] ==> !initializedRow && currentInputRow == old(currentInputRow) + 1
    {
      ghost var s := State();
      chunk := FillChunk(add, capacity);
      if chunk.Err? {
        LeftFails(add, rows, s, generateSeries);
        return;
      }
      ghost var s' := State();
      LeftEmitted(add, rows, s, s', chunk.value, generateSeries);
      if |chunk.value| == 0 {
        JoinNothing(Left(add, rows, s', generateSeries));
        LeftSkipped(add, rows, s', generateSeries);
        hide Left, Values, Join, Monotone;
        currentInputRow := currentInputRow + 1;
        initializedRow := false;
        JoinNothing(Left(add, rows, State(), generateSeries));
      }
    }

    /** One call: emits a chunk, or asks for more rows when these are used up. Nothing that is left is lost, and nothing
        is emitted twice. */
    method ICUTableRangeFunction(add: Adder, rows: seq<Row>, generateSeries: bool, capacity: nat)
      returns (r: Outcome<OperatorResultType>, output: seq<int>)
      requires Monotone(add) && capacity > 0 && ValidState(State(), rows)
      modifies this
      ensures r.Err? ==> Left(add, rows, old(State()), generateSeries).Err?
      ensures r == Ok(HAVE_MORE_OUTPUT) ==>
                && |output| <= capacity && ValidState(State(), rows) && Advances(rows, old(State()), State())
                && Left(add, rows, old(State()), generateSeries) ==
                     Join(output, Left(add, rows, State(), generateSeries))
      ensures r == Ok(NEED_MORE_INPUT) ==>
                && output == [] && Left(add, rows, old(State()), generateSeries) == Ok([])
                && !initializedRow && currentInputRow == 0
    {
      output := [];
      ghost var all := Left(add, rows, State(), generateSeries);
      hide Left, FromRow, Values, Monotone, RowParameters, Join, Distance, ValidState;
      while true
        invariant ValidState(State(), rows) && output == []
        invariant Left(add, rows, State(), generateSeries) == all
        invariant State() == old(State()) || Advances(rows, old(State()), State())
        decreases |rows| - currentInputRow, if initializedRow then 0 else 1
      {
        StateBounds(rows, State());
        if !initializedRow {
          if currentInputRow >= |rows| {
            LeftNothing(add, rows, State(), generateSeries);
            currentInputRow, initializedRow := 0, false;
            return Ok(NEED_MORE_INPUT), [];
          }
          var e := BeginRow(add, rows, generateSeries);
          if e.Some? {
            return Err(e.value), [];
          }
        }
        if emptyRange {
          LeftSkipped(add, rows, State(), generateSeries);
          currentInputRow := currentInputRow + 1;
          initializedRow := false;
          JoinNothing(all);
          return Ok(HAVE_MORE_OUTPUT), [];
        }
        var chunk := EmitRow(add, rows, generateSeries, capacity);
        if chunk.Err? {
          return Err(chunk.error), [];
        }
        if |chunk.value| > 0 {
          return Ok(HAVE_MORE_OUTPUT), chunk.value;
        }
        JoinNothing(Left(add, rows, State(), generateSeries));
      }
    }
  }

  lemma LeftNothing(add: Adder, rows: seq<Row>, s: LocalState, inclusive: bool)
    requires Monotone(add) && ValidState(s, rows) && !s.initialized && s.row == |rows|
    ensures Left(add, rows, s, inclusive) == Ok([])
  {
  }

  /** A call comes closer to the end of the rows: in the same row, its series comes closer to its end. */
  ghost predicate Advances(rows: seq<Row>, s: LocalState, s': LocalState) {
    || s.row < s'.row
    || (s.row == s'.row && !s.initialized && s'.initialized)
    || (s.row == s'.row && s.initialized && s'.initialized && s.series == s'.series
        && Distance(s.series, s'.current) < Distance(s.series, s.current))
  }

  // ----- all chunks of some rows -----

  /** Calls the function until it asks for more rows. */
  method AllChunks(state: ICURangeLocalState, add: Adder, rows: seq<Row>, generateSeries: bool, capacity: nat)
    returns (chunks: Outcome<seq<seq<int>>>)
    requires Monotone(add) && capacity > 0 && !state.initializedRow && state.currentInputRow == 0
    modifies state
    ensures var all := FromRow(add, rows, 0, old(state.emptyRange), generateSeries);
            if chunks.Err? then all.Err?
            else
              && all == Ok(Flatten(chunks.value))
              && forall k :: 0 <= k < |chunks.value| ==> |chunks.value[k]| <= capacity
  {
    var emitted: seq<seq<int>> := [];
    ghost var all := FromRow(add, rows, 0, state.emptyRange, generateSeries);
    JoinNothing(all);
    assert Left(add, rows, state.State(), generateSeries) == all;
    hide Left, FromRow, Monotone, Join, Distance, ValidState;
    assert ValidState(state.State(), rows) by {
      ValidStart(rows, state.State());
    }
    while true
      invariant ValidState(state.State(), rows)
      invariant all == Join(Flatten(emitted), Left(add, rows, state.State(), generateSeries))
      invariant forall k :: 0 <= k < |emitted| ==> |emitted[k]| <= capacity
      decreases |rows| - state.currentInputRow, if state.initializedRow then 0 else 1,
                Distance(state.State().series, state.currentState)
    {
      ghost var before := state.State();
      var r, output := state.ICUTableRangeFunction(add, rows, generateSeries, capacity);
      if r.Err? {
        JoinFails(Flatten(emitted), Left(add, rows, before, generateSeries).error);
        return Err(r.error);
      }
      if r.value == NEED_MORE_INPUT {
        JoinYields(Flatten(emitted), []);
        assert Flatten(emitted) + [] == Flatten(emitted);
        return Ok(emitted);
      }
      StateBounds(rows, state.State());
      JoinJoin(Flatten(emitted), output, Left(add, rows, state.State(), generateSeries));
      FlattenSnoc(emitted, output);
      emitted := emitted + [output];
    }
  }

  lemma ValidStart(rows: seq<Row>, s: LocalState)
    requires !s.initialized && s.row == 0
    ensures ValidState(s, rows)
  {
  }

  lemma StateBounds(rows: seq<Row>, s: LocalState)
    requires ValidState(s, rows)
    ensures s.row <= |rows|
  {
  }

  lemma JoinYields(xs: seq<int>, ys: seq<int>)
    ensures Join(xs, Ok(ys)) == Ok(xs + ys)
  {
  }

  // ----- empty ranges -----

  /** The first row whose range is empty because its start lies beyond its end. */
  function FirstBeyond(rows: seq<Row>, k: nat, inclusive: bool): (n: nat)
    requires k <= |rows|
    ensures k <= n <= |rows|
    decreases |rows| - k
  {
    if k == |rows| then k
    else if RowParameters(rows[k], inclusive).Ok? && RowParameters(rows[k], inclusive).value.beyond then k
    else FirstBeyond(rows, k + 1, inclusive)
  }

  ghost predicate AllYield(add: Adder, rows: seq<Row>, inclusive: bool)
    requires Monotone(add)
  {
    forall k :: 0 <= k < |rows| ==> RowValues(add, rows[k], inclusive).Ok?
  }

  /** What each row yields on its own. */
  ghost function Lists(add: Adder, rows: seq<Row>, inclusive: bool): (lists: seq<seq<int>>)
    requires Monotone(add) && AllYield(add, rows, inclusive)
  {
    seq(|rows|, k requires 0 <= k < |rows| => RowValues(add, rows[k], inclusive).value)
  }

  lemma {:induction false} NothingOnceEmpty(add: Adder, rows: seq<Row>, k: nat, inclusive: bool)
    requires Monotone(add) && AllYield(add, rows, inclusive) && k <= |rows|
    ensures FromRow(add, rows, k, true, inclusive) == Ok([])
    decreases |rows| - k
  {
    if k < |rows| {
      assert RowValues(add, rows[k], inclusive).Ok?;
      NothingOnceEmpty(add, rows, k + 1, inclusive);
    }
  }

  /** The rows up to the first empty range are emitted in full; of the rows behind it, nothing is. */
  lemma {:induction false} RangeStops(add: Adder, rows: seq<Row>, k: nat, inclusive: bool)
    requires Monotone(add) && AllYield(add, rows, inclusive) && k <= |rows|
    ensures FromRow(add, rows, k, false, inclusive) ==
              Ok(Flatten(Lists(add, rows, inclusive)[k..FirstBeyond(rows, k, inclusive)]))
    decreases |rows| - k
  {
    var lists, n := Lists(add, rows, inclusive), FirstBeyond(rows, k, inclusive);
    if k < |rows| {
      assert RowValues(add, rows[k], inclusive).Ok?;
      if RowParameters(rows[k], inclusive).value.beyond {
        NothingOnceEmpty(add, rows, k + 1, inclusive);
      } else {
        RangeStops(add, rows, k + 1, inclusive);
        assert lists[k..n][0] == lists[k] && lists[k..n][1..] == lists[k + 1..n];
      }
    }
  }

  lemma {:induction false} FlattenNothing(xss: seq<seq<int>>)
    ensures Flatten(xss) == [] <==> forall k :: 0 <= k < |xss| ==> xss[k] == []
  {
    if xss != [] {
      FlattenNothing(xss[1..]);
      assert forall k :: 0 < k < |xss| ==> xss[k] == xss[1..][k - 1];
    }
  }

  /** The chunks of all rows are the lists of all rows, one after the other, exactly if every row behind the first one
      whose start lies beyond its end has its own start at or beyond its end: the mark of an empty range is never taken
      back. */
  lemma RangeIsWhole(add: Adder, rows: seq<Row>, inclusive: bool)
    requires Monotone(add) && AllYield(add, rows, inclusive)
    ensures forall k :: 0 <= k < |rows| ==> RowParameters(rows[k], inclusive).Ok?
    ensures FromRow(add, rows, 0, false, inclusive) == Ok(Flatten(Lists(add, rows, inclusive))) <==>
              forall k :: FirstBeyond(rows, 0, inclusive) < k < |rows| ==> IsEmptyRow(rows[k], inclusive)
  {
    var lists := Lists(add, rows, inclusive);
    RangeMissesLists(add, rows, inclusive);
    forall k | 0 <= k < |rows|
      ensures RowParameters(rows[k], inclusive).Ok? && (lists[k] == [] <==> IsEmptyRow(rows[k], inclusive))
    {
      assert RowValues(add, rows[k], inclusive).Ok?;
      EmptyRowExactly(add, rows[k], inclusive);
    }
    hide FromRow, Monotone, AllYield, RowValues, IsEmptyRow, Lists, RowParameters;
  }

  lemma RangeMissesLists(add: Adder, rows: seq<Row>, inclusive: bool)
    requires Monotone(add) && AllYield(add, rows, inclusive)
    ensures var lists := Lists(add, rows, inclusive);
            FromRow(add, rows, 0, false, inclusive) == Ok(Flatten(lists)) <==>
              (forall k :: FirstBeyond(rows, 0, inclusive) < k < |rows| ==> lists[k] == [])
  {
    var lists, n := Lists(add, rows, inclusive), FirstBeyond(rows, 0, inclusive);
    RangeStops(add, rows, 0, inclusive);
    if n < |rows| {
      BeyondIsEmpty(add, rows, n, inclusive);
    }
    assert lists[0..n] == lists[..n];
    FlattenPrefix(lists, n);
    hide FromRow, Monotone, AllYield, RowValues;
  }

  /** A prefix has all elements exactly if the parts behind it are empty. */
  lemma FlattenPrefix(xss: seq<seq<int>>, n: nat)
    requires n <= |xss|
    ensures Flatten(xss[..n]) == Flatten(xss) <==> forall k :: n <= k < |xss| ==> xss[k] == []
  {
    var a, b := Flatten(xss[..n]), Flatten(xss[n..]);
    assert xss[..n] + xss[n..] == xss;
    FlattenConcat(xss[..n], xss[n..]);
    hide *;
    FlattenNothing(xss[n..]);
    SameLength(a, b);
    EmptyFrom(xss, n);
  }

  lemma EmptyFrom(xss: seq<seq<int>>, n: nat)
    requires n <= |xss|
    ensures (forall k :: 0 <= k < |xss[n..]| ==> xss[n..][k] == []) <==> (forall k :: n <= k < |xss| ==> xss[k] == [])
  {
    var behind := xss[n..];
    if forall k :: 0 <= k < |behind| ==> behind[k] == [] {
      forall k | n <= k < |xss| ensures xss[k] == [] {
        assert behind[k - n] == xss[k];
      }
    }
    if forall k :: n <= k < |xss| ==> xss[k] == [] {
      forall k | 0 <= k < |behind| ensures behind[k] == [] {
        assert behind[k] == xss[n + k];
      }
    }
  }

  lemma SameLength(a: seq<int>, b: seq<int>)
    ensures a == a + b <==> b == []
  {
    assert |a + b| == |a| + |b|;
    assert a + [] == a;
  }

  lemma BeyondIsEmpty(add: Adder, rows: seq<Row>, n: nat, inclusive: bool)
    requires Monotone(add) && AllYield(add, rows, inclusive) && n < |rows| && n == FirstBeyond(rows, 0, inclusive)
    ensures Lists(add, rows, inclusive)[n] == []
  {
    FirstIsBeyond(rows, 0, inclusive);
    assert RowValues(add, rows[n], inclusive).Ok?;
    ParametersValid(rows[n], inclusive);
  }

  lemma {:induction false} FirstIsBeyond(rows: seq<Row>, k: nat, inclusive: bool)
    requires k <= |rows|
    ensures var n := FirstBeyond(rows, k, inclusive);
            n < |rows| ==> RowParameters(rows[n], inclusive).Ok? && RowParameters(rows[n], inclusive).value.beyond
    decreases |rows| - k
  {
    if k < |rows| {
      FirstIsBeyond(rows, k + 1, inclusive);
    }
  }

  /** An empty range hides the row behind it. */
  lemma EmptyRangeHides(add: Adder)
    requires Monotone(add) && add(0, Interval(0, 0, 1)) == Some(1)
    ensures var step := Some(Interval(0, 0, 1));
            var rows := [Row(Some(1), Some(0), step), Row(Some(0), Some(1), step)];
            && RowValues(add, rows[1], false) == Ok([0])
            && FromRow(add, rows, 0, false, false) == Ok([])
  {
    var step := Interval(0, 0, 1);
    var rows := [Row(Some(1), Some(0), Some(step)), Row(Some(0), Some(1), Some(step))];
    var s := Series(1, step, true, false);
    ValuesTurn(add, s, 0);
    ValuesTurn(add, s, 1);
    assert [0] + [] == [0];
    assert RowParameters(rows[1], false) == Ok(Parameters(0, s, false));
    assert RowParameters(rows[0], false) == Ok(Parameters(1, Series(0, step, true, false), true));
    hide Values, RowParameters;
    assert FromRow(add, rows, 2, true, false) == Ok([]);
    assert FromRow(add, rows, 1, true, false) == Ok([]);
  }
}
