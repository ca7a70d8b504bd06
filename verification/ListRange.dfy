/** The scalar functions range and generate_series, which give a list per row: a first pass counts the elements of
    every list, a second one fills them in. */
module ListRange {
  import opened Sequences
  import opened Calendar
  import opened Ranges
  import T = TableRange

  const MAX_LIST_LENGTH: int := 0xFFFF_FFFF

  /** What the list of a row is: unlike the table function, an interval of zero gives an empty list. */
  ghost function RowList(add: Adder, row: Row, inclusive: bool): Outcome<seq<int>>
    requires Monotone(add)
  {
    if IsNull(row) || row.increment == Some(Interval(0, 0, 0)) then Ok([])
    else
      var values := RowValues(add, row, inclusive);
      if values.Ok? && |values.value| > MAX_LIST_LENGTH then Err(TooLong) else values
  }

  /** A row gives the same values as a list and as a table, or fails both ways, exactly if its interval is not zero and
      its values fit into a list. */
  lemma ListAgreesWithTable(add: Adder, row: Row, inclusive: bool)
    requires Monotone(add)
    ensures var list, table := RowList(add, row, inclusive), RowValues(add, row, inclusive);
            (if table.Ok? then list == table else list.Err?) <==>
              ((IsNull(row) || row.increment != Some(Interval(0, 0, 0)))
               && !(table.Ok? && |table.value| > MAX_LIST_LENGTH))
  {
  }

  /** The chunks that the table function emits for a row are its list, whenever the two agree. */
  lemma ChunksAreList(add: Adder, row: Row, inclusive: bool)
    requires Monotone(add) && row.increment != Some(Interval(0, 0, 0)) && RowList(add, row, inclusive).Ok?
    ensures T.FromRow(add, [row], 0, false, inclusive) == RowList(add, row, inclusive)
  {
    ListAgreesWithTable(add, row, inclusive);
    var p := RowParameters(row, inclusive);
    if p.Ok? {
      ParametersValid(row, inclusive);
    }
    assert T.FromRow(add, [row], 1, p.Ok? && p.value.beyond, inclusive) == Ok([]);
    var values := RowValues(add, row, inclusive);
    assert values.Ok? ==> values.value + [] == values.value;
  }

  /** The loop that counts: as many steps as there are values, or the failure of the list. */
  method CountValues(add: Adder, s: Series, start: int) returns (n: Outcome<nat>)
    requires Monotone(add) && ValidSeries(s) && IsFinite(start)
    ensures var all := Values(add, s, start);
            if n.Ok? then all.Ok? && n.value == |all.value| <= MAX_LIST_LENGTH
            else all.Err? || |all.value| > MAX_LIST_LENGTH
  {
    var startValue, totalValues := start, 0;
    ghost var all, seen := Values(add, s, start), [];
    JoinNothing(all);
    hide Values, Monotone, Distance;
    while !Finished(s, startValue)
      invariant IsFinite(startValue) && totalValues == |seen| <= MAX_LIST_LENGTH
      invariant all == Join(seen, Values(add, s, startValue))
      decreases Distance(s, startValue)
    {
      ValuesTurn(add, s, startValue);
      var next := add(startValue, s.increment);
      if next.None? {
        return Err(TimestampOverflow);
      }
      JoinJoin(seen, [startValue], Values(add, s, next.value));
      seen := seen + [startValue];
      startValue := next.value;
      totalValues := totalValues + 1;
      if totalValues > MAX_LIST_LENGTH {
        return Err(TooLong);
      }
    }
    ValuesTurn(add, s, startValue);
    n := Ok(totalValues);
  }

  /** The length of the list of a row that has no NULL. */
  method ListLength(add: Adder, start: int, end: int, increment: Interval, inclusiveBound: bool)
    returns (n: Outcome<nat>)
    requires Monotone(add)
    ensures var list := RowList(add, Row(Some(start), Some(end), Some(increment)), inclusiveBound);
            if n.Ok? then list.Ok? && n.value == |list.value| <= MAX_LIST_LENGTH else list.Err?
  {
    var isPositive := increment.months > 0 || increment.days > 0 || increment.micros > 0;
    var isNegative := increment.months < 0 || increment.days < 0 || increment.micros < 0;
    if !isNegative && !isPositive {
      return Ok(0);
    }
    if !IsFinite(start) || !IsFinite(end) {
      return Err(InfiniteBounds);
    }
    if isNegative && isPositive {
      return Err(MixedSigns);
    }
    if start > end && isPositive {
      return Ok(0);
    }
    if start < end && isNegative {
      return Ok(0);
    }
    n := CountValues(add, Series(end, increment, isPositive, inclusiveBound), start);
  }

  // ----- all rows -----

  datatype ListEntry = ListEntry(valid: bool, offset: nat, length: nat)

  ghost predicate AllLists(add: Adder, rows: seq<Row>, inclusive: bool)
    requires Monotone(add)
  {
    forall k :: 0 <= k < |rows| ==> RowList(add, rows[k], inclusive).Ok?
  }

  ghost function Lists(add: Adder, rows: seq<Row>, inclusive: bool): seq<seq<int>>
    requires Monotone(add) && AllLists(add, rows, inclusive)
  {
    if rows == [] then [] else
    var last := |rows| - 1;
    Lists(add, rows[..last], inclusive) + [RowList(add, rows[last], inclusive).value]
  }

  lemma ListsOf(add: Adder, rows: seq<Row>, k: nat, inclusive: bool)
    requires Monotone(add) && k < |rows|
    requires AllLists(add, rows[..k], inclusive) && RowList(add, rows[k], inclusive).Ok?
    ensures AllLists(add, rows[..k + 1], inclusive)
    ensures var before, list := Flatten(Lists(add, rows[..k], inclusive)), RowList(add, rows[k], inclusive).value;
            Flatten(Lists(add, rows[..k + 1], inclusive)) == before + list
  {
    assert rows[..k + 1][..k] == rows[..k];
    var longer := rows[..k + 1];
    forall j | 0 <= j < |longer| ensures RowList(add, longer[j], inclusive).Ok? {
      if j < k {
        assert longer[j] == rows[..k][j];
      }
    }
    FlattenSnoc(Lists(add, rows[..k], inclusive), RowList(add, rows[k], inclusive).value);
  }

  /** The first pass: NULL rows and the lengths of the lists. */
  method CountRows(add: Adder, rows: seq<Row>, inclusiveBound: bool)
    returns (entries: Outcome<seq<ListEntry>>, totalSize: nat)
    requires Monotone(add)
    ensures entries.Ok? <==> AllLists(add, rows, inclusiveBound)
    ensures entries.Ok? ==>
              && |entries.value| == |rows| && totalSize == |Flatten(Lists(add, rows, inclusiveBound))|
              && forall k :: 0 <= k < |rows| ==> EntryOf(add, rows, k, inclusiveBound, entries.value[k])
  {
    var listData: seq<ListEntry> := [];
    totalSize := 0;
    var i := 0;
    hide RowList, Monotone;
    assert rows[..0] == [];
    while i < |rows|
      invariant 0 <= i <= |rows| == |rows| && |listData| == i
      invariant AllLists(add, rows[..i], inclusiveBound) && totalSize == |Flatten(Lists(add, rows[..i], inclusiveBound))|
      invariant forall k :: 0 <= k < i ==> EntryOf(add, rows, k, inclusiveBound, listData[k])
    {
      var row := rows[i];
      var length := RowLength(add, row, inclusiveBound);
      if length.Err? {
        assert !AllLists(add, rows, inclusiveBound);
        return Err(length.error), totalSize;
      }
      ListsOf(add, rows, i, inclusiveBound);
      listData := listData + [ListEntry(!IsNull(row), totalSize, length.value)];
      totalSize := totalSize + length.value;
      i := i + 1;
    }
    assert rows[..i] == rows;
    entries := Ok(listData);
  }

  method RowLength(add: Adder, row: Row, inclusiveBound: bool) returns (length: Outcome<nat>)
    requires Monotone(add)
    ensures var list := RowList(add, row, inclusiveBound);
            if length.Ok? then list.Ok? && length.value == |list.value| else list.Err?
  {
    if row.start.None? || row.end.None? || row.increment.None? {
      return Ok(0);
    }
    length := ListLength(add, row.start.value, row.end.value, row.increment.value, inclusiveBound);
  }

  /** The entry of row `k`: NULL for a row with a NULL, and where its list starts and how long it is. */
  ghost predicate EntryOf(add: Adder, rows: seq<Row>, k: nat, inclusive: bool, entry: ListEntry)
    requires Monotone(add) && k < |rows|
  {
    && entry.valid == !IsNull(rows[k])
    && AllLists(add, rows[..k], inclusive) && entry.offset == |Flatten(Lists(add, rows[..k], inclusive))|
    && RowList(add, rows[k], inclusive).Ok? && entry.length == |RowList(add, rows[k], inclusive).value|
  }

  /** The second pass fills in, step by step, as many values as were counted: exactly the values of the list, and no
      addition fails any more. */
  method FillRow(add: Adder, row: Row, inclusiveBound: bool, length: nat, data: array<int>, offset: nat)
    requires Monotone(add) && RowList(add, row, inclusiveBound).Ok?
    requires length == |RowList(add, row, inclusiveBound).value| && offset + length <= data.Length
    modifies data
    ensures data[..offset] == old(data[..offset])
    ensures data[offset..offset + length] == RowList(add, row, inclusiveBound).value
  {
    ghost var list := RowList(add, row, inclusiveBound).value;
    var rangeIdx := 0;
    if length > 0 {
      var rangeValue, increment := row.start.value, row.increment.value;
      while rangeIdx < length
        invariant 0 <= rangeIdx <= length
        invariant rangeValue == if rangeIdx == 0 then row.start.value else list[rangeIdx - 1]
        invariant data[..offset] == old(data[..offset]) && data[offset..offset + rangeIdx] == list[..rangeIdx]
      {
        Steps(add, row, inclusiveBound, rangeIdx);
        if rangeIdx > 0 {
          rangeValue := add(rangeValue, increment).value;
        }
        data[offset + rangeIdx] := rangeValue;
        assert data[offset..offset + rangeIdx + 1] == data[offset..offset + rangeIdx] + [rangeValue];
        assert list[..rangeIdx + 1] == list[..rangeIdx] + [list[rangeIdx]];
        rangeIdx := rangeIdx + 1;
      }
      assert list[..rangeIdx] == list;
    }
  }

  /** The values of a list, one from the other. */
  lemma Steps(add: Adder, row: Row, inclusive: bool, k: nat)
    requires Monotone(add) && RowList(add, row, inclusive).Ok? && k < |RowList(add, row, inclusive).value|
    ensures var list := RowList(add, row, inclusive).value;
            && !IsNull(row) && list[0] == row.start.value
            && (k > 0 ==> add(list[k - 1], row.increment.value) == Some(list[k]))
  {
    var p := RowParameters(row, inclusive).value;
    ParametersValid(row, inclusive);
    ValuesAre(add, p.series, p.start, if k == 0 then 0 else k - 1);
  }

  /** The second pass over all rows. */
  method FillRows(add: Adder, rows: seq<Row>, inclusiveBound: bool, entries: seq<ListEntry>, rangeData: array<int>)
    requires Monotone(add) && AllLists(add, rows, inclusiveBound) && |entries| == |rows|
    requires forall k :: 0 <= k < |rows| ==> EntryOf(add, rows, k, inclusiveBound, entries[k])
    requires rangeData.Length == |Flatten(Lists(add, rows, inclusiveBound))|
    modifies rangeData
    ensures rangeData[..] == Flatten(Lists(add, rows, inclusiveBound))
  {
    var totalIdx, i := 0, 0;
    assert rows[..0] == [] && rows[..|rows|] == rows && rangeData[..0] == [];
    hide RowList, Monotone, EntryOf, AllLists, Lists, Flatten;
    NoLists(add, inclusiveBound);
    while i < |rows|
      invariant 0 <= i <= |rows| && AllLists(add, rows[..i], inclusiveBound)
      invariant totalIdx == |Flatten(Lists(add, rows[..i], inclusiveBound))| <= rangeData.Length
      invariant rangeData[..totalIdx] == Flatten(Lists(add, rows[..i], inclusiveBound))
    {
      var length := entries[i].length;
      LengthOf(add, rows, i, inclusiveBound, entries[i]);
      ListsOf(add, rows, i, inclusiveBound);
      ListsGrow(add, rows, i + 1, inclusiveBound);
      FillRow(add, rows[i], inclusiveBound, length, rangeData, totalIdx);
      assert rangeData[..totalIdx + length] == rangeData[..totalIdx] + rangeData[totalIdx..totalIdx + length];
      totalIdx := totalIdx + length;
      i := i + 1;
    }
    assert rangeData[..totalIdx] == rangeData[..];
  }

  lemma NoLists(add: Adder, inclusive: bool)
    requires Monotone(add)
    ensures AllLists(add, [], inclusive) && Flatten(Lists(add, [], inclusive)) == []
  {
  }

  lemma LengthOf(add: Adder, rows: seq<Row>, k: nat, inclusive: bool, entry: ListEntry)
    requires Monotone(add) && k < |rows| && EntryOf(add, rows, k, inclusive, entry)
    ensures RowList(add, rows[k], inclusive).Ok? && entry.length == |RowList(add, rows[k], inclusive).value|
  {
  }

  /** Both passes: every list has its values, one after the other in one vector that they fill exactly. */
  method ICUListRangeFunction(add: Adder, rows: seq<Row>, inclusiveBound: bool)
    returns (entries: Outcome<seq<ListEntry>>, rangeData: array<int>)
    requires Monotone(add)
    ensures fresh(rangeData)
    ensures entries.Ok? <==> AllLists(add, rows, inclusiveBound)
    ensures entries.Ok? ==>
              && |entries.value| == |rows| && rangeData[..] == Flatten(Lists(add, rows, inclusiveBound))
              && forall k :: 0 <= k < |rows| ==> EntryOf(add, rows, k, inclusiveBound, entries.value[k])
  {
    var totalSize;
    entries, totalSize := CountRows(add, rows, inclusiveBound);
    if entries.Err? {
      rangeData := new int[0];
      return;
    }
    hide RowList, Monotone, EntryOf, AllLists, Lists;
    rangeData := new int[totalSize];
    FillRows(add, rows, inclusiveBound, entries.value, rangeData);
  }

  lemma {:induction false} ListsGrow(add: Adder, rows: seq<Row>, k: nat, inclusive: bool)
    requires Monotone(add) && k <= |rows| && AllLists(add, rows, inclusive)
    ensures AllLists(add, rows[..k], inclusive)
    ensures |Flatten(Lists(add, rows[..k], inclusive))| <= |Flatten(Lists(add, rows, inclusive))|
    decreases |rows|
  {
    var last := |rows| - 1;
    if k < |rows| {
      assert rows[..last][..k] == rows[..k];
      assert forall j :: 0 <= j < last ==> rows[..last][j] == rows[j];
      ListsGrow(add, rows[..last], k, inclusive);
      FlattenSnoc(Lists(add, rows[..last], inclusive), RowList(add, rows[last], inclusive).value);
    } else {
      assert rows[..k] == rows;
    }
  }
}
