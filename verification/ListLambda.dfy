/** list_filter and list_transform: the elements of many lists are packed into batches of a fixed size,
    the lambda runs on a batch at a time, and the filter state survives from batch to batch. */
module ListLambda {
  import opened Sequences

  /** An SQL value; anything that is neither NULL nor a boolean is an opaque payload. */
  datatype Value<P> = Null | Boolean(b: bool) | Payload(p: P)

  /** What the lambda is run on: the (optional) 1-based index, the element, and the row of the captured columns. */
  datatype LambdaInput<P> = LambdaInput(index: Option<nat>, element: Value<P>, row: nat)

  type Lambda<!P> = LambdaInput<P> -> Value<P>

  /** A row of the list column: NULL, or a slice of the child vector. Slices may overlap. */
  datatype ListRow = NullRow | Slice(offset: nat, length: nat)

  datatype ListEntry = ListEntry(offset: nat, length: nat)

  datatype Functor = Filter | Transform

  /** An element together with what the lambda said about it. */
  datatype Judged<P> = Judged(element: Value<P>, verdict: Value<P>)

  /** A verdict keeps its element only if it is valid and true: NULL drops it. */
  predicate Keeps<P>(verdict: Value<P>) {
    verdict.Boolean? && verdict.b
  }

  // ----- the per-row meaning: one list at a time, no batches -----

  predicate ValidRows<P>(rows: seq<ListRow>, child: seq<Value<P>>) {
    forall r :: 0 <= r < |rows| && rows[r].Slice? ==> rows[r].offset + rows[r].length <= |child|
  }

  function RowInput<P>(row: ListRow, r: nat, child: seq<Value<P>>, hasIndex: bool, c: nat): LambdaInput<P>
    requires row.Slice? && row.offset + row.length <= |child| && c < row.length
  {
    LambdaInput(if hasIndex then Some(c + 1) else None, child[row.offset + c], r)
  }

  /** The list of row `r` with the lambda's verdict on each element. */
  function JudgedRow<P>(row: ListRow, r: nat, child: seq<Value<P>>, hasIndex: bool, lambda: Lambda<P>): seq<Judged<P>>
    requires row.Slice? ==> row.offset + row.length <= |child|
  {
    if row.NullRow? then [] else
      seq(row.length, c requires 0 <= c < row.length =>
        var input := RowInput(row, r, child, hasIndex, c);
        Judged(input.element, lambda(input)))
  }

  function JudgedRows<P>(rows: seq<ListRow>, child: seq<Value<P>>, hasIndex: bool, lambda: Lambda<P>): seq<seq<Judged<P>>>
    requires ValidRows(rows, child)
  {
    seq(|rows|, r requires 0 <= r < |rows| => JudgedRow(rows[r], r, child, hasIndex, lambda))
  }

  /** The kept elements of a list, in order. */
  function Kept<P>(js: seq<Judged<P>>): seq<Value<P>> {
    if js == [] then [] else (if Keeps(js[0].verdict) then [js[0].element] else []) + Kept(js[1..])
  }

  function Verdicts<P>(js: seq<Judged<P>>): (vs: seq<Value<P>>)
  {
    seq(|js|, i requires 0 <= i < |js| => js[i].verdict)
  }

  /** What a single list turns into. */
  function RowResult<P>(functor: Functor, js: seq<Judged<P>>): seq<Value<P>> {
    if functor == Filter then Kept(js) else Verdicts(js)
  }

  function Results<P>(functor: Functor, rows: seq<seq<Judged<P>>>): seq<seq<Value<P>>> {
    seq(|rows|, r requires 0 <= r < |rows| => RowResult(functor, rows[r]))
  }

  lemma {:induction false} KeptConcat<P>(a: seq<Judged<P>>, b: seq<Judged<P>>)
    ensures Kept(a + b) == Kept(a) + Kept(b)
  {
    if a == [] {
      assert a + b == b;
    } else {
      assert (a + b)[1..] == a[1..] + b;
      KeptConcat(a[1..], b);
      hide Keeps;
      var first := if Keeps(a[0].verdict) then [a[0].element] else [];
      assert first + (Kept(a[1..]) + Kept(b)) == first + Kept(a[1..]) + Kept(b);
    }
  }

  lemma KeptSnoc<P>(js: seq<Judged<P>>, i: nat)
    requires i < |js|
    ensures Kept(js[..i + 1]) == Kept(js[..i]) + (if Keeps(js[i].verdict) then [js[i].element] else [])
  {
    assert js[..i + 1] == js[..i] + [js[i]];
    KeptConcat(js[..i], [js[i]]);
  }

  // ----- the batched algorithm -----

  /** The fields of ListFilterInfo at one moment. */
  datatype FilterState = FilterState(entryLengths: seq<nat>, length: nat, offset: nat, rowIdx: nat, srcLength: nat)

  /** The state of list_filter that outlives a batch. */
  class ListFilterInfo {
    var entryLengths: seq<nat>
    var length: nat
    var offset: nat
    var rowIdx: nat
    var srcLength: nat

    constructor ()
      ensures entryLengths == [] && length == 0 && offset == 0 && rowIdx == 0 && srcLength == 0
    {
      entryLengths, length, offset, rowIdx, srcLength := [], 0, 0, 0, 0;
    }

    ghost function State(): FilterState
      reads this
    {
      FilterState(entryLengths, length, offset, rowIdx, srcLength)
    }
  }

  class ListVector<P> {
    const entries: array<ListEntry>
    const valid: array<bool>
    var child: seq<Value<P>>

    constructor (rowCount: nat)
      ensures fresh(entries) && fresh(valid) && entries.Length == valid.Length == rowCount && child == []
      ensures forall r :: 0 <= r < rowCount ==> valid[r]
    {
      entries := new ListEntry[rowCount](_ => ListEntry(0, 0));
      valid := new bool[rowCount](_ => true);
      child := [];
    }
  }

  /** Lists before `rowIdx` are closed, `srcLength` elements of the next one have been judged, and
      everything kept so far is `kept`; in total `done` elements have been judged. */
  ghost predicate Progress<P>(info: FilterState, entries: seq<ListEntry>, rows: seq<seq<Judged<P>>>,
                              done: nat, kept: seq<Value<P>>)
  {
    && |info.entryLengths| == |rows| <= |entries|
    && (forall r :: 0 <= r < |rows| ==> info.entryLengths[r] == |rows[r]|)
    && info.rowIdx <= |rows|
    && var current := if info.rowIdx < |rows| then rows[info.rowIdx] else [];
    && (info.srcLength == 0 || info.srcLength < |current|)
    && var closed := Results(Filter, rows[..info.rowIdx]);
    && done == |Flatten(rows[..info.rowIdx])| + info.srcLength
    && info.offset == |Flatten(closed)|
    && info.length == |Kept(current[..info.srcLength])|
    && kept == Flatten(closed) + Kept(current[..info.srcLength])
    && forall r :: 0 <= r < info.rowIdx ==> Tiled(closed, entries, r)
  }

  /** Entry `r` is row `r`'s tile of the flattened results. */
  ghost predicate Tiled<T>(parts: seq<seq<T>>, entries: seq<ListEntry>, r: nat)
    requires r < |parts| && r < |entries|
  {
    entries[r] == ListEntry(|Flatten(parts[..r])|, |parts[r]|)
  }

  /** Closing list `k` appends it to the flattened input and its result to the flattened results. */
  lemma CloseList<P>(functor: Functor, rows: seq<seq<Judged<P>>>, k: nat)
    requires k < |rows|
    ensures Flatten(rows[..k + 1]) == Flatten(rows[..k]) + rows[k]
    ensures Results(functor, rows[..k + 1]) == Results(functor, rows[..k]) + [RowResult(functor, rows[k])]
    ensures Flatten(Results(functor, rows[..k + 1])) == Flatten(Results(functor, rows[..k])) + RowResult(functor, rows[k])
  {
    assert rows[..k + 1] == rows[..k] + [rows[k]];
    FlattenSnoc(rows[..k], rows[k]);
    FlattenSnoc(Results(functor, rows[..k]), RowResult(functor, rows[k]));
  }

  /** Tiles already laid stay where they are when a list is closed. */
  lemma TilesKept<T>(parts: seq<seq<T>>, part: seq<T>, entries: seq<ListEntry>, entries': seq<ListEntry>)
    requires |parts| < |entries| == |entries'|
    requires forall r :: 0 <= r < |parts| ==> Tiled(parts, entries, r) && entries'[r] == entries[r]
    requires entries'[|parts|] == ListEntry(|Flatten(parts)|, |part|)
    ensures forall r :: 0 <= r < |parts| + 1 ==> Tiled(parts + [part], entries', r)
  {
    forall r | 0 <= r < |parts| + 1
      ensures Tiled(parts + [part], entries', r)
    {
      assert (parts + [part])[..r] == parts[..r];
      if r < |parts| {
        assert Tiled(parts, entries, r);
      } else {
        assert parts[..r] == parts;
      }
    }
  }

  /** The entry an empty list gets does not disturb the invariant. */
  lemma CloseEmptyStep<P>(info: FilterState, entries: seq<ListEntry>, rows: seq<seq<Judged<P>>>,
                          done: nat, kept: seq<Value<P>>)
    requires Progress(info, entries, rows, done, kept)
    requires info.rowIdx < |rows| && rows[info.rowIdx] == []
    ensures Progress(info.(rowIdx := info.rowIdx + 1), entries[info.rowIdx := ListEntry(info.offset, 0)],
                     rows, done, kept)
  {
    CloseList(Filter, rows, info.rowIdx);
    TilesKept(Results(Filter, rows[..info.rowIdx]), [], entries, entries[info.rowIdx := ListEntry(info.offset, 0)]);
  }

  method CloseEmptyLists<P>(info: ListFilterInfo, entries: array<ListEntry>,
                            ghost rows: seq<seq<Judged<P>>>, ghost done: nat, ghost kept: seq<Value<P>>)
    requires Progress(info.State(), entries[..], rows, done, kept)
    modifies info`rowIdx, entries
    ensures Progress(info.State(), entries[..], rows, done, kept)
    ensures info.rowIdx == |rows| || |rows[info.rowIdx]| > 0
  {
    while info.rowIdx < |info.entryLengths| && info.entryLengths[info.rowIdx] == 0
      invariant Progress(info.State(), entries[..], rows, done, kept)
    {
      CloseEmptyStep(info.State(), entries[..], rows, done, kept);
      ghost var closed := entries[..][info.rowIdx := ListEntry(info.offset, 0)];
      entries[info.rowIdx] := ListEntry(info.offset, 0);
      assert entries[..] == closed;
      info.rowIdx := info.rowIdx + 1;
    }
  }

  /** A judged element belongs to the first list that is not closed, at the next position of it. */
  lemma NextElement<P>(info: FilterState, entries: seq<ListEntry>, rows: seq<seq<Judged<P>>>,
                       done: nat, kept: seq<Value<P>>)
    requires Progress(info, entries, rows, done, kept)
    requires done < |Flatten(rows)|
    requires info.rowIdx == |rows| || |rows[info.rowIdx]| > 0
    ensures info.rowIdx < |rows| && info.srcLength < |rows[info.rowIdx]|
    ensures Flatten(rows)[done] == rows[info.rowIdx][info.srcLength]
  {
    assert rows[..|rows|] == rows;
    FlattenAt(rows, info.rowIdx, info.srcLength);
  }

  /** The state after judging one element of the current list, before that list is closed. */
  function Counted<P>(info: FilterState, verdict: Value<P>): FilterState {
    info.(length := if Keeps(verdict) then info.length + 1 else info.length, srcLength := info.srcLength + 1)
  }

  /** The state once the current list is closed. */
  function Closed(info: FilterState): FilterState {
    info.(offset := info.offset + info.length, rowIdx := info.rowIdx + 1, length := 0, srcLength := 0)
  }

  function KeptBy<P>(j: Judged<P>): seq<Value<P>> {
    if Keeps(j.verdict) then [j.element] else []
  }

  lemma JudgeInside<P>(info: FilterState, entries: seq<ListEntry>, rows: seq<seq<Judged<P>>>,
                       done: nat, kept: seq<Value<P>>)
    requires Progress(info, entries, rows, done, kept)
    requires info.rowIdx < |rows| && info.srcLength + 1 < |rows[info.rowIdx]|
    ensures var j := rows[info.rowIdx][info.srcLength];
            Progress(Counted(info, j.verdict), entries, rows, done + 1, kept + KeptBy(j))
  {
    var row := rows[info.rowIdx];
    KeptSnoc(row, info.srcLength);
    var closed := Flatten(Results(Filter, rows[..info.rowIdx]));
    assert kept + KeptBy(row[info.srcLength]) == closed + Kept(row[..info.srcLength + 1]);
  }

  lemma JudgeLast<P>(info: FilterState, entries: seq<ListEntry>, rows: seq<seq<Judged<P>>>,
                     done: nat, kept: seq<Value<P>>)
    requires Progress(info, entries, rows, done, kept)
    requires info.rowIdx < |rows| && info.srcLength + 1 == |rows[info.rowIdx]|
    ensures var j := rows[info.rowIdx][info.srcLength];
            var counted := Counted(info, j.verdict);
            Progress(Closed(counted), entries[info.rowIdx := ListEntry(counted.offset, counted.length)],
                     rows, done + 1, kept + KeptBy(j))
  {
    var row := rows[info.rowIdx];
    var closed := Results(Filter, rows[..info.rowIdx]);
    KeptSnoc(row, info.srcLength);
    assert row[..info.srcLength + 1] == row;
    assert kept + KeptBy(row[info.srcLength]) == Flatten(closed) + Kept(row);
    CloseList(Filter, rows, info.rowIdx);
    TilesKept(closed, Kept(row), entries, entries[info.rowIdx := ListEntry(info.offset, |Kept(row)|)]);
  }

  lemma LengthKnown<P>(info: FilterState, entries: seq<ListEntry>, rows: seq<seq<Judged<P>>>, done: nat,
                       kept: seq<Value<P>>)
    requires Progress(info, entries, rows, done, kept) && info.rowIdx < |rows|
    ensures |info.entryLengths| == |rows| && info.entryLengths[info.rowIdx] == |rows[info.rowIdx]|
    ensures |rows| <= |entries|
  {
  }

  /** Judges the next element: counts it, and closes its list if it is the last one. */
  method JudgeElement<P>(info: ListFilterInfo, entries: array<ListEntry>, element: Value<P>, verdict: Value<P>,
                         ghost rows: seq<seq<Judged<P>>>, ghost done: nat, ghost kept: seq<Value<P>>)
    requires Progress(info.State(), entries[..], rows, done, kept)
    requires info.rowIdx < |rows| && info.srcLength < |rows[info.rowIdx]|
    requires rows[info.rowIdx][info.srcLength] == Judged(element, verdict)
    modifies info`length, info`offset, info`rowIdx, info`srcLength, entries
    ensures Progress(info.State(), entries[..], rows, done + 1, kept + KeptBy(Judged(element, verdict)))
  {
    ghost var before, entriesBefore := info.State(), entries[..];
    LengthKnown(before, entriesBefore, rows, done, kept);
    hide Progress, Keeps;
    if Keeps(verdict) {
      info.length := info.length + 1;
    }
    info.srcLength := info.srcLength + 1;
    assert info.State() == Counted(before, verdict);
    if info.entryLengths[info.rowIdx] == info.srcLength {
      JudgeLast(before, entriesBefore, rows, done, kept);
      entries[info.rowIdx] := ListEntry(info.offset, info.length);
      assert entries[..] == entriesBefore[info.rowIdx := ListEntry(info.offset, info.length)];
      info.offset := info.offset + info.length;
      info.rowIdx := info.rowIdx + 1;
      info.length := 0;
      info.srcLength := 0;
    } else {
      JudgeInside(before, entriesBefore, rows, done, kept);
    }
  }

  /** One turn of the batch loop: empty lists in front of the element are closed, then it is judged. */
  method TakeElement<P>(info: ListFilterInfo, entries: array<ListEntry>, element: Value<P>, verdict: Value<P>,
                        ghost rows: seq<seq<Judged<P>>>, ghost done: nat, ghost kept: seq<Value<P>>)
    requires Progress(info.State(), entries[..], rows, done, kept)
    requires done < |Flatten(rows)| && Flatten(rows)[done] == Judged(element, verdict)
    modifies info`length, info`offset, info`rowIdx, info`srcLength, entries
    ensures Progress(info.State(), entries[..], rows, done + 1, kept + KeptBy(Judged(element, verdict)))
  {
    CloseEmptyLists(info, entries, rows, done, kept);
    NextElement(info.State(), entries[..], rows, done, kept);
    JudgeElement(info, entries, element, verdict, rows, done, kept);
  }

  /** Consumes one batch of judged elements and appends what they leave to the result. */
  method AppendFiltered<P>(result: ListVector<P>, lambdaVector: seq<Value<P>>, batch: seq<Value<P>>,
                           info: ListFilterInfo, ghost rows: seq<seq<Judged<P>>>, ghost done: nat)
    requires Progress(info.State(), result.entries[..], rows, done, result.child)
    requires |batch| == |lambdaVector| && done + |batch| <= |Flatten(rows)|
    requires forall i :: 0 <= i < |batch| ==> Flatten(rows)[done + i] == Judged(batch[i], lambdaVector[i])
    modifies info`length, info`offset, info`rowIdx, info`srcLength, result`child, result.entries
    ensures Progress(info.State(), result.entries[..], rows, done + |batch|, result.child)
    ensures info.rowIdx == |rows| || |rows[info.rowIdx]| > 0
  {
    hide Progress, Flatten;
    var sel: seq<nat> := [];
    ghost var kept := result.child;
    var entries := result.entries;
    for i := 0 to |lambdaVector|
      invariant Progress(info.State(), entries[..], rows, done + i, kept)
      invariant forall j :: 0 <= j < |sel| ==> sel[j] < |batch|
      invariant kept == result.child + Sliced(batch, sel)
    {
      TakeElement(info, entries, batch[i], lambdaVector[i], rows, done + i, kept);
      kept := kept + KeptBy(Judged(batch[i], lambdaVector[i]));
      if Keeps(lambdaVector[i]) {
        assert Sliced(batch, sel + [i]) == Sliced(batch, sel) + [batch[i]];
        sel := sel + [i];
      }
    }
    CloseEmptyLists(info, entries, rows, done + |batch|, kept);
    result.child := result.child + Sliced(batch, sel);
  }

  /** A vector seen through a selection vector. */
  function Sliced<T>(v: seq<T>, sel: seq<nat>): (r: seq<T>)
    requires forall j :: 0 <= j < |sel| ==> sel[j] < |v|
  {
    seq(|sel|, j requires 0 <= j < |sel| => v[sel[j]])
  }

  /** The selection vectors of the batch being filled: child position, captured row, and list index. */
  class LambdaExecuteInfo {
    const sel: array<nat>
    const rowSel: array<nat>
    const indexVector: array<nat>

    constructor (batchSize: nat)
      ensures fresh(sel) && fresh(rowSel) && fresh(indexVector)
      ensures sel.Length == rowSel.Length == indexVector.Length == batchSize
      ensures Distinct()
    {
      sel := new nat[batchSize];
      rowSel := new nat[batchSize];
      indexVector := new nat[batchSize];
    }

    predicate Distinct() {
      sel != rowSel && sel != indexVector && rowSel != indexVector
    }
  }

  /** The lambda input in slot `i` of the batch. */
  ghost function BatchInput<P>(info: LambdaExecuteInfo, child: seq<Value<P>>, hasIndex: bool, i: nat): LambdaInput<P>
    requires i < info.sel.Length == info.rowSel.Length == info.indexVector.Length
    requires info.sel[i] < |child|
    reads info.sel, info.rowSel, info.indexVector
  {
    LambdaInput(if hasIndex then Some(info.indexVector[i]) else None, child[info.sel[i]], info.rowSel[i])
  }

  /** Slots [0..elemCnt) hold the judged elements done, done + 1, ... of the flattened lists. */
  ghost predicate Pending<P>(info: LambdaExecuteInfo, child: seq<Value<P>>, hasIndex: bool, lambda: Lambda<P>,
                             elemCnt: nat, flat: seq<Judged<P>>, done: nat)
    reads info.sel, info.rowSel, info.indexVector
  {
    && elemCnt <= info.sel.Length == info.rowSel.Length == info.indexVector.Length
    && done + elemCnt <= |flat|
    && forall i :: 0 <= i < elemCnt ==>
         && info.sel[i] < |child|
         && var input := BatchInput(info, child, hasIndex, i);
            flat[done + i] == Judged(input.element, lambda(input))
  }

  lemma PendingFits<P>(info: LambdaExecuteInfo, child: seq<Value<P>>, hasIndex: bool, lambda: Lambda<P>,
                       elemCnt: nat, flat: seq<Judged<P>>, done: nat)
    requires Pending(info, child, hasIndex, lambda, elemCnt, flat, done)
    ensures elemCnt <= info.sel.Length == info.rowSel.Length == info.indexVector.Length && done + elemCnt <= |flat|
  {
  }

  lemma NonePending<P>(info: LambdaExecuteInfo, child: seq<Value<P>>, hasIndex: bool, lambda: Lambda<P>,
                       flat: seq<Judged<P>>, done: nat)
    requires info.sel.Length == info.rowSel.Length == info.indexVector.Length && done <= |flat|
    ensures Pending(info, child, hasIndex, lambda, 0, flat, done)
  {
  }

  /** Runs the lambda on every slot of the batch. */
  method ExecuteExpression<P>(info: LambdaExecuteInfo, child: seq<Value<P>>, hasIndex: bool, lambda: Lambda<P>,
                              elemCnt: nat)
    returns (lambdaVector: seq<Value<P>>)
    requires elemCnt <= info.sel.Length == info.rowSel.Length == info.indexVector.Length
    requires forall i :: 0 <= i < elemCnt ==> info.sel[i] < |child|
    ensures |lambdaVector| == elemCnt
    ensures forall i :: 0 <= i < elemCnt ==> lambdaVector[i] == lambda(BatchInput(info, child, hasIndex, i))
  {
    lambdaVector := [];
    for i := 0 to elemCnt
      invariant |lambdaVector| == i
      invariant forall j :: 0 <= j < i ==> lambdaVector[j] == lambda(BatchInput(info, child, hasIndex, j))
    {
      var index := if hasIndex then Some(info.indexVector[i]) else None;
      lambdaVector := lambdaVector + [lambda(LambdaInput(index, child[info.sel[i]], info.rowSel[i]))];
    }
  }

  /** What holds between batches: `rows` are the lists seen so far, `done` of their elements are judged. */
  ghost predicate BetweenBatches<P>(functor: Functor, rows: seq<seq<Judged<P>>>, done: nat, input: seq<ListRow>,
                                    info: FilterState, offset: nat, entries: seq<ListEntry>, child: seq<Value<P>>)
    requires |rows| <= |input|
  {
    match functor
    case Filter => Progress(info, entries, rows, done, child)
    case Transform =>
      && |rows| <= |entries|
      && done <= |Flatten(rows)|
      && child == Verdicts(Flatten(rows)[..done])
      && var parts := Results(Transform, rows);
      && offset == |Flatten(parts)|
      && forall r :: 0 <= r < |rows| && input[r].Slice? ==> Tiled(parts, entries, r)
  }

  lemma {:induction false} TransformKeepsLength<P>(rows: seq<seq<Judged<P>>>)
    ensures Flatten(Results(Transform, rows)) == Verdicts(Flatten(rows))
  {
    if rows != [] {
      var k := |rows| - 1;
      assert rows[..k + 1] == rows;
      CloseList(Transform, rows, k);
      TransformKeepsLength(rows[..k]);
    }
  }

  /** A new list is announced to the filter by its length. */
  lemma PushFiltered<P>(info: FilterState, entries: seq<ListEntry>, rows: seq<seq<Judged<P>>>, row: seq<Judged<P>>,
                        done: nat, kept: seq<Value<P>>)
    requires Progress(info, entries, rows, done, kept) && |rows| < |entries|
    ensures Progress(info.(entryLengths := info.entryLengths + [|row|]), entries, rows + [row], done, kept)
  {
    assert (rows + [row])[..info.rowIdx] == rows[..info.rowIdx];
  }

  /** A new list is announced to the transform by writing its entry; NULL rows write none. */
  lemma PushTransformed<P>(rows: seq<seq<Judged<P>>>, row: seq<Judged<P>>, done: nat, input: seq<ListRow>,
                           info: FilterState, offset: nat, entries: seq<ListEntry>, entries': seq<ListEntry>,
                           child: seq<Value<P>>)
    requires |rows| < |input| == |entries| == |entries'|
    requires BetweenBatches(Transform, rows, done, input, info, offset, entries, child)
    requires input[|rows|].Slice? ==> entries' == entries[|rows| := ListEntry(offset, |row|)]
    requires input[|rows|].NullRow? ==> entries' == entries
    ensures BetweenBatches(Transform, rows + [row], done, input, info, offset + |row|, entries', child)
  {
    var rows', parts, part := rows + [row], Results(Transform, rows), RowResult(Transform, row);
    FlattenSnoc(rows, row);
    assert Flatten(rows')[..done] == Flatten(rows)[..done];
    assert Results(Transform, rows') == parts + [part];
    FlattenSnoc(parts, part);
    forall r | 0 <= r < |rows'| && input[r].Slice?
      ensures Tiled(parts + [part], entries', r)
    {
      assert (parts + [part])[..r] == parts[..r];
      if r < |rows| {
        assert Tiled(parts, entries, r);
      } else {
        assert parts[..r] == parts;
      }
    }
  }

  /** Runs the batch through the lambda and hands the verdicts to the functor. */
  method FlushBatch<P>(functor: Functor, result: ListVector<P>, exec: LambdaExecuteInfo, child: seq<Value<P>>,
                       hasIndex: bool, lambda: Lambda<P>, elemCnt: nat, info: ListFilterInfo,
                       ghost rows: seq<seq<Judged<P>>>, ghost done: nat, ghost input: seq<ListRow>, ghost offset: nat)
    requires |rows| <= |input|
    requires Pending(exec, child, hasIndex, lambda, elemCnt, Flatten(rows), done)
    requires BetweenBatches(functor, rows, done, input, info.State(), offset, result.entries[..], result.child)
    modifies info`length, info`offset, info`rowIdx, info`srcLength, result`child, result.entries
    ensures BetweenBatches(functor, rows, done + elemCnt, input, info.State(), offset, result.entries[..], result.child)
    ensures functor == Filter ==> info.rowIdx == |rows| || |rows[info.rowIdx]| > 0
  {
    var lambdaVector := ExecuteExpression(exec, child, hasIndex, lambda, elemCnt);
    match functor
    case Filter =>
      AppendFiltered(result, lambdaVector, Sliced(child, exec.sel[..elemCnt]), info, rows, done);
    case Transform =>
      assert Flatten(rows)[..done + elemCnt] == Flatten(rows)[..done] + Flatten(rows)[done..done + elemCnt];
      result.child := result.child + lambdaVector;
  }

  /** Announces row `r` to the functor: SetResultEntry, or PushEmptyList for a NULL row. */
  method BeginRow<P>(functor: Functor, row: ListRow, r: nat, result: ListVector<P>, info: ListFilterInfo, offset: nat,
                     ghost judged: seq<seq<Judged<P>>>, ghost done: nat, ghost input: seq<ListRow>)
    returns (offset': nat)
    requires r < |judged| == |input| == result.entries.Length && row == input[r]
    requires |judged[r]| == if row.NullRow? then 0 else row.length
    requires BetweenBatches(functor, judged[..r], done, input, info.State(), offset, result.entries[..], result.child)
    modifies info`entryLengths, result.entries
    ensures BetweenBatches(functor, judged[..r + 1], done, input, info.State(), offset', result.entries[..], result.child)
  {
    ghost var before := result.entries[..];
    assert judged[..r + 1] == judged[..r] + [judged[r]];
    offset' := offset;
    match functor {
      case Filter =>
        PushFiltered(info.State(), before, judged[..r], judged[r], done, result.child);
        info.entryLengths := info.entryLengths + [if row.NullRow? then 0 else row.length];
      case Transform =>
        if row.Slice? {
          result.entries[r] := ListEntry(offset, row.length);
          offset' := offset + row.length;
        }
        PushTransformed(judged[..r], judged[r], done, input, info.State(), offset, before, result.entries[..], result.child);
    }
  }

  /** Puts element `c` of row `r` into the next slot of the batch. */
  method FillSlot<P>(exec: LambdaExecuteInfo, child: seq<Value<P>>, hasIndex: bool, lambda: Lambda<P>,
                     row: ListRow, r: nat, c: nat, elemCnt: nat, ghost flat: seq<Judged<P>>, ghost done: nat)
    requires Pending(exec, child, hasIndex, lambda, elemCnt, flat, done)
    requires elemCnt < exec.sel.Length
    requires exec.Distinct()
    requires row.Slice? && row.offset + row.length <= |child| && c < row.length
    requires done + elemCnt < |flat| && flat[done + elemCnt] == JudgedRow(row, r, child, hasIndex, lambda)[c]
    modifies exec.sel, exec.rowSel, exec.indexVector
    ensures Pending(exec, child, hasIndex, lambda, elemCnt + 1, flat, done)
  {
    label before:
    exec.sel[elemCnt] := row.offset + c;
    exec.rowSel[elemCnt] := r;
    if hasIndex {
      exec.indexVector[elemCnt] := c + 1;
    }
    assert BatchInput(exec, child, hasIndex, elemCnt) == RowInput(row, r, child, hasIndex, c);
    forall i | 0 <= i < elemCnt
      ensures exec.sel[i] < |child|
      ensures BatchInput(exec, child, hasIndex, i) == old@before(BatchInput(exec, child, hasIndex, i))
    {
    }
  }

  /** Runs the batch if it is full; then there is room for one more element. */
  method ExecuteIfFull<P>(functor: Functor, child: seq<Value<P>>, hasIndex: bool, lambda: Lambda<P>,
                          result: ListVector<P>, exec: LambdaExecuteInfo, info: ListFilterInfo, elemCnt: nat,
                          ghost rows: seq<seq<Judged<P>>>, ghost done: nat, ghost input: seq<ListRow>, ghost offset: nat)
    returns (elemCnt': nat, ghost done': nat)
    requires |rows| <= |input| && exec.sel.Length > 0
    requires BetweenBatches(functor, rows, done, input, info.State(), offset, result.entries[..], result.child)
    requires Pending(exec, child, hasIndex, lambda, elemCnt, Flatten(rows), done)
    modifies info`length, info`offset, info`rowIdx, info`srcLength, result`child, result.entries
    ensures BetweenBatches(functor, rows, done', input, info.State(), offset, result.entries[..], result.child)
    ensures Pending(exec, child, hasIndex, lambda, elemCnt', Flatten(rows), done')
    ensures elemCnt' < exec.sel.Length && done' + elemCnt' == done + elemCnt
  {
    elemCnt', done' := elemCnt, done;
    PendingFits(exec, child, hasIndex, lambda, elemCnt, Flatten(rows), done);
    hide BetweenBatches, Pending, Flatten;
    if elemCnt == exec.sel.Length {
      FlushBatch(functor, result, exec, child, hasIndex, lambda, elemCnt, info, rows, done, input, offset);
      done' := done + elemCnt;
      elemCnt' := 0;
      NonePending(exec, child, hasIndex, lambda, Flatten(rows), done');
    }
  }

  /** Walks the elements of row `r`, running a batch whenever one is full. */
  method ExecuteRow<P>(functor: Functor, row: ListRow, r: nat, child: seq<Value<P>>, hasIndex: bool, lambda: Lambda<P>,
                       result: ListVector<P>, exec: LambdaExecuteInfo, info: ListFilterInfo, elemCnt: nat,
                       ghost rows: seq<seq<Judged<P>>>, ghost done: nat, ghost input: seq<ListRow>, ghost offset: nat)
    returns (elemCnt': nat, ghost done': nat)
    requires r < |rows| <= |input|
    requires exec.sel.Length > 0 && exec.Distinct()
    requires row.Slice? && row.offset + row.length <= |child|
    requires rows[r] == JudgedRow(row, r, child, hasIndex, lambda)
    requires Flatten(rows) == Flatten(rows[..r]) + rows[r]
    requires BetweenBatches(functor, rows, done, input, info.State(), offset, result.entries[..], result.child)
    requires Pending(exec, child, hasIndex, lambda, elemCnt, Flatten(rows), done)
    requires done + elemCnt == |Flatten(rows[..r])|
    modifies info`length, info`offset, info`rowIdx, info`srcLength, result`child, result.entries
    modifies exec.sel, exec.rowSel, exec.indexVector
    ensures BetweenBatches(functor, rows, done', input, info.State(), offset, result.entries[..], result.child)
    ensures Pending(exec, child, hasIndex, lambda, elemCnt', Flatten(rows), done')
    ensures done' + elemCnt' == |Flatten(rows)|
  {
    elemCnt', done' := elemCnt, done;
    ghost var flat, prior := Flatten(rows), |Flatten(rows[..r])|;
    RowLength(row, r, child, hasIndex, lambda);
    hide *;
    PendingFits(exec, child, hasIndex, lambda, elemCnt, flat, done);
    for c := 0 to row.length
      invariant BetweenBatches(functor, rows, done', input, info.State(), offset, result.entries[..], result.child)
      invariant Pending(exec, child, hasIndex, lambda, elemCnt', flat, done')
      invariant elemCnt' <= exec.sel.Length && done' + elemCnt' == prior + c
    {
      elemCnt', done' := ExecuteIfFull(functor, child, hasIndex, lambda, result, exec, info, elemCnt', rows, done', input,
                                       offset);
      FillSlot(exec, child, hasIndex, lambda, row, r, c, elemCnt', flat, done');
      elemCnt' := elemCnt' + 1;
    }
  }

  lemma RowFlattens<P>(judged: seq<seq<Judged<P>>>, r: nat)
    requires r < |judged|
    ensures Flatten(judged[..r + 1]) == Flatten(judged[..r]) + judged[r]
  {
    assert judged[..r + 1] == judged[..r] + [judged[r]];
    FlattenSnoc(judged[..r], judged[r]);
  }

  lemma RowLength<P>(row: ListRow, r: nat, child: seq<Value<P>>, hasIndex: bool, lambda: Lambda<P>)
    requires row.Slice? ==> row.offset + row.length <= |child|
    ensures |JudgedRow(row, r, child, hasIndex, lambda)| == if row.NullRow? then 0 else row.length
  {
  }

  /** One turn of the row loop. */
  method ProcessRow<P>(functor: Functor, row: ListRow, r: nat, child: seq<Value<P>>, hasIndex: bool, lambda: Lambda<P>,
                       result: ListVector<P>, exec: LambdaExecuteInfo, info: ListFilterInfo, elemCnt: nat, offset: nat,
                       ghost judged: seq<seq<Judged<P>>>, ghost done: nat, ghost input: seq<ListRow>)
    returns (elemCnt': nat, offset': nat, ghost done': nat)
    requires r < |judged| == |input| == result.entries.Length == result.valid.Length && row == input[r]
    requires exec.sel.Length > 0 && exec.Distinct()
    requires row.Slice? ==> row.offset + row.length <= |child|
    requires judged[r] == JudgedRow(row, r, child, hasIndex, lambda)
    requires BetweenBatches(functor, judged[..r], done, input, info.State(), offset, result.entries[..], result.child)
    requires Pending(exec, child, hasIndex, lambda, elemCnt, Flatten(judged[..r]), done)
    requires done + elemCnt == |Flatten(judged[..r])|
    modifies info, result`child, result.entries, result.valid, exec.sel, exec.rowSel, exec.indexVector
    ensures result.valid[..] == if row.NullRow? then old(result.valid[..])[r := false] else old(result.valid[..])
    ensures BetweenBatches(functor, judged[..r + 1], done', input, info.State(), offset', result.entries[..], result.child)
    ensures Pending(exec, child, hasIndex, lambda, elemCnt', Flatten(judged[..r + 1]), done')
    ensures done' + elemCnt' == |Flatten(judged[..r + 1])|
  {
    elemCnt', done' := elemCnt, done;
    RowFlattens(judged, r);
    RowLength(row, r, child, hasIndex, lambda);
    assert judged[..r + 1][..r] == judged[..r];
    hide BetweenBatches, Pending, JudgedRow;
    if row.NullRow? {
      result.valid[r] := false;
    }
    offset' := BeginRow(functor, row, r, result, info, offset, judged, done, input);
    if row.Slice? {
      elemCnt', done' := ExecuteRow(functor, row, r, child, hasIndex, lambda, result, exec, info, elemCnt,
                                    judged[..r + 1], done, input, offset');
    }
  }

  /** The whole result vector: the lists' results laid end to end, each announced by its row's entry.
      list_transform writes no entry for a NULL row. */
  ghost predicate Finished<T>(functor: Functor, rows: seq<ListRow>, parts: seq<seq<T>>, entries: seq<ListEntry>,
                              child: seq<T>)
    requires |rows| == |parts| == |entries|
  {
    && child == Flatten(parts)
    && forall r :: 0 <= r < |rows| && (functor == Filter || rows[r].Slice?) ==> Tiled(parts, entries, r)
  }

  /** Tiles laid for every part select exactly that part, follow one another without gaps, and cover the whole vector. */
  lemma TilesCover<T>(parts: seq<seq<T>>, entries: seq<ListEntry>, r: nat)
    requires |entries| == |parts| && r < |parts|
    requires Tiled(parts, entries, r)
    ensures entries[r].offset + entries[r].length <= |Flatten(parts)|
    ensures Flatten(parts)[entries[r].offset..entries[r].offset + entries[r].length] == parts[r]
    ensures r == 0 ==> entries[r].offset == 0
    ensures r + 1 < |parts| && Tiled(parts, entries, r + 1)
        ==> entries[r + 1].offset == entries[r].offset + entries[r].length
    ensures r + 1 == |parts| ==> entries[r].offset + entries[r].length == |Flatten(parts)|
  {
    assert parts[..r + 1] == parts[..r] + [parts[r]];
    FlattenSnoc(parts[..r], parts[r]);
    assert parts == parts[..r + 1] + parts[r + 1..];
    FlattenConcat(parts[..r + 1], parts[r + 1..]);
    assert Flatten(parts) == Flatten(parts[..r]) + parts[r] + Flatten(parts[r + 1..]);
  }

  /** What the caller reads off a finished result: a non-NULL row's entry selects the result of running the lambda on
      that row's list alone, whatever the batches were; the filter's entries follow one another without gaps. */
  lemma FinishedRow<P>(functor: Functor, rows: seq<ListRow>, child: seq<Value<P>>, hasIndex: bool, lambda: Lambda<P>,
                       entries: seq<ListEntry>, resultChild: seq<Value<P>>, r: nat)
    requires ValidRows(rows, child) && |entries| == |rows| && r < |rows|
    requires Finished(functor, rows, Results(functor, JudgedRows(rows, child, hasIndex, lambda)), entries, resultChild)
    ensures functor == Filter || rows[r].Slice? ==>
              && entries[r].offset + entries[r].length <= |resultChild|
              && resultChild[entries[r].offset..entries[r].offset + entries[r].length]
                 == RowResult(functor, JudgedRow(rows[r], r, child, hasIndex, lambda))
    ensures functor == Filter ==>
              && entries[0].offset == 0
              && entries[r].offset + entries[r].length == if r + 1 < |rows| then entries[r + 1].offset else |resultChild|
    ensures rows[r].NullRow? ==> RowResult(functor, JudgedRow(rows[r], r, child, hasIndex, lambda)) == []
    ensures functor == Transform && rows[r].Slice? ==> entries[r].length == rows[r].length
  {
    var parts := Results(functor, JudgedRows(rows, child, hasIndex, lambda));
    if functor == Filter || rows[r].Slice? {
      TilesCover(parts, entries, r);
    }
    if functor == Filter {
      assert Tiled(parts, entries, 0);
    }
  }

  lemma NothingSeen<P>(functor: Functor, input: seq<ListRow>, judged: seq<seq<Judged<P>>>, entries: seq<ListEntry>)
    requires |judged| == |input| == |entries|
    ensures BetweenBatches(functor, judged[..0], 0, input, FilterState([], 0, 0, 0, 0), 0, entries, [])
  {
  }

  /** The validity once the first `r` rows have been seen. */
  function Validity(rows: seq<ListRow>, r: nat): seq<bool> {
    seq(|rows|, q requires 0 <= q < |rows| => q < r ==> rows[q].Slice?)
  }

  lemma ValidityTurn(rows: seq<ListRow>, r: nat)
    requires r < |rows|
    ensures |Validity(rows, r)| == |rows|
    ensures Validity(rows, r + 1) == if rows[r].NullRow? then Validity(rows, r)[r := false] else Validity(rows, r)
  {
  }

  lemma ValidityIs(rows: seq<ListRow>)
    ensures |Validity(rows, |rows|)| == |rows|
    ensures forall q :: 0 <= q < |rows| ==> Validity(rows, |rows|)[q] == rows[q].Slice?
  {
  }

  /** The row loop, from the first row to the last. */
  method ProcessRows<P>(functor: Functor, rows: seq<ListRow>, child: seq<Value<P>>, hasIndex: bool, lambda: Lambda<P>,
                        result: ListVector<P>, exec: LambdaExecuteInfo, info: ListFilterInfo,
                        ghost judged: seq<seq<Judged<P>>>)
    returns (elemCnt: nat, ghost offset: nat, ghost done: nat)
    requires ValidRows(rows, child) && judged == JudgedRows(rows, child, hasIndex, lambda)
    requires exec.sel.Length > 0 && exec.Distinct() && exec.sel.Length == exec.rowSel.Length == exec.indexVector.Length
    requires |rows| == result.entries.Length == result.valid.Length
    requires forall q :: 0 <= q < |rows| ==> result.valid[..][q]
    requires info.State() == FilterState([], 0, 0, 0, 0) && result.child == []
    modifies info, result`child, result.entries, result.valid, exec.sel, exec.rowSel, exec.indexVector
    ensures forall q :: 0 <= q < |rows| ==> result.valid[..][q] == rows[q].Slice?
    ensures BetweenBatches(functor, judged, done, rows, info.State(), offset, result.entries[..], result.child)
    ensures Pending(exec, child, hasIndex, lambda, elemCnt, Flatten(judged), done)
    ensures done + elemCnt == |Flatten(judged)|
  {
    var next := 0;
    elemCnt, offset, done := 0, 0, 0;
    NonePending(exec, child, hasIndex, lambda, [], 0);
    assert judged[..0] == [];
    NothingSeen(functor, rows, judged, result.entries[..]);
    assert result.valid[..] == Validity(rows, 0);
    assert forall r :: 0 <= r < |rows| ==> judged[r] == JudgedRow(rows[r], r, child, hasIndex, lambda);
    hide Pending, JudgedRow, BetweenBatches, Flatten, JudgedRows, Validity;
    for r := 0 to |rows|
      invariant offset == next
      invariant result.valid[..] == Validity(rows, r)
      invariant BetweenBatches(functor, judged[..r], done, rows, info.State(), offset, result.entries[..], result.child)
      invariant Pending(exec, child, hasIndex, lambda, elemCnt, Flatten(judged[..r]), done)
      invariant done + elemCnt == |Flatten(judged[..r])|
    {
      elemCnt, next, done := ProcessRow(functor, rows[r], r, child, hasIndex, lambda, result, exec, info,
                                        elemCnt, next, judged, done, rows);
      offset := next;
      ValidityTurn(rows, r);
    }
    assert judged[..|rows|] == judged;
    ValidityIs(rows);
  }

  /** list_filter and list_transform on a column of lists, `batchSize` elements at a time. */
  method ExecuteLambda<P>(functor: Functor, rows: seq<ListRow>, child: seq<Value<P>>, hasIndex: bool,
                          lambda: Lambda<P>, batchSize: nat)
    returns (result: ListVector<P>)
    requires ValidRows(rows, child) && batchSize > 0
    ensures fresh(result) && result.entries.Length == result.valid.Length == |rows|
    ensures forall r :: 0 <= r < |rows| ==> result.valid[..][r] == rows[r].Slice?
    ensures Finished(functor, rows, Results(functor, JudgedRows(rows, child, hasIndex, lambda)),
                     result.entries[..], result.child)
  {
    result := new ListVector(|rows|);
    var info := new ListFilterInfo();
    var exec := new LambdaExecuteInfo(batchSize);
    ghost var judged := JudgedRows(rows, child, hasIndex, lambda);
    var elemCnt; ghost var offset, done;
    elemCnt, offset, done := ProcessRows(functor, rows, child, hasIndex, lambda, result, exec, info, judged);
    FlushBatch(functor, result, exec, child, hasIndex, lambda, elemCnt, info, judged, done, rows, offset);
    AllClosed(functor, judged, done + elemCnt, rows, info.State(), offset, result.entries[..], result.child);
  }

  /** Once every element is judged and the trailing empty lists are closed, all lists are. */
  lemma AllClosed<P>(functor: Functor, rows: seq<seq<Judged<P>>>, done: nat, input: seq<ListRow>,
                     info: FilterState, offset: nat, entries: seq<ListEntry>, child: seq<Value<P>>)
    requires |rows| == |input| == |entries| && done == |Flatten(rows)|
    requires BetweenBatches(functor, rows, done, input, info, offset, entries, child)
    requires functor == Filter ==> info.rowIdx == |rows| || |rows[info.rowIdx]| > 0
    ensures Finished(functor, input, Results(functor, rows), entries, child)
  {
    assert rows[..|rows|] == rows;
    match functor
    case Filter =>
      if info.rowIdx < |rows| {
        FlattenAt(rows, info.rowIdx, info.srcLength);
      }
    case Transform =>
      TransformKeepsLength(rows);
      assert Flatten(rows)[..done] == Flatten(rows);
  }
}
