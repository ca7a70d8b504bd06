/** The overload table: exporting it sorts the overloads of every function, parsing it groups them by function again. */
module ExtensionOverloadTable {
  import opened Sequences
  import opened LexicographicOrder
  import opened ExtensionTable
  import opened ExtensionEntries
  import opened ExtensionOverloads

  // ----- sorting -----

  /** Overloads are compared as the tuples they are. */
  function Tuple(o: Overload): seq<seq<string>> {
    [[o.extension], [o.name], [TypeValue(o.type_)], o.parameters, [o.returnType]]
  }

  predicate Leq(a: Overload, b: Overload) {
    TupleLeq(Tuple(a), Tuple(b))
  }

  predicate Sorted(os: seq<Overload>) {
    forall k :: 0 < k < |os| ==> Leq(os[k - 1], os[k])
  }

  function Insert(o: Overload, os: seq<Overload>): seq<Overload> {
    if os == [] then [o] else if Leq(o, os[0]) then [o] + os else [os[0]] + Insert(o, os[1..])
  }

  function Sort(os: seq<Overload>): seq<Overload> {
    if os == [] then [] else Insert(os[0], Sort(os[1..]))
  }

  lemma LeqIsOrder()
    ensures TotalOrder(Leq)
  {
    TuplesAreOrdered();
    forall a, b ensures Leq(a, b) || Leq(b, a) {
      assert TupleLeq(Tuple(a), Tuple(b)) || TupleLeq(Tuple(b), Tuple(a));
    }
    forall a, b | Leq(a, b) && Leq(b, a) ensures a == b {
      SameTuple(a, b);
    }
    forall a, b, c | Leq(a, b) && Leq(b, c) ensures Leq(a, c) {
      assert TupleLeq(Tuple(a), Tuple(c));
    }
  }

  lemma SameTuple(a: Overload, b: Overload)
    requires Tuple(a) == Tuple(b)
    ensures a == b
  {
    hide TypeValue;
    var s, t := Tuple(a), Tuple(b);
    assert s[0][0] == t[0][0] && s[1][0] == t[1][0] && s[2][0] == t[2][0] && s[3] == t[3] && s[4][0] == t[4][0];
    TypesDiffer(a.type_, b.type_);
  }

  lemma {:induction false} InsertSorts(o: Overload, os: seq<Overload>)
    requires Sorted(os)
    ensures Sorted(Insert(o, os)) && multiset(Insert(o, os)) == multiset(os) + multiset{o}
    ensures Insert(o, os)[0] == o || (os != [] && Insert(o, os)[0] == os[0])
    decreases |os|
  {
    LeqIsOrder();
    hide Leq, TotalOrder;
    if os != [] {
      assert os == [os[0]] + os[1..];
      assert Leq(o, os[0]) || Leq(os[0], o) by { Comparable(o, os[0]); }
      if !Leq(o, os[0]) {
        assert |os| > 1 ==> Leq(os[0], os[1]);
        TailSorted(os);
        InsertSorts(o, os[1..]);
        HeadFirst(os[0], Insert(o, os[1..]));
      } else {
        HeadFirst(o, os);
      }
    }
  }

  lemma Comparable(a: Overload, b: Overload)
    ensures Leq(a, b) || Leq(b, a)
  {
    LeqIsOrder();
  }

  lemma TailSorted(os: seq<Overload>)
    requires os != [] && Sorted(os)
    ensures Sorted(os[1..])
  {
    hide Leq;
    forall k | 0 < k < |os[1..]| ensures Leq(os[1..][k - 1], os[1..][k]) {
      assert Leq(os[k], os[k + 1]);
    }
  }

  lemma HeadFirst(o: Overload, os: seq<Overload>)
    requires Sorted(os) && (os != [] ==> Leq(o, os[0]))
    ensures Sorted([o] + os)
  {
    hide Leq;
    forall k | 0 < k < |[o] + os| ensures Leq(([o] + os)[k - 1], ([o] + os)[k]) {
      if k > 1 {
        assert Leq(os[k - 2], os[k - 1]);
      }
    }
  }

  lemma NothingSorted()
    ensures Sorted([])
  {
  }

  lemma {:induction false} SortSorts(os: seq<Overload>)
    ensures Sorted(Sort(os)) && multiset(Sort(os)) == multiset(os)
    decreases |os|
  {
    hide Sorted, Insert;
    NothingSorted();
    if os != [] {
      SortSorts(os[1..]);
      InsertSorts(os[0], Sort(os[1..]));
      assert os == [os[0]] + os[1..];
    }
  }

  lemma {:induction false} SortKeepsSorted(os: seq<Overload>)
    requires Sorted(os)
    ensures Sort(os) == os
    decreases |os|
  {
    hide Leq;
    if os != [] {
      assert |os| > 1 ==> Leq(os[0], os[1]);
      TailSorted(os);
      SortKeepsSorted(os[1..]);
      assert os == [os[0]] + os[1..];
    }
  }

  lemma SortSize(os: seq<Overload>)
    ensures |Sort(os)| == |os| && forall o :: o in Sort(os) <==> o in os
  {
    SortSorts(os);
    assert |multiset(Sort(os))| == |multiset(os)|;
    assert forall o :: o in Sort(os) <==> o in multiset(Sort(os));
  }

  // ----- the table of a map -----

  function FunctionOf(o: Overload): Function {
    Function(o.name, o.type_)
  }

  /** Every function has overloads, and they are its own. */
  predicate ValidOverloads(m: map<Function, seq<Overload>>) {
    forall f :: f in m ==> m[f] != [] && forall k :: 0 <= k < |m[f]| ==> FunctionOf(m[f][k]) == f
  }

  /** The overloads in the order in which they are exported; `keys` is the order of the functions. */
  function Exported(m: map<Function, seq<Overload>>, keys: seq<Function>): seq<Overload>
    requires forall k :: 0 <= k < |keys| ==> keys[k] in m
  {
    if keys == [] then [] else Exported(m, keys[..|keys| - 1]) + Sort(m[keys[|keys| - 1]])
  }

  /** The overloads of one function, in order. */
  function OverloadsOf(os: seq<Overload>, f: Function): seq<Overload> {
    if os == [] then [] else
    var last := os[|os| - 1];
    OverloadsOf(os[..|os| - 1], f) + if FunctionOf(last) == f then [last] else []
  }

  /** Parsed overloads, grouped by function. */
  function Grouped(os: seq<Overload>): map<Function, seq<Overload>> {
    if os == [] then map[] else Added(Grouped(os[..|os| - 1]), os[|os| - 1])
  }

  function Added(m: map<Function, seq<Overload>>, o: Overload): map<Function, seq<Overload>> {
    var f := FunctionOf(o);
    m[f := (if f in m then m[f] else []) + [o]]
  }

  method GroupOverloads(os: seq<Overload>) returns (output: map<Function, seq<Overload>>)
    ensures output == Grouped(os)
  {
    output := map[];
    for k := 0 to |os|
      invariant output == Grouped(os[..k])
    {
      var f := FunctionOf(os[k]);
      ghost var before := output;
      if f !in output {
        output := output[f := []];
      }
      output := output[f := output[f] + [os[k]]];
      assert output == Added(before, os[k]);
      assert os[..k + 1][..k] == os[..k];
    }
    assert os[..|os|] == os;
  }

  lemma {:induction false} GroupedAt(os: seq<Overload>, f: Function)
    ensures f in Grouped(os) <==> OverloadsOf(os, f) != []
    ensures f in Grouped(os) ==> Grouped(os)[f] == OverloadsOf(os, f)
    decreases |os|
  {
    if os != [] {
      GroupedAt(os[..|os| - 1], f);
    }
  }

  lemma {:induction false} OverloadsOfConcat(a: seq<Overload>, b: seq<Overload>, f: Function)
    ensures OverloadsOf(a + b, f) == OverloadsOf(a, f) + OverloadsOf(b, f)
    decreases |b|
  {
    if b == [] {
      assert a + b == a;
    } else {
      assert (a + b)[..|a + b| - 1] == a + b[..|b| - 1];
      OverloadsOfConcat(a, b[..|b| - 1], f);
    }
  }

  lemma {:induction false} AllOverloadsOf(os: seq<Overload>, f: Function)
    requires forall k :: 0 <= k < |os| ==> FunctionOf(os[k]) == f
    ensures OverloadsOf(os, f) == os
    decreases |os|
  {
    if os != [] {
      AllOverloadsOf(os[..|os| - 1], f);
      assert os == os[..|os| - 1] + [os[|os| - 1]];
    }
  }

  // ----- export, parse, group -----

  lemma {:induction false} ExportedAt(m: map<Function, seq<Overload>>, keys: seq<Function>, o: Overload)
    requires forall k :: 0 <= k < |keys| ==> keys[k] in m
    ensures o in Exported(m, keys) <==> exists k :: 0 <= k < |keys| && o in m[keys[k]]
    decreases |keys|
  {
    hide Sort;
    if keys != [] {
      var last := |keys| - 1;
      ExportedAt(m, keys[..last], o);
      SortSize(m[keys[last]]);
      assert forall k :: 0 <= k < last ==> keys[..last][k] == keys[k];
    }
  }

  lemma ReparsedConcat(a: seq<Overload>, b: seq<Overload>)
    ensures ReparsedAll(a + b) == ReparsedAll(a) + ReparsedAll(b)
  {
    hide Reparsed;
  }

  lemma ReparsedKeepsFunction(o: Overload)
    ensures FunctionOf(Reparsed(o)) == FunctionOf(o)
  {
  }

  /** The part of the exported table that belongs to one function. */
  lemma {:induction false} PartOf(m: map<Function, seq<Overload>>, keys: seq<Function>, f: Function)
    requires ValidOverloads(m) && forall k :: 0 <= k < |keys| ==> keys[k] in m
    requires forall j, k :: 0 <= j < k < |keys| ==> keys[j] != keys[k]
    ensures OverloadsOf(ReparsedAll(Exported(m, keys)), f) == if f in keys then ReparsedAll(Sort(m[f])) else []
    decreases |keys|
  {
    hide Reparsed, Sort;
    if keys == [] {
      assert ReparsedAll([]) == [];
    } else {
      var before, g := keys[..|keys| - 1], keys[|keys| - 1];
      PartOf(m, before, f);
      assert keys == before + [g];
      ReparsedConcat(Exported(m, before), Sort(m[g]));
      OverloadsOfConcat(ReparsedAll(Exported(m, before)), ReparsedAll(Sort(m[g])), f);
      SortedPartOf(m, g, f);
    }
  }

  lemma SortedPartOf(m: map<Function, seq<Overload>>, g: Function, f: Function)
    requires ValidOverloads(m) && g in m
    ensures OverloadsOf(ReparsedAll(Sort(m[g])), f) == if f == g then ReparsedAll(Sort(m[g])) else []
  {
    var os := ReparsedAll(Sort(m[g]));
    SortSize(m[g]);
    forall k | 0 <= k < |os| ensures FunctionOf(os[k]) == g {
      assert Sort(m[g])[k] in Sort(m[g]);
      ReparsedKeepsFunction(Sort(m[g])[k]);
    }
    hide Reparsed, Sort, ReparsedAll;
    if f == g {
      AllOverloadsOf(os, f);
    } else {
      NoOverloads(os, f);
    }
  }

  lemma {:induction false} NoOverloads(os: seq<Overload>, f: Function)
    requires forall k :: 0 <= k < |os| ==> FunctionOf(os[k]) != f
    ensures OverloadsOf(os, f) == []
    decreases |os|
  {
    if os != [] {
      NoOverloads(os[..|os| - 1], f);
    }
  }

  ghost predicate Enumeration(keys: seq<Function>, m: map<Function, seq<Overload>>) {
    && (forall f :: f in keys <==> f in m)
    && (forall j, k :: 0 <= j < k < |keys| ==> keys[j] != keys[k])
  }

  /** What a map becomes when it is exported and parsed. */
  function Again(m: map<Function, seq<Overload>>, keys: seq<Function>): map<Function, seq<Overload>>
    requires forall k :: 0 <= k < |keys| ==> keys[k] in m
  {
    Grouped(ReparsedAll(Exported(m, keys)))
  }

  lemma AgainAt(m: map<Function, seq<Overload>>, keys: seq<Function>, f: Function)
    requires ValidOverloads(m) && Enumeration(keys, m)
    ensures f in Again(m, keys) <==> f in m
    ensures f in m ==> Again(m, keys)[f] == ReparsedAll(Sort(m[f]))
  {
    hide Sort, ReparsedAll, Grouped, Exported;
    PartOf(m, keys, f);
    GroupedAt(ReparsedAll(Exported(m, keys)), f);
    if f in m {
      SortSize(m[f]);
      ReparsedSize(Sort(m[f]));
      assert m[f][0] in m[f];
    }
  }

  lemma ReparsedSize(os: seq<Overload>)
    ensures |ReparsedAll(os)| == |os|
  {
  }

  lemma {:induction false} ShowRecordsConcat(a: seq<seq<Field>>, b: seq<seq<Field>>)
    ensures ShowRecords(a + b) == ShowRecords(a) + ShowRecords(b)
    decreases |a|
  {
    hide ShowRecord;
    if a == [] {
      assert a + b == b;
    } else {
      assert (a + b)[1..] == a[1..] + b;
      ShowRecordsConcat(a[1..], b);
    }
  }

  function OverloadLine(o: Overload): string {
    "\t{" + ("\"" + o.name + "\"" + ", " + ("\"" + o.extension + "\"" + ", " + (TypeValue(o.type_) + ", "
      + ("\"" + ShowSignature(o.parameters, o.returnType) + "\"")))) + "},\n"
  }

  lemma OverloadLineIs(o: Overload)
    ensures ShowRecords([OverloadRecord(o)]) == OverloadLine(o)
  {
    hide TypeValue, ShowSignature;
    var fs := OverloadRecord(o);
    var last := [Quoted(ShowSignature(o.parameters, o.returnType))];
    var type_ := [Constant(TypeValue(o.type_))] + last;
    assert |[fs]| == 1 && ShowRecords([fs][1..]) == "" && fs[1..] == [Quoted(o.extension)] + type_;
    assert fs[1..][1..] == type_ && type_[1..] == last;
    assert ShowFields(last) == "\"" + ShowSignature(o.parameters, o.returnType) + "\"";
    assert ShowFields(type_) == TypeValue(o.type_) + ", " + ShowFields(last);
    assert ShowFields(fs[1..]) == "\"" + o.extension + "\"" + ", " + ShowFields(type_);
    assert ShowFields(fs) == "\"" + o.name + "\"" + ", " + ShowFields(fs[1..]);
    assert ShowRecord(fs) + "" == ShowRecord(fs);
  }

  lemma OneMoreLine(before: seq<Overload>, o: Overload)
    ensures ShowRecords(OverloadTable(before + [o])) == ShowRecords(OverloadTable(before)) + OverloadLine(o)
  {
    TableConcat(before, [o]);
    assert OverloadTable([o]) == [OverloadRecord(o)];
    ShowRecordsConcat(OverloadTable(before), [OverloadRecord(o)]);
    OverloadLineIs(o);
  }

  /** The overload table, function by function; `sorted` is the order of the functions. */
  method ExportFunctionOverloads(functionOverloads: map<Function, seq<Overload>>, sorted: seq<Function>)
    returns (result: string)
    requires forall k :: 0 <= k < |sorted| ==> sorted[k] in functionOverloads
    ensures result == ShowTable("EXTENSION_FUNCTION_OVERLOADS", OverloadTable(Exported(functionOverloads, sorted)))
  {
    hide OverloadTable, ShowRecords, OverloadLine, Sort;
    result := "EXTENSION_FUNCTION_OVERLOADS" + "[] = {\n";
    ghost var heading := result;
    NoLines();
    assert heading + "" == heading;
    for k := 0 to |sorted|
      invariant result == heading + ShowRecords(OverloadTable(Exported(functionOverloads, sorted[..k])))
    {
      var overloads := Sort(functionOverloads[sorted[k]]);
      ghost var before := Exported(functionOverloads, sorted[..k]);
      assert before + overloads[..0] == before;
      for j := 0 to |overloads|
        invariant result == heading + ShowRecords(OverloadTable(before + overloads[..j]))
      {
        var overload := overloads[j];
        result := result + OverloadLine(overload);
        OneMoreLine(before + overloads[..j], overload);
        assert before + overloads[..j] + [overload] == before + overloads[..j + 1];
      }
      assert overloads[..|overloads|] == overloads && sorted[..k + 1][..k] == sorted[..k];
    }
    assert sorted[..|sorted|] == sorted;
    result := result + "}; // ";
  }

  lemma NoLines()
    ensures ShowRecords(OverloadTable([])) == ""
  {
  }

  // ----- when a second export changes nothing -----

  predicate NoArrows(os: seq<Overload>) {
    forall k :: 0 <= k < |os| ==> !HasArrow(os[k].parameters, os[k].returnType)
  }

  lemma {:induction false} TablesAgree(m: map<Function, seq<Overload>>, n: map<Function, seq<Overload>>,
                                       keys: seq<Function>)
    requires forall k :: 0 <= k < |keys| ==> keys[k] in m && keys[k] in n && |m[keys[k]]| == |n[keys[k]]|
    ensures |Exported(m, keys)| == |Exported(n, keys)|
    ensures OverloadTable(Exported(n, keys)) == OverloadTable(Exported(m, keys))
       <==> forall k :: 0 <= k < |keys| ==> OverloadTable(Sort(n[keys[k]])) == OverloadTable(Sort(m[keys[k]]))
    decreases |keys|
  {
    hide Sort, OverloadTable;
    if keys != [] {
      var before, last := keys[..|keys| - 1], |keys| - 1;
      var f := keys[last];
      SortSize(m[f]);
      SortSize(n[f]);
      assert forall k :: 0 <= k < last ==> before[k] == keys[k];
      TablesAgree(m, n, before);
      TableConcat(Exported(m, before), Sort(m[f]));
      TableConcat(Exported(n, before), Sort(n[f]));
      TableSize(Exported(m, before));
      TableSize(Exported(n, before));
      SameParts(OverloadTable(Exported(m, before)), OverloadTable(Sort(m[f])),
                OverloadTable(Exported(n, before)), OverloadTable(Sort(n[f])));
    }
  }

  lemma SameParts<T>(a: seq<T>, b: seq<T>, c: seq<T>, d: seq<T>)
    requires |a| == |c|
    ensures a + b == c + d <==> a == c && b == d
  {
    assert (a + b)[..|a|] == a && (a + b)[|a|..] == b && (c + d)[..|c|] == c && (c + d)[|c|..] == d;
  }

  lemma TableConcat(a: seq<Overload>, b: seq<Overload>)
    ensures OverloadTable(a + b) == OverloadTable(a) + OverloadTable(b)
  {
    hide OverloadRecord;
  }

  lemma TableSize(os: seq<Overload>)
    ensures |OverloadTable(os)| == |os|
  {
  }

  lemma SameRecord(a: Overload, b: Overload)
    ensures OverloadRecord(a) == OverloadRecord(b) <==>
              a.name == b.name && a.extension == b.extension && a.type_ == b.type_
              && ShowSignature(a.parameters, a.returnType) == ShowSignature(b.parameters, b.returnType)
  {
    hide TypeValue, ShowSignature;
    TypesDiffer(a.type_, b.type_);
    if OverloadRecord(a) == OverloadRecord(b) {
      assert OverloadRecord(a)[0] == OverloadRecord(b)[0] && OverloadRecord(a)[1] == OverloadRecord(b)[1];
      assert OverloadRecord(a)[2] == OverloadRecord(b)[2] && OverloadRecord(a)[3] == OverloadRecord(b)[3];
    }
  }

  /** An overload that has been parsed is parsed as itself. */
  lemma ReparsedTwice(o: Overload)
    ensures !HasArrow(Reparsed(o).parameters, Reparsed(o).returnType)
    ensures Reparsed(Reparsed(o)) == Reparsed(o)
  {
    var p := Reparsed(o);
    SignatureFixpoint(o.parameters, o.returnType);
    ParsedHasNoArrow(ShowSignature(o.parameters, o.returnType));
    SignatureRoundTrip(p.parameters, p.returnType);
  }

  /** Overloads with equal records, one of which has been parsed. */
  lemma RecordOfParsed(o: Overload, p: Overload)
    requires OverloadRecord(Reparsed(p)) == OverloadRecord(o)
    ensures !HasArrow(o.parameters, o.returnType) && Reparsed(o) == Reparsed(p)
  {
    hide OverloadRecord, HasArrow, ShowSignature, ParseSignature;
    var q := Reparsed(p);
    SameRecord(q, o);
    ReparsedTwice(p);
    ArrowsCounted(q.parameters, q.returnType);
    ArrowsCounted(o.parameters, o.returnType);
  }

  lemma ReparsedRecord(o: Overload)
    requires !HasArrow(o.parameters, o.returnType)
    ensures OverloadRecord(Reparsed(o)) == OverloadRecord(o)
  {
    SignatureFixpoint(o.parameters, o.returnType);
    hide HasArrow, ShowSignature, ParseSignature, OverloadRecord;
    SameRecord(Reparsed(o), o);
  }

  /** The overloads of one function are exported again as they were exactly if no type has an arrow, and parsing does
      not change their order. */
  lemma FixpointOf(os: seq<Overload>)
    ensures OverloadTable(Sort(ReparsedAll(os))) == OverloadTable(os) <==> NoArrows(os) && Sorted(ReparsedAll(os))
  {
    var again := ReparsedAll(os);
    var sorted := Sort(again);
    SortSize(again);
    hide Sort, Reparsed, HasArrow, OverloadRecord, Leq;
    if NoArrows(os) && Sorted(again) {
      SortKeepsSorted(again);
      forall k | 0 <= k < |os| ensures OverloadRecord(again[k]) == OverloadRecord(os[k]) {
        ReparsedRecord(os[k]);
      }
    }
    if OverloadTable(sorted) == OverloadTable(os) {
      forall k | 0 <= k < |os|
        ensures !HasArrow(os[k].parameters, os[k].returnType) && sorted[k] == again[k]
      {
        assert OverloadTable(sorted)[k] == OverloadTable(os)[k];
        assert sorted[k] in again;
        var j :| 0 <= j < |again| && again[j] == sorted[k];
        RecordOfParsed(os[k], os[j]);
      }
      assert sorted == again;
      SortSorts(again);
    }
  }

  /** For every map of overloads that can be written: exporting it, parsing the table and exporting what was parsed
      gives the same records, and so the same text, exactly if no type in any signature is written with an arrow, and
      parsing, which splits parameters at commas, leaves the overloads of every function sorted. */
  lemma OverloadTableFixpoint(m: map<Function, seq<Overload>>, keys: seq<Function>)
    requires ValidOverloads(m) && Enumeration(keys, m) && m != map[]
    requires forall f, k :: f in m && 0 <= k < |m[f]| ==> PlainOverload(m[f][k])
    ensures var table := OverloadTable(Exported(m, keys));
            var parsed := CreateOverloads(Read(START, ShowTable("EXTENSION_FUNCTION_OVERLOADS", table)).records);
            && parsed.Some? && Enumeration(keys, Grouped(parsed.value))
            && (OverloadTable(Exported(Grouped(parsed.value), keys)) == table <==>
                  forall f :: f in m ==> NoArrows(m[f]) && Sorted(ReparsedAll(Sort(m[f]))))
  {
    var os, again := Exported(m, keys), Again(m, keys);
    ExportedIsPlain(m, keys);
    hide *;
    OverloadTableRead(os);
    AgainIs(m, keys);
    AgainEnumerates(m, keys);
    assert forall k :: 0 <= k < |keys| ==> keys[k] in m && keys[k] in again && |m[keys[k]]| == |again[keys[k]]| by {
      SameSizes(m, keys);
    }
    forall f | f in m
      ensures f in again
      ensures OverloadTable(Sort(again[f])) == OverloadTable(Sort(m[f]))
         <==> NoArrows(m[f]) && Sorted(ReparsedAll(Sort(m[f])))
    {
      AgainAt(m, keys, f);
      FixpointOf(Sort(m[f]));
      SameArrows(m[f]);
    }
    TablesAgree(m, again, keys);
    EachKeyOnce(m, keys);
  }

  lemma AgainIs(m: map<Function, seq<Overload>>, keys: seq<Function>)
    requires forall k :: 0 <= k < |keys| ==> keys[k] in m
    ensures Again(m, keys) == Grouped(ReparsedAll(Exported(m, keys)))
  {
  }

  lemma AgainEnumerates(m: map<Function, seq<Overload>>, keys: seq<Function>)
    requires ValidOverloads(m) && Enumeration(keys, m)
    ensures Enumeration(keys, Again(m, keys)) && forall k :: 0 <= k < |keys| ==> keys[k] in m
  {
    assert forall k :: 0 <= k < |keys| ==> keys[k] in keys;
    hide Again;
    forall f ensures f in Again(m, keys) <==> f in m {
      AgainAt(m, keys, f);
    }
  }

  lemma SameSizes(m: map<Function, seq<Overload>>, keys: seq<Function>)
    requires ValidOverloads(m) && Enumeration(keys, m)
    ensures forall k :: 0 <= k < |keys| ==>
              keys[k] in m && keys[k] in Again(m, keys) && |m[keys[k]]| == |Again(m, keys)[keys[k]]|
  {
    hide Again, Sort, ReparsedAll;
    forall k | 0 <= k < |keys|
      ensures keys[k] in m && keys[k] in Again(m, keys) && |m[keys[k]]| == |Again(m, keys)[keys[k]]|
    {
      assert keys[k] in keys;
      AgainAt(m, keys, keys[k]);
      SortSize(m[keys[k]]);
      ReparsedSize(Sort(m[keys[k]]));
    }
  }

  lemma EachKeyOnce(m: map<Function, seq<Overload>>, keys: seq<Function>)
    requires Enumeration(keys, m)
    ensures forall f :: f in m ==> exists k :: 0 <= k < |keys| && keys[k] == f
    ensures forall k :: 0 <= k < |keys| ==> keys[k] in m
  {
    assert forall k :: 0 <= k < |keys| ==> keys[k] in keys;
    assert forall f :: f in m ==> f in keys;
  }

  lemma SameArrows(os: seq<Overload>)
    ensures NoArrows(Sort(os)) <==> NoArrows(os)
  {
    SortSize(os);
    hide Sort, HasArrow;
    if NoArrows(os) {
      forall k | 0 <= k < |Sort(os)| ensures !HasArrow(Sort(os)[k].parameters, Sort(os)[k].returnType) {
        assert Sort(os)[k] in os;
      }
    }
    if NoArrows(Sort(os)) {
      forall k | 0 <= k < |os| ensures !HasArrow(os[k].parameters, os[k].returnType) {
        assert os[k] in Sort(os);
      }
    }
  }

  lemma ExportedIsPlain(m: map<Function, seq<Overload>>, keys: seq<Function>)
    requires ValidOverloads(m) && Enumeration(keys, m) && m != map[]
    requires forall f, k :: f in m && 0 <= k < |m[f]| ==> PlainOverload(m[f][k])
    ensures Exported(m, keys) != [] && forall k :: 0 <= k < |Exported(m, keys)| ==> PlainOverload(Exported(m, keys)[k])
  {
    hide PlainOverload, Exported;
    var os := Exported(m, keys);
    forall k | 0 <= k < |os| ensures PlainOverload(os[k]) {
      ExportedAt(m, keys, os[k]);
    }
    var f :| f in m;
    assert f in keys;
    var o := m[f][0];
    assert o in m[f];
    ExportedAt(m, keys, o);
  }

  // ----- when parsing keeps the order -----

  lemma LexTurn<T>(leq: (T, T) -> bool, x: T, s: seq<T>, y: T, t: seq<T>)
    ensures Lex(leq, [x] + s, [y] + t) <==> if x == y then Lex(leq, s, t) else leq(x, y)
  {
    assert ([x] + s)[1..] == s && ([y] + t)[1..] == t;
  }

  /** The first component that differs decides; the overloads of one function differ in extension, parameters or
      return type. */
  lemma LeqTurn(a: Overload, b: Overload)
    requires FunctionOf(a) == FunctionOf(b)
    ensures Leq(a, b) <==> if a.extension != b.extension then TextsLeq([a.extension], [b.extension])
                           else if a.parameters != b.parameters then TextsLeq(a.parameters, b.parameters)
                           else TextsLeq([a.returnType], [b.returnType])
  {
    hide TypeValue, TextsLeq, Lex;
    var s, t := [a.parameters, [a.returnType]], [b.parameters, [b.returnType]];
    var name, type_ := [a.name], [TypeValue(a.type_)];
    assert Tuple(a) == [[a.extension]] + ([name] + ([type_] + s));
    assert Tuple(b) == [[b.extension]] + ([name] + ([type_] + t));
    assert a.extension == b.extension <==> [a.extension] == [b.extension] by {
      assert [a.extension][0] == a.extension && [b.extension][0] == b.extension;
    }
    LexTurn(TextsLeq, [a.extension], [name] + ([type_] + s), [b.extension], [name] + ([type_] + t));
    LexTurn(TextsLeq, name, [type_] + s, name, [type_] + t);
    LexTurn(TextsLeq, type_, s, type_, t);
    assert s == [a.parameters] + [[a.returnType]] && t == [b.parameters] + [[b.returnType]];
    LexTurn(TextsLeq, a.parameters, [[a.returnType]], b.parameters, [[b.returnType]]);
    LastTurn([a.returnType], [b.returnType]);
  }

  lemma LastTurn(a: seq<string>, b: seq<string>)
    ensures Lex(TextsLeq, [a], [b]) <==> TextsLeq(a, b)
  {
    assert [a][1..] == [] && [b][1..] == [];
    if a == b {
      LexReflexive(TextLeq, a);
    }
  }

  /** Parameters that are split as they were joined, or none. */
  predicate Unsplit(o: Overload) {
    && !HasArrow(o.parameters, o.returnType)
    && forall k :: 0 <= k < |o.parameters| ==> ',' !in o.parameters[k] && o.parameters[k] != ""
  }

  lemma UnsplitIs(o: Overload)
    requires Unsplit(o)
    ensures Reparsed(o) == if o.parameters == [] then o.(parameters := [""]) else o
  {
    hide HasArrow;
    if o.parameters == [] {
      ParseShown(o.parameters, o.returnType);
    } else {
      SignatureRoundTrip(o.parameters, o.returnType);
    }
  }

  /** Without commas in parameters, parsing keeps the order. */
  lemma UnsplitKeepsOrder(a: Overload, b: Overload)
    requires FunctionOf(a) == FunctionOf(b) && Unsplit(a) && Unsplit(b) && Leq(a, b)
    ensures Leq(Reparsed(a), Reparsed(b))
  {
    var x, y := Reparsed(a), Reparsed(b);
    UnsplitIs(a);
    UnsplitIs(b);
    LeqTurn(a, b);
    hide Leq, Reparsed, HasArrow;
    LeqTurn(x, y);
    if a.extension == b.extension && a.parameters == [] && b.parameters != [] {
      assert x.parameters[0] != y.parameters[0];
    }
  }

  lemma UnsplitStaysSorted(os: seq<Overload>)
    requires Sorted(os) && forall k :: 0 <= k < |os| ==> Unsplit(os[k]) && FunctionOf(os[k]) == FunctionOf(os[0])
    ensures Sorted(ReparsedAll(os))
  {
    hide Leq, Unsplit, Reparsed;
    forall k | 0 < k < |os| ensures Leq(Reparsed(os[k - 1]), Reparsed(os[k])) {
      UnsplitKeepsOrder(os[k - 1], os[k]);
    }
  }

  /** So a table without commas and arrows in its types is a fixpoint. */
  lemma FixpointWithoutCommas(m: map<Function, seq<Overload>>, keys: seq<Function>)
    requires ValidOverloads(m) && Enumeration(keys, m) && m != map[]
    requires forall f, k :: f in m && 0 <= k < |m[f]| ==> PlainOverload(m[f][k]) && Unsplit(m[f][k])
    ensures var table := OverloadTable(Exported(m, keys));
            var parsed := CreateOverloads(Read(START, ShowTable("EXTENSION_FUNCTION_OVERLOADS", table)).records);
            && parsed.Some? && Enumeration(keys, Grouped(parsed.value))
            && OverloadTable(Exported(Grouped(parsed.value), keys)) == table
  {
    hide Read, ShowTable, OverloadTable, PlainOverload, ReparsedAll, Exported, Sort, Sorted, HasArrow;
    forall f | f in m ensures NoArrows(m[f]) && Sorted(ReparsedAll(Sort(m[f]))) {
      SortSorts(m[f]);
      SortSize(m[f]);
      var os := Sort(m[f]);
      forall k | 0 <= k < |os| ensures Unsplit(os[k]) && FunctionOf(os[k]) == f {
        assert os[k] in os;
      }
      UnsplitStaysSorted(os);
    }
    OverloadTableFixpoint(m, keys);
  }

  // ----- a comma that changes the order -----

  const SHORT: string := "DECIMAL(4)"
  const LONG: string := "DECIMAL(4,2)"
  const CUT: string := "DECIMAL(4"

  function WithParameters(parameters: seq<string>): Overload {
    Overload("core", "f", SCALAR, parameters, "INT")
  }

  lemma TextOrders()
    ensures TextLeq(SHORT, LONG) && !TextLeq(SHORT, CUT) && SHORT != LONG && SHORT != CUT
  {
    assert SHORT == CUT + ")" && LONG == CUT + ",2)" && CUT == CUT + "";
    LexAt(CharLeq, CUT, ")", ",2)");
    LexAt(CharLeq, CUT, ")", "");
  }

  lemma OrderOf(p: seq<string>, q: seq<string>)
    requires p != [] && q != [] && p[0] != q[0]
    ensures Leq(WithParameters(p), WithParameters(q)) <==> TextLeq(p[0], q[0])
  {
    LeqTurn(WithParameters(p), WithParameters(q));
  }

  lemma OneIsKept(p: string)
    requires ',' !in p && '>' !in p
    ensures Reparsed(WithParameters([p])) == WithParameters([p]) && !HasArrow([p], "INT")
  {
    UnsplitOne(p);
    hide Reparsed, HasArrow;
    SignatureRoundTrip([p], "INT");
    ReparsedIs(WithParameters([p]), [p], "INT");
  }

  lemma UnsplitOne(p: string)
    requires '>' !in p
    ensures !HasArrow([p], "INT")
  {
  }

  lemma ReparsedIs(o: Overload, parameters: seq<string>, returnType: string)
    requires ParseSignature(ShowSignature(o.parameters, o.returnType)) == Some((parameters, returnType))
    ensures Reparsed(o) == o.(parameters := parameters, returnType := returnType)
  {
  }

  lemma OneIsSplit(p: string, q: string, whole: string)
    requires whole == p + [','] + q && ',' !in p && ',' !in q && '>' !in whole
    ensures Reparsed(WithParameters([whole])) == WithParameters([p, q]) && !HasArrow([whole], "INT")
  {
    UnsplitOne(whole);
    hide Reparsed, HasArrow, ShowSignature, ParseSignature, Split;
    ParseShown([whole], "INT");
    SplitNone(q, ',');
    SplitAt(p, q, ',');
    assert [p] + [q] == [p, q];
    ReparsedIs(WithParameters([whole]), [p, q], "INT");
  }

  lemma NoCommasInside()
    ensures ',' !in SHORT && ',' !in CUT && ',' !in "2)" && '>' !in SHORT && '>' !in LONG && LONG == CUT + [','] + "2)"
  {
  }

  /** A closing bracket comes before a comma, and the end of a text before both: what is sorted before the table is
      written is not when it has been parsed. */
  lemma CommaReorders()
    ensures var os := [WithParameters([SHORT]), WithParameters([LONG])];
            NoArrows(os) && Sort(os) == os && !Sorted(ReparsedAll(os))
  {
    TextOrders();
    NoCommasInside();
    hide Leq, HasArrow, Reparsed, Lex, TextLeq, SHORT, LONG, CUT;
    OneIsKept(SHORT);
    OneIsSplit(CUT, "2)", LONG);
    OrderOf([SHORT], [LONG]);
    OrderOf([SHORT], [CUT, "2)"]);
    var os := [WithParameters([SHORT]), WithParameters([LONG])];
    SortKeepsSorted(os);
    assert ReparsedAll(os)[0] == Reparsed(os[0]) && ReparsedAll(os)[1] == Reparsed(os[1]);
  }

  lemma {:induction false} LexAt<T>(leq: (T, T) -> bool, s: seq<T>, a: seq<T>, b: seq<T>)
    ensures Lex(leq, s + a, s + b) <==> Lex(leq, a, b)
    decreases |s|
  {
    if s == [] {
      assert s + a == a && s + b == b;
    } else {
      assert (s + a)[1..] == s[1..] + a && (s + b)[1..] == s[1..] + b;
      LexAt(leq, s[1..], a, b);
    }
  }
}
