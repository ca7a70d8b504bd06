/** The entries of the tables: functions with the extension that has them, and overloads with their signatures. */
module ExtensionEntries {
  import opened Sequences
  import opened ExtensionTable

  datatype CatalogType = SCALAR | TABLE | AGGREGATE | PRAGMA | MACRO | TABLE_MACRO

  const PREFIX: string := "CatalogType::"
  const FUNCTION_ENTRY: string := "_FUNCTION_ENTRY"

  function Word(t: CatalogType): string {
    match t
    case SCALAR => "SCALAR"
    case TABLE => "TABLE"
    case AGGREGATE => "AGGREGATE"
    case PRAGMA => "PRAGMA"
    case MACRO => "MACRO_ENTRY"
    case TABLE_MACRO => "TABLE_MACRO_ENTRY"
  }

  function TypeValue(t: CatalogType): string {
    PREFIX + Word(t) + if t == MACRO || t == TABLE_MACRO then "" else FUNCTION_ENTRY
  }

  function CatalogTypeFromType(s: string): (r: Option<CatalogType>)
    ensures r.Some? ==> TypeValue(r.value) == s
  {
    if s == TypeValue(SCALAR) then Some(SCALAR)
    else if s == TypeValue(TABLE) then Some(TABLE)
    else if s == TypeValue(AGGREGATE) then Some(AGGREGATE)
    else if s == TypeValue(PRAGMA) then Some(PRAGMA)
    else if s == TypeValue(MACRO) then Some(MACRO)
    else if s == TypeValue(TABLE_MACRO) then Some(TABLE_MACRO)
    else None
  }

  lemma TypesDiffer(t: CatalogType, u: CatalogType)
    ensures TypeValue(t) == TypeValue(u) ==> t == u
  {
    if TypeValue(t) == TypeValue(u) {
      assert TypeValue(t)[13] == TypeValue(u)[13] && |TypeValue(t)| == |TypeValue(u)|;
    }
  }

  lemma TypeFromValue(t: CatalogType)
    ensures CatalogTypeFromType(TypeValue(t)) == Some(t)
  {
    forall u ensures TypeValue(t) == TypeValue(u) ==> t == u {
      TypesDiffer(t, u);
    }
    hide TypeValue;
  }

  lemma WordIsConstant(t: CatalogType)
    ensures ConstantName(Word(t))
  {
  }

  lemma PrefixIsConstant()
    ensures ConstantName(PREFIX) && PREFIX != ""
  {
  }

  lemma EntryIsConstant()
    ensures ConstantName(FUNCTION_ENTRY)
  {
  }

  lemma TypesAreConstants(t: CatalogType)
    ensures ConstantName(TypeValue(t)) && TypeValue(t) != ""
  {
    WordIsConstant(t);
    PrefixIsConstant();
    EntryIsConstant();
    hide Word;
    var s, end := TypeValue(t), if t == MACRO || t == TABLE_MACRO then "" else FUNCTION_ENTRY;
    forall c | c in s ensures c in PREFIX || c in Word(t) || c in end {
    }
    assert |s| >= |PREFIX|;
  }

  lemma ConstantIsPlain(s: string)
    requires ConstantName(s) && s != ""
    ensures Plain(s)
  {
    assert s[0] in s && s[|s| - 1] in s;
  }

  // ----- the function table -----

  datatype Function = Function(name: string, type_: CatalogType)

  datatype ExtensionFunction = ExtensionFunction(extension: string, name: string, type_: CatalogType)

  function FunctionRecord(f: ExtensionFunction): seq<Field> {
    [Quoted(f.name), Quoted(f.extension), Constant(TypeValue(f.type_))]
  }

  /** The functions of a map in the order in which they are exported. */
  function Listed(m: map<Function, ExtensionFunction>, keys: seq<Function>): seq<seq<Field>>
    requires forall k :: 0 <= k < |keys| ==> keys[k] in m
  {
    seq(|keys|, k requires 0 <= k < |keys| => FunctionRecord(m[keys[k]]))
  }

  /** The function table, record by record; `sorted` is the order of the functions. */
  method ExportFunctions(functionMap: map<Function, ExtensionFunction>, sorted: seq<Function>) returns (result: string)
    requires forall k :: 0 <= k < |sorted| ==> sorted[k] in functionMap
    ensures result == ShowTable("EXTENSION_FUNCTIONS", Listed(functionMap, sorted))
  {
    result := "EXTENSION_FUNCTIONS" + "[] = {\n";
    ghost var heading, records := result, Listed(functionMap, sorted);
    var k := 0;
    while k < |sorted|
      invariant 0 <= k <= |sorted|
      invariant heading + ShowRecords(records) == result + ShowRecords(records[k..])
    {
      var function_ := functionMap[sorted[k]];
      var line := "\t{" + ("\"" + function_.name + "\"" + ", " + ("\"" + function_.extension + "\""
                  + ", " + TypeValue(function_.type_))) + "},\n";
      assert records[k..][0] == FunctionRecord(function_) && records[k..][1..] == records[k + 1..];
      FunctionLine(function_);
      assert line == ShowRecord(FunctionRecord(function_));
      assert result + (line + ShowRecords(records[k + 1..])) == result + line + ShowRecords(records[k + 1..]);
      result := result + line;
      k := k + 1;
    }
    assert records[k..] == [] && result + "" == result;
    result := result + "}; // ";
  }

  lemma FunctionLine(f: ExtensionFunction)
    ensures ShowRecord(FunctionRecord(f)) ==
              "\t{" + ("\"" + f.name + "\"" + ", " + ("\"" + f.extension + "\"" + ", " + TypeValue(f.type_))) + "},\n"
  {
    var fs := FunctionRecord(f);
    var last := [Constant(TypeValue(f.type_))];
    hide TypeValue;
    assert fs[1..] == [Quoted(f.extension)] + last && fs[1..][1..] == last;
    assert ShowFields(last) == TypeValue(f.type_);
    assert ShowFields(fs[1..]) == "\"" + f.extension + "\"" + ", " + ShowFields(last);
    assert ShowFields(fs) == "\"" + f.name + "\"" + ", " + ShowFields(fs[1..]);
  }

  /** The map of parsed records; nothing if a record is too short or names no type. */
  function CreateMap(records: seq<seq<string>>): Option<map<Function, ExtensionFunction>> {
    if records == [] then Some(map[]) else
    var before, x := CreateMap(records[..|records| - 1]), records[|records| - 1];
    if before.None? || |x| < 3 || CatalogTypeFromType(x[2]).None? then None else
    var key := Function(x[0], CatalogTypeFromType(x[2]).value);
    Some(before.value[key := ExtensionFunction(x[1], key.name, key.type_)])
  }

  method CreateFunctionMap(records: seq<seq<string>>) returns (output: Option<map<Function, ExtensionFunction>>)
    ensures output == CreateMap(records)
  {
    var m: map<Function, ExtensionFunction> := map[];
    var k := 0;
    while k < |records|
      invariant 0 <= k <= |records| && CreateMap(records[..k]) == Some(m)
    {
      var x := records[k];
      assert records[..k + 1][..k] == records[..k];
      if |x| < 3 || CatalogTypeFromType(x[2]).None? {
        StaysNone(records, k + 1);
        return None;
      }
      var key := Function(x[0], CatalogTypeFromType(x[2]).value);
      m := m[key := ExtensionFunction(x[1], key.name, key.type_)];
      k := k + 1;
    }
    assert records[..k] == records;
    output := Some(m);
  }

  lemma {:induction false} StaysNone(records: seq<seq<string>>, k: nat)
    requires k <= |records| && CreateMap(records[..k]).None?
    ensures CreateMap(records).None?
    decreases |records|
  {
    if k == |records| {
      assert records[..k] == records;
    } else {
      assert records[..|records| - 1][..k] == records[..k];
      StaysNone(records[..|records| - 1], k);
    }
  }

  /** A function map whose entries have the names and types of their keys. */
  predicate ValidMap(m: map<Function, ExtensionFunction>) {
    forall f :: f in m ==> m[f].name == f.name && m[f].type_ == f.type_
  }

  /** An order in which every function of the map occurs once. */
  ghost predicate Enumerates(keys: seq<Function>, m: map<Function, ExtensionFunction>) {
    && (forall f :: f in keys <==> f in m)
    && (forall j, k :: 0 <= j < k < |keys| ==> keys[j] != keys[k])
  }

  function MapOf(m: map<Function, ExtensionFunction>, keys: seq<Function>): map<Function, ExtensionFunction>
    requires forall k :: 0 <= k < |keys| ==> keys[k] in m
  {
    if keys == [] then map[] else MapOf(m, keys[..|keys| - 1])[keys[|keys| - 1] := m[keys[|keys| - 1]]]
  }

  lemma {:induction false} MapOfAt(m: map<Function, ExtensionFunction>, keys: seq<Function>, f: Function)
    requires forall k :: 0 <= k < |keys| ==> keys[k] in m
    ensures f in MapOf(m, keys) <==> f in keys
    ensures f in keys ==> f in m && MapOf(m, keys)[f] == m[f]
    decreases |keys|
  {
    if keys != [] {
      assert keys == keys[..|keys| - 1] + [keys[|keys| - 1]];
      MapOfAt(m, keys[..|keys| - 1], f);
    }
  }

  lemma {:induction false} MapOfRecords(m: map<Function, ExtensionFunction>, keys: seq<Function>)
    requires ValidMap(m) && forall k :: 0 <= k < |keys| ==> keys[k] in m
    ensures CreateMap(AllTexts(Listed(m, keys))) == Some(MapOf(m, keys))
    decreases |keys|
  {
    hide *;
    if keys == [] {
      MapOfNone(m);
    } else {
      var before, f := keys[..|keys| - 1], keys[|keys| - 1];
      MapOfRecords(m, before);
      assert before + [f] == keys;
      MapOfOneMore(m, before, f);
    }
  }

  lemma MapOfNone(m: map<Function, ExtensionFunction>)
    ensures CreateMap(AllTexts(Listed(m, []))) == Some(MapOf(m, []))
  {
    assert AllTexts(Listed(m, [])) == [];
  }

  lemma MapOfOneMore(m: map<Function, ExtensionFunction>, before: seq<Function>, f: Function)
    requires ValidMap(m) && f in m && forall k :: 0 <= k < |before| ==> before[k] in m
    requires CreateMap(AllTexts(Listed(m, before))) == Some(MapOf(m, before))
    ensures CreateMap(AllTexts(Listed(m, before + [f]))) == Some(MapOf(m, before + [f]))
  {
    var record := FunctionRecord(m[f]);
    assert m[f].name == f.name && m[f].type_ == f.type_;
    assert MapOf(m, before + [f]) == MapOf(m, before)[f := m[f]] by {
      assert (before + [f])[..|before|] == before;
    }
    hide *;
    ListedSnoc(m, before, f);
    AllTextsConcat(Listed(m, before), [record]);
    AllTextsOne(record);
    FunctionTexts(m[f]);
    MapSnoc(AllTexts(Listed(m, before)), Texts(record));
    TypeFromValue(f.type_);
  }

  lemma FunctionTexts(f: ExtensionFunction)
    ensures Texts(FunctionRecord(f)) == [f.name, f.extension, TypeValue(f.type_)]
  {
    hide TypeValue;
  }

  lemma ListedSnoc(m: map<Function, ExtensionFunction>, keys: seq<Function>, f: Function)
    requires f in m && forall k :: 0 <= k < |keys| ==> keys[k] in m
    ensures Listed(m, keys + [f]) == Listed(m, keys) + [FunctionRecord(m[f])]
  {
    hide FunctionRecord;
  }

  lemma MapSnoc(records: seq<seq<string>>, x: seq<string>)
    ensures CreateMap(records + [x]) ==
              if CreateMap(records).None? || |x| < 3 || CatalogTypeFromType(x[2]).None? then None
              else
                var key := Function(x[0], CatalogTypeFromType(x[2]).value);
                Some(CreateMap(records).value[key := ExtensionFunction(x[1], key.name, key.type_)])
  {
    assert (records + [x])[..|records|] == records;
  }

  /** Names and extensions that can be written between quotes. */
  predicate PlainEntry(f: ExtensionFunction) {
    Plain(f.name) && Plain(f.extension)
  }

  lemma RecordIsPlain(f: ExtensionFunction)
    ensures WellFormed(FunctionRecord(f)) && (AllPlain(Texts(FunctionRecord(f))) <==> PlainEntry(f))
  {
    TypesAreConstants(f.type_);
    ConstantIsPlain(TypeValue(f.type_));
    hide TypeValue, Plain, ConstantName;
    assert Texts(FunctionRecord(f)) == [f.name, f.extension, TypeValue(f.type_)];
    if PlainEntry(f) {
    } else {
      assert !Plain(Texts(FunctionRecord(f))[0]) || !Plain(Texts(FunctionRecord(f))[1]);
    }
  }

  lemma ListedWellFormed(m: map<Function, ExtensionFunction>, keys: seq<Function>)
    requires forall k :: 0 <= k < |keys| ==> keys[k] in m
    ensures forall k :: 0 <= k < |keys| ==> WellFormed(Listed(m, keys)[k])
    ensures (forall f :: f in m ==> PlainEntry(m[f]))
        ==> forall k :: 0 <= k < |keys| ==> AllPlain(Texts(Listed(m, keys)[k]))
  {
    forall k | 0 <= k < |keys|
      ensures WellFormed(Listed(m, keys)[k])
      ensures PlainEntry(m[keys[k]]) ==> AllPlain(Texts(Listed(m, keys)[k]))
    {
      RecordIsPlain(m[keys[k]]);
    }
  }

  lemma MapOfAll(m: map<Function, ExtensionFunction>, keys: seq<Function>)
    requires Enumerates(keys, m)
    ensures MapOf(m, keys) == m
  {
    forall f ensures (f in MapOf(m, keys) <==> f in m) && (f in m ==> MapOf(m, keys)[f] == m[f]) {
      MapOfAt(m, keys, f);
    }
  }

  /** Exporting a function map and parsing it again restores it exactly if the map is not empty and none of its strings
      is empty, holds a quote, or has blanks around it. */
  lemma FunctionTableRoundTrip(m: map<Function, ExtensionFunction>, keys: seq<Function>)
    requires ValidMap(m) && Enumerates(keys, m)
    ensures var parsed := Read(START, ShowTable("EXTENSION_FUNCTIONS", Listed(m, keys))).records;
            CreateMap(parsed) == Some(m) <==> m != map[] && forall f :: f in m ==> PlainEntry(m[f])
  {
    var text := ShowTable("EXTENSION_FUNCTIONS", Listed(m, keys));
    var parsed := Read(START, text).records;
    NameIsConstant();
    ListedWellFormed(m, keys);
    TableRoundTrip("EXTENSION_FUNCTIONS", Listed(m, keys));
    ReadKeepsPlain(START, text);
    hide Read, ShowTable, Plain, PlainEntry, TypeValue, AllPlain, WellFormed;
    if m == map[] {
      assert keys == [];
      EmptyTable();
    } else if forall f :: f in m ==> PlainEntry(m[f]) {
      MapOfRecords(m, keys);
      MapOfAll(m, keys);
    } else if CreateMap(parsed) == Some(m) {
      forall f | f in m ensures PlainEntry(m[f]) {
        MapIsPlain(parsed, f);
      }
    }
  }

  lemma NameIsConstant()
    ensures ConstantName("EXTENSION_FUNCTIONS")
  {
  }

  lemma EmptyTable()
    ensures CreateMap(Read(START, ShowTable("EXTENSION_FUNCTIONS", [])).records) == None
  {
    NameIsConstant();
    EmptyTableRead("EXTENSION_FUNCTIONS");
    var record: seq<string> := [];
    assert [record][..0] == [];
  }

  lemma {:induction false} MapIsPlain(records: seq<seq<string>>, f: Function)
    requires CreateMap(records).Some? && f in CreateMap(records).value
    requires forall k :: 0 <= k < |records| ==> AllPlain(records[k])
    ensures PlainEntry(CreateMap(records).value[f])
    decreases |records|
  {
    var before, x := records[..|records| - 1], records[|records| - 1];
    var key := Function(x[0], CatalogTypeFromType(x[2]).value);
    if f != key {
      MapIsPlain(before, f);
    } else {
      assert AllPlain(x);
    }
  }
}
