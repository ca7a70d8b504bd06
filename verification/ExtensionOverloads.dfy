/** Overloads of functions: their signatures as text, and exporting a parsed table of overloads once more. */
module ExtensionOverloads {
  import opened Sequences
  import opened ExtensionTable
  import opened ExtensionEntries

  // ----- splitting and joining -----

  function Split(s: string, c: char): (parts: seq<string>)
    ensures parts != []
  {
    if s == [] then [""] else
    var rest := Split(s[1..], c);
    if s[0] == c then [""] + rest else [[s[0]] + rest[0]] + rest[1..]
  }

  function Join(parts: seq<string>, c: char): string {
    if parts == [] then "" else if |parts| == 1 then parts[0] else parts[0] + [c] + Join(parts[1..], c)
  }

  lemma {:induction false} SplitNone(s: string, c: char)
    requires c !in s
    ensures Split(s, c) == [s]
  {
    if s != [] {
      assert c !in s[1..] by {
        assert forall x :: x in s[1..] ==> x in s;
      }
      SplitNone(s[1..], c);
      assert [s[0]] + s[1..] == s;
    }
  }

  lemma {:induction false} SplitAt(a: string, b: string, c: char)
    requires c !in a
    ensures Split(a + [c] + b, c) == [a] + Split(b, c)
  {
    var s := a + [c] + b;
    if a == [] {
      assert s == [c] + b && s[1..] == b;
    } else {
      assert c !in a[1..] by {
        assert forall x :: x in a[1..] ==> x in a;
      }
      SplitAt(a[1..], b, c);
      assert s[0] == a[0] && s[1..] == a[1..] + [c] + b && [a[0]] + a[1..] == a;
      assert a[0] in a;
    }
  }

  lemma {:induction false} SplitJoin(parts: seq<string>, c: char)
    requires parts != [] && forall k :: 0 <= k < |parts| ==> c !in parts[k]
    ensures Split(Join(parts, c), c) == parts
  {
    if |parts| == 1 {
      SplitNone(parts[0], c);
    } else {
      assert forall k :: 0 <= k < |parts| - 1 ==> parts[1..][k] == parts[k + 1];
      SplitJoin(parts[1..], c);
      SplitAt(parts[0], Join(parts[1..], c), c);
      assert [parts[0]] + parts[1..] == parts;
    }
  }

  lemma {:induction false} JoinSplit(s: string, c: char)
    ensures Join(Split(s, c), c) == s
    ensures forall k :: 0 <= k < |Split(s, c)| ==> c !in Split(s, c)[k]
    decreases |s|
  {
    if s != [] {
      JoinSplit(s[1..], c);
      var parts, rest := Split(s, c), Split(s[1..], c);
      assert s == [s[0]] + s[1..];
      if s[0] == c {
        assert parts[1..] == rest;
        assert forall k :: 0 < k < |parts| ==> parts[k] == rest[k - 1];
      } else {
        assert parts[1..] == rest[1..];
        assert forall k :: 0 < k < |parts| ==> parts[k] == rest[k];
        if |parts| > 1 {
          assert [s[0]] + (rest[0] + [c] + Join(rest[1..], c)) == [s[0]] + rest[0] + [c] + Join(rest[1..], c);
        }
      }
    }
  }

  /** A text is split into as many parts more than one as there are separators. */
  lemma {:induction false} SplitConcat(a: string, b: string, c: char)
    ensures |Split(a + [c] + b, c)| == |Split(a, c)| + |Split(b, c)|
    decreases |a|
  {
    var s := a + [c] + b;
    if a == [] {
      assert s == [c] + b && s[1..] == b;
    } else {
      assert s[0] == a[0] && s[1..] == a[1..] + [c] + b;
      SplitConcat(a[1..], b, c);
    }
  }

  lemma {:induction false} SplitMany(s: string, c: char)
    ensures |Split(s, c)| == 1 <==> c !in s
    decreases |s|
  {
    if s != [] {
      SplitMany(s[1..], c);
      assert s == [s[0]] + s[1..];
    }
  }

  // ----- signatures -----

  function ShowSignature(parameters: seq<string>, returnType: string): string {
    "[" + Join(parameters, ',') + "]" + ['>'] + returnType
  }

  /** The text without its first and last character. */
  function Inner(s: string): string {
    if |s| < 2 then "" else s[1..|s| - 1]
  }

  /** Parameters and return type of a signature; nothing if it has no arrow. */
  function ParseSignature(signature: string): Option<(seq<string>, string)> {
    var splits := Split(signature, '>');
    if |splits| < 2 then None else Some((Split(Inner(splits[0]), ','), splits[1]))
  }

  /** A type that is written with an arrow in it. */
  predicate HasArrow(parameters: seq<string>, returnType: string) {
    '>' in returnType || exists k :: 0 <= k < |parameters| && '>' in parameters[k]
  }

  lemma {:induction false} ArrowInJoin(parameters: seq<string>)
    ensures '>' in Join(parameters, ',') <==> exists k :: 0 <= k < |parameters| && '>' in parameters[k]
    decreases |parameters|
  {
    if |parameters| > 1 {
      ArrowInJoin(parameters[1..]);
      assert forall k :: 0 < k < |parameters| ==> parameters[k] == parameters[1..][k - 1];
      var s := Join(parameters, ',');
      assert s == parameters[0] + [','] + Join(parameters[1..], ',');
      if '>' in Join(parameters[1..], ',') {
        var k :| 0 <= k < |parameters[1..]| && '>' in parameters[1..][k];
        assert '>' in parameters[k + 1];
      }
    } else if |parameters| == 1 {
      assert Join(parameters, ',') == parameters[0];
    }
  }

  lemma ParseShown(parameters: seq<string>, returnType: string)
    requires !HasArrow(parameters, returnType)
    ensures ParseSignature(ShowSignature(parameters, returnType)) ==
              Some((Split(Join(parameters, ','), ','), returnType))
  {
    var a := "[" + Join(parameters, ',') + "]";
    ArrowInJoin(parameters);
    assert '>' !in a by {
      assert forall c :: c in a ==> c == '[' || c == ']' || c in Join(parameters, ',');
    }
    SplitAt(a, returnType, '>');
    SplitNone(returnType, '>');
    assert Inner(a) == Join(parameters, ',');
  }

  /** What is parsed from a signature has no arrow in it. */
  lemma ParsedHasNoArrow(signature: string)
    requires ParseSignature(signature).Some?
    ensures var p := ParseSignature(signature).value; !HasArrow(p.0, p.1)
    ensures var p := ParseSignature(signature).value; p.0 != [] && forall k :: 0 <= k < |p.0| ==> ',' !in p.0[k]
  {
    var splits := Split(signature, '>');
    JoinSplit(signature, '>');
    JoinSplit(Inner(splits[0]), ',');
    assert '>' !in Inner(splits[0]) by {
      assert forall c :: c in Inner(splits[0]) ==> c in splits[0];
    }
    ArrowInJoin(Split(Inner(splits[0]), ','));
  }

  /** A signature shows itself again after parsing exactly if no type in it is written with an arrow. Commas inside types
      do no harm, and neither does a missing parameter: they are joined as they were split. */
  lemma SignatureFixpoint(parameters: seq<string>, returnType: string)
    ensures var s := ShowSignature(parameters, returnType);
            && ParseSignature(s).Some?
            && (ShowSignature(ParseSignature(s).value.0, ParseSignature(s).value.1) == s
                <==> !HasArrow(parameters, returnType))
  {
    var s := ShowSignature(parameters, returnType);
    var a := "[" + Join(parameters, ',') + "]";
    SplitConcat(a, returnType, '>');
    if !HasArrow(parameters, returnType) {
      ParseShown(parameters, returnType);
      JoinSplit(Join(parameters, ','), ',');
    } else {
      var p := ParseSignature(s).value;
      ParsedHasNoArrow(s);
      ParseShown(p.0, p.1);
      ArrowsCounted(p.0, p.1);
      ArrowsCounted(parameters, returnType);
    }
  }

  lemma ArrowsCounted(parameters: seq<string>, returnType: string)
    ensures |Split(ShowSignature(parameters, returnType), '>')| == 2 <==> !HasArrow(parameters, returnType)
  {
    var a := "[" + Join(parameters, ',') + "]";
    SplitConcat(a, returnType, '>');
    SplitMany(a, '>');
    SplitMany(returnType, '>');
    ArrowInJoin(parameters);
    assert '>' in a <==> '>' in Join(parameters, ',') by {
      assert forall c :: c in a ==> c == '[' || c == ']' || c in Join(parameters, ',');
    }
  }

  /** Parameters and return type come back exactly if there are parameters, and none of the types has an arrow, and none
      of the parameters a comma. */
  lemma SignatureRoundTrip(parameters: seq<string>, returnType: string)
    ensures ParseSignature(ShowSignature(parameters, returnType)) == Some((parameters, returnType)) <==>
              (parameters != [] && !HasArrow(parameters, returnType)
               && forall k :: 0 <= k < |parameters| ==> ',' !in parameters[k])
  {
    var s := ShowSignature(parameters, returnType);
    if ParseSignature(s) == Some((parameters, returnType)) {
      ParsedHasNoArrow(s);
    } else if parameters != [] && !HasArrow(parameters, returnType)
              && forall k :: 0 <= k < |parameters| ==> ',' !in parameters[k] {
      ParseShown(parameters, returnType);
      SplitJoin(parameters, ',');
    }
  }

  // ----- the overload table -----

  datatype Overload = Overload(extension: string, name: string, type_: CatalogType, parameters: seq<string>,
                               returnType: string)

  function OverloadRecord(o: Overload): seq<Field> {
    [Quoted(o.name), Quoted(o.extension), Constant(TypeValue(o.type_)), Quoted(ShowSignature(o.parameters, o.returnType))]
  }

  function OverloadTable(os: seq<Overload>): seq<seq<Field>> {
    seq(|os|, k requires 0 <= k < |os| => OverloadRecord(os[k]))
  }

  /** The overload of a parsed record. */
  function CreateOverload(x: seq<string>): Option<Overload> {
    if |x| < 4 || CatalogTypeFromType(x[2]).None? || ParseSignature(x[3]).None? then None else
    Some(Overload(x[1], x[0], CatalogTypeFromType(x[2]).value, ParseSignature(x[3]).value.0, ParseSignature(x[3]).value.1))
  }

  function CreateOverloads(records: seq<seq<string>>): Option<seq<Overload>> {
    if records == [] then Some([]) else
    var first, rest := CreateOverload(records[0]), CreateOverloads(records[1..]);
    if first.None? || rest.None? then None else Some([first.value] + rest.value)
  }

  /** An overload after its record has been written and parsed. */
  function Reparsed(o: Overload): (r: Overload) {
    SignatureFixpoint(o.parameters, o.returnType);
    var p := ParseSignature(ShowSignature(o.parameters, o.returnType)).value;
    o.(parameters := p.0, returnType := p.1)
  }

  function ReparsedAll(os: seq<Overload>): seq<Overload> {
    seq(|os|, k requires 0 <= k < |os| => Reparsed(os[k]))
  }

  predicate PlainOverload(o: Overload) {
    Plain(o.name) && Plain(o.extension) && Plain(ShowSignature(o.parameters, o.returnType))
  }

  predicate PlainField(f: Field) {
    Plain(f.text) && (f.Constant? ==> ConstantName(f.text) && f.text != "")
  }

  lemma FourPlainFields(a: Field, b: Field, c: Field, d: Field)
    requires PlainField(a) && PlainField(b) && PlainField(c) && PlainField(d)
    ensures PlainFields([a, b, c, d])
  {
    hide Plain, ConstantName;
  }

  lemma OverloadRecordPlain(o: Overload)
    requires PlainOverload(o)
    ensures PlainFields(OverloadRecord(o))
  {
    TypesAreConstants(o.type_);
    ConstantIsPlain(TypeValue(o.type_));
    hide TypeValue, Plain, ConstantName, ShowSignature, PlainFields;
    FourPlainFields(Quoted(o.name), Quoted(o.extension), Constant(TypeValue(o.type_)),
                    Quoted(ShowSignature(o.parameters, o.returnType)));
  }

  lemma OverloadRead(o: Overload)
    ensures CreateOverload(Texts(OverloadRecord(o))) == Some(Reparsed(o))
  {
    TypeFromValue(o.type_);
    SignatureFixpoint(o.parameters, o.returnType);
    hide TypeValue, CatalogTypeFromType, ShowSignature, ParseSignature;
    assert Texts(OverloadRecord(o)) == [o.name, o.extension, TypeValue(o.type_), ShowSignature(o.parameters, o.returnType)];
  }

  lemma {:induction false} OverloadsRead(os: seq<Overload>)
    ensures CreateOverloads(AllTexts(OverloadTable(os))) == Some(ReparsedAll(os))
    decreases |os|
  {
    if os == [] {
      assert AllTexts(OverloadTable(os)) == [] && ReparsedAll(os) == [];
    } else {
      var o, rest := os[0], os[1..];
      OverloadsRead(rest);
      OverloadRead(o);
      assert [o] + rest == os;
      TablesCons(o, rest);
      AllTextsConcat([OverloadRecord(o)], OverloadTable(rest));
      AllTextsOne(OverloadRecord(o));
      hide CreateOverload, OverloadRecord, Reparsed, OverloadTable, AllTexts, ReparsedAll;
      assert ([Texts(OverloadRecord(o))] + AllTexts(OverloadTable(rest)))[1..] == AllTexts(OverloadTable(rest));
    }
  }

  lemma TablesCons(o: Overload, rest: seq<Overload>)
    ensures OverloadTable([o] + rest) == [OverloadRecord(o)] + OverloadTable(rest)
    ensures ReparsedAll([o] + rest) == [Reparsed(o)] + ReparsedAll(rest)
  {
    hide OverloadRecord, Reparsed;
  }

  /** Overloads that are written and parsed come back in order, each as its signature is parsed. */
  lemma OverloadTableRead(os: seq<Overload>)
    requires os != [] && forall k :: 0 <= k < |os| ==> PlainOverload(os[k])
    ensures CreateOverloads(Read(START, ShowTable("EXTENSION_FUNCTION_OVERLOADS", OverloadTable(os))).records) ==
              Some(ReparsedAll(os))
  {
    hide *;
    OverloadsNameIsConstant();
    TableReadOf("EXTENSION_FUNCTION_OVERLOADS", os);
    OverloadsRead(os);
  }

  lemma OverloadsNameIsConstant()
    ensures ConstantName("EXTENSION_FUNCTION_OVERLOADS")
  {
  }

  lemma TableReadOf(name: string, os: seq<Overload>)
    requires ConstantName(name) && os != [] && forall k :: 0 <= k < |os| ==> PlainOverload(os[k])
    ensures Read(START, ShowTable(name, OverloadTable(os))).records == AllTexts(OverloadTable(os))
  {
    forall k | 0 <= k < |os| ensures PlainFields(OverloadTable(os)[k]) {
      OverloadRecordPlain(os[k]);
    }
    TableRead(name, OverloadTable(os));
  }
}
