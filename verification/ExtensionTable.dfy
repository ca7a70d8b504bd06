/** The table of extension entries as text: how a table is exported, and how its records are parsed again. */
module ExtensionTable {
  import opened Sequences

  // ----- parsing records -----

  /** The state of the parser between two characters. */
  datatype Reader = Reader(records: seq<seq<string>>, record: seq<string>, item: string, inQuote: bool, insideBraces: bool)

  const START: Reader := Reader([], [], "", false, false)

  /** What stripping a text removes from its ends: every character that Unicode counts as white space. */
  predicate Blank(c: char) {
    || c == ' ' || '\t' <= c <= '\r' || '\U{1C}' <= c <= '\U{1F}' || c == '\U{85}' || c == '\U{A0}' || c == '\U{1680}'
    || '\U{2000}' <= c <= '\U{200A}' || c == '\U{2028}' || c == '\U{2029}' || c == '\U{202F}' || c == '\U{205F}'
    || c == '\U{3000}'
  }

  function StripLeft(s: string): string {
    if s != [] && Blank(s[0]) then StripLeft(s[1..]) else s
  }

  function StripRight(s: string): string {
    if s != [] && Blank(s[|s| - 1]) then StripRight(s[..|s| - 1]) else s
  }

  function Strip(s: string): string {
    StripRight(StripLeft(s))
  }

  /** The record with the item that has just ended; an item of blanks only does not count. */
  function EndItem(r: Reader): seq<string> {
    var token := Strip(r.item);
    if token == "" then r.record else r.record + [token]
  }

  function ReadChar(r: Reader, c: char): Reader {
    if c == '"' then r.(inQuote := !r.inQuote)
    else if c == '{' && !r.inQuote then r.(insideBraces := true, record := [], item := "")
    else if c == '}' && !r.inQuote && r.insideBraces then
      Reader(r.records + [EndItem(r)], [], "", false, false)
    else if c == ',' && !r.inQuote && r.insideBraces then r.(record := EndItem(r), item := "")
    else if r.insideBraces then r.(item := r.item + [c])
    else r
  }

  function Read(r: Reader, text: string): Reader
    decreases |text|
  {
    if text == [] then r else Read(ReadChar(r, text[0]), text[1..])
  }

  /** The records of a text. */
  method ParseRecords(text: string) returns (records: seq<seq<string>>)
    ensures records == Read(START, text).records
  {
    records := [];
    var currentRecord: seq<string>, currentItem, inQuote, insideBraces := [], "", false, false;
    var i := 0;
    while i < |text|
      invariant 0 <= i <= |text|
      invariant Read(START, text) == Read(Reader(records, currentRecord, currentItem, inQuote, insideBraces), text[i..])
    {
      var c := text[i];
      assert text[i..][1..] == text[i + 1..];
      if c == '"' {
        inQuote := !inQuote;
      } else if c == '{' && !inQuote {
        insideBraces := true;
        currentRecord, currentItem := [], "";
      } else if c == '}' && !inQuote && insideBraces {
        var token := Strip(currentItem);
        if token != "" {
          currentRecord := currentRecord + [token];
        }
        records := records + [currentRecord];
        currentRecord, currentItem := [], "";
        insideBraces := false;
      } else if c == ',' && !inQuote && insideBraces {
        var token := Strip(currentItem);
        if token != "" {
          currentRecord := currentRecord + [token];
        }
        currentItem := "";
      } else if insideBraces {
        currentItem := currentItem + [c];
      }
      i := i + 1;
    }
    assert text[i..] == [];
  }

  // ----- exporting records -----

  /** A field of an entry: a string in quotes, or the name of a constant. */
  datatype Field = Quoted(text: string) | Constant(text: string)

  function ShowField(f: Field): string {
    match f
    case Quoted(text) => "\"" + text + "\""
    case Constant(text) => text
  }

  function ShowFields(fs: seq<Field>): string {
    if fs == [] then "" else if |fs| == 1 then ShowField(fs[0]) else ShowField(fs[0]) + ", " + ShowFields(fs[1..])
  }

  function ShowRecord(fs: seq<Field>): string {
    "\t{" + ShowFields(fs) + "},\n"
  }

  function ShowRecords(records: seq<seq<Field>>): string {
    if records == [] then "" else ShowRecord(records[0]) + ShowRecords(records[1..])
  }

  /** A table from its name on: records in braces. */
  function ShowTable(name: string, records: seq<seq<Field>>): string {
    name + "[] = {\n" + ShowRecords(records) + "}; // "
  }

  function Texts(fs: seq<Field>): seq<string> {
    seq(|fs|, k requires 0 <= k < |fs| => fs[k].text)
  }

  function AllTexts(records: seq<seq<Field>>): seq<seq<string>> {
    seq(|records|, k requires 0 <= k < |records| => Texts(records[k]))
  }

  lemma AllTextsConcat(a: seq<seq<Field>>, b: seq<seq<Field>>)
    ensures AllTexts(a + b) == AllTexts(a) + AllTexts(b)
  {
  }

  lemma AllTextsOne(fs: seq<Field>)
    ensures AllTexts([fs]) == [Texts(fs)]
  {
  }

  // ----- what can be parsed again -----

  /** A text without quotes and without blanks around it. */
  predicate Plain(s: string) {
    s != "" && !Blank(s[0]) && !Blank(s[|s| - 1]) && '"' !in s
  }

  /** The name of a constant: no character of it has a meaning in a table. */
  predicate ConstantName(s: string) {
    forall c :: c in s ==> c != '{' && c != '}' && c != ',' && c != '"' && !Blank(c)
  }

  predicate WellFormed(fs: seq<Field>) {
    fs != [] && forall k :: 0 <= k < |fs| && fs[k].Constant? ==> ConstantName(fs[k].text) && fs[k].text != ""
  }

  lemma {:induction false} ReadConcat(r: Reader, a: string, b: string)
    ensures Read(r, a + b) == Read(Read(r, a), b)
    decreases |a|
  {
    if a == [] {
      assert a + b == b;
    } else {
      assert (a + b)[1..] == a[1..] + b;
      ReadConcat(ReadChar(r, a[0]), a[1..], b);
    }
  }

  lemma ReadOne(r: Reader, c: char)
    ensures Read(r, [c]) == ReadChar(r, c)
  {
    assert [c][1..] == [];
  }

  /** Inside quotes everything but a quote belongs to the item; outside, everything that has no meaning of its own. */
  lemma {:induction false} ReadText(r: Reader, text: string)
    requires r.insideBraces && '"' !in text
    requires r.inQuote || forall c :: c in text ==> c != '{' && c != '}' && c != ','
    ensures Read(r, text) == r.(item := r.item + text)
    decreases |text|
  {
    if text == [] {
      assert r.item + text == r.item;
    } else {
      assert text[0] in text && forall c :: c in text[1..] ==> c in text;
      ReadText(r.(item := r.item + [text[0]]), text[1..]);
      assert r.item + [text[0]] + text[1..] == r.item + text;
    }
  }

  lemma ReadField(r: Reader, f: Field)
    requires r.insideBraces && !r.inQuote && '"' !in f.text && (f.Constant? ==> ConstantName(f.text))
    ensures Read(r, ShowField(f)) == r.(item := r.item + f.text)
  {
    match f
    case Constant(text) => ReadText(r, text);
    case Quoted(text) =>
      var quote := ['"'];
      assert "\"" == quote;
      assert ShowField(f) == quote + text + quote;
      ReadConcat(r, quote + text, quote);
      ReadConcat(r, quote, text);
      ReadOne(r, '"');
      ReadText(r.(inQuote := true), text);
      ReadOne(r.(inQuote := true, item := r.item + text), '"');
  }

  /** Blanks in front of a plain text are stripped. */
  lemma StripPlain(prefix: string, s: string)
    requires Plain(s) && (prefix == "" || prefix == " ")
    ensures Strip(prefix + s) == s
  {
    if prefix == "" {
      assert prefix + s == s;
    } else {
      assert (prefix + s)[1..] == s;
      assert StripLeft(prefix + s) == StripLeft(s);
    }
    assert StripLeft(s) == s && StripRight(s) == s;
  }

  predicate PlainFields(fs: seq<Field>) {
    WellFormed(fs) && forall k :: 0 <= k < |fs| ==> Plain(fs[k].text)
  }

  /** Where the parser is inside a record, before a field. */
  predicate BeforeField(r: Reader) {
    r.insideBraces && !r.inQuote && (r.item == "" || r.item == " ")
  }

  lemma PlainText(s: string)
    requires Plain(s)
    ensures s != "" && '"' !in s
  {
  }

  /** A field and what ends it. */
  lemma ReadFieldAnd(r: Reader, f: Field, end: string)
    requires BeforeField(r) && Plain(f.text) && (f.Constant? ==> ConstantName(f.text)) && end in {", ", "}"}
    ensures Read(r, ShowField(f) + end) ==
              if end == ", " then r.(record := r.record + [f.text], item := " ")
              else Reader(r.records + [r.record + [f.text]], [], "", false, false)
  {
    PlainText(f.text);
    hide Strip, Plain, ShowField, Read, ConstantName;
    var s := r.(item := r.item + f.text);
    ReadConcat(r, ShowField(f), end);
    ReadField(r, f);
    StripPlain(r.item, f.text);
    if end == ", " {
      assert ", " == [','] + [' '];
      ReadConcat(s, [','], [' ']);
      ReadOne(s, ',');
      ReadOne(s.(record := r.record + [f.text], item := ""), ' ');
    } else {
      ReadOne(s, '}');
    }
  }

  lemma {:induction false} ReadFields(r: Reader, fs: seq<Field>)
    requires BeforeField(r) && PlainFields(fs)
    ensures Read(r, ShowFields(fs) + "}") == Reader(r.records + [r.record + Texts(fs)], [], "", false, false)
    decreases |fs|
  {
    var f, later := fs[0], fs[1..];
    assert forall k :: 0 <= k < |later| ==> later[k] == fs[k + 1];
    assert Texts(fs) == [f.text] + Texts(later);
    if |fs| == 1 {
      assert Texts(later) == [] && [f.text] + [] == [f.text];
      hide Read, Plain, ConstantName;
      ReadFieldAnd(r, f, "}");
    } else {
      assert PlainFields(later);
      assert ShowFields(fs) + "}" == (ShowField(f) + ", ") + (ShowFields(later) + "}");
      hide Read, Plain, ConstantName, ShowField, ShowFields;
      ReadConcat(r, ShowField(f) + ", ", ShowFields(later) + "}");
      ReadFieldAnd(r, f, ", ");
      ReadFields(r.(record := r.record + [f.text], item := " "), later);
      assert r.record + [f.text] + Texts(later) == r.record + Texts(fs);
    }
  }

  /** A record is read whatever came before it. */
  lemma ReadRecord(r: Reader, fs: seq<Field>)
    requires !r.inQuote && PlainFields(fs)
    ensures Read(r, ShowRecord(fs)) == Reader(r.records + [Texts(fs)], [], "", false, false)
  {
    var body, after := ShowFields(fs) + "}", Reader(r.records + [Texts(fs)], [], "", false, false);
    assert ShowRecord(fs) == ['\t'] + (['{'] + (body + ",\n"));
    var s := ReadChar(r, '\t');
    var t := ReadChar(s, '{');
    assert t == Reader(r.records, [], "", false, true);
    ReadConcat(r, ['\t'], ['{'] + (body + ",\n"));
    ReadOne(r, '\t');
    ReadConcat(s, ['{'], body + ",\n");
    ReadOne(s, '{');
    ReadConcat(t, body, ",\n");
    ReadFields(t, fs);
    assert [] + Texts(fs) == Texts(fs);
    ReadOutside(after, ",\n");
  }

  /** Outside braces, nothing is kept. */
  lemma {:induction false} ReadOutside(r: Reader, text: string)
    requires !r.insideBraces && !r.inQuote && '"' !in text && '{' !in text
    ensures Read(r, text) == r
    decreases |text|
  {
    if text != [] {
      assert text[0] in text && forall c :: c in text[1..] ==> c in text;
      ReadOutside(r, text[1..]);
    }
  }

  lemma {:induction false} ReadRecords(r: Reader, records: seq<seq<Field>>)
    requires !r.inQuote && forall k :: 0 <= k < |records| ==> PlainFields(records[k])
    ensures records != [] ==>
              Read(r, ShowRecords(records)) == Reader(r.records + AllTexts(records), [], "", false, false)
    decreases |records|
  {
    if records != [] {
      var later := records[1..];
      assert forall k :: 0 <= k < |later| ==> later[k] == records[k + 1];
      var s := Reader(r.records + [Texts(records[0])], [], "", false, false);
      ReadRecord(r, records[0]);
      ReadConcat(r, ShowRecord(records[0]), ShowRecords(later));
      ReadRecords(s, later);
      assert AllTexts(records) == [Texts(records[0])] + AllTexts(later);
      assert s.records + AllTexts(later) == r.records + AllTexts(records);
      if later == [] {
        assert AllTexts(later) == [];
      }
    }
  }

  /** The text in front of the first record opens a record of its own, which that one replaces. */
  lemma ReadHeading(name: string)
    requires ConstantName(name)
    ensures Read(START, name + "[] = {\n") == Reader([], [], "\n", false, true)
  {
    assert name + "[] = {\n" == (name + "[] = ") + (['{'] + ['\n']);
    ReadConcat(START, name + "[] = ", ['{'] + ['\n']);
    ReadOutside(START, name + "[] = ");
    ReadConcat(START, ['{'], ['\n']);
    ReadOne(START, '{');
    ReadOne(Reader([], [], "", false, true), '\n');
  }

  lemma TableRead(name: string, records: seq<seq<Field>>)
    requires ConstantName(name) && records != [] && forall k :: 0 <= k < |records| ==> PlainFields(records[k])
    ensures Read(START, ShowTable(name, records)) == Reader(AllTexts(records), [], "", false, false)
  {
    var r := Reader([], [], "\n", false, true);
    var heading, body := name + "[] = {\n", ShowRecords(records);
    assert ShowTable(name, records) == heading + (body + "}; // ");
    ReadConcat(START, heading, body + "}; // ");
    ReadHeading(name);
    ReadConcat(r, body, "}; // ");
    ReadRecords(r, records);
    assert [] + AllTexts(records) == AllTexts(records);
    ReadOutside(Reader(AllTexts(records), [], "", false, false), "}; // ");
  }

  /** An empty table is read as one empty record. */
  lemma EmptyTableRead(name: string)
    requires ConstantName(name)
    ensures Read(START, ShowTable(name, [])).records == [[]]
  {
    var r := Reader([], [], "\n", false, true);
    var heading := name + "[] = {\n";
    assert ShowTable(name, []) == heading + (['}'] + "; // ");
    ReadConcat(START, heading, ['}'] + "; // ");
    ReadHeading(name);
    ReadConcat(r, ['}'], "; // ");
    ReadOne(r, '}');
    assert StripLeft("\n") == "" by {
      assert "\n"[1..] == "";
    }
    ReadOutside(Reader([[]], [], "", false, false), "; // ");
  }

  // ----- only plain texts come out -----

  predicate AllPlain(tokens: seq<string>) {
    forall k :: 0 <= k < |tokens| ==> Plain(tokens[k])
  }

  predicate PlainSoFar(r: Reader) {
    '"' !in r.item && AllPlain(r.record) && forall k :: 0 <= k < |r.records| ==> AllPlain(r.records[k])
  }

  lemma {:induction false} StripLeftShape(s: string)
    ensures StripLeft(s) == "" || !Blank(StripLeft(s)[0])
    ensures forall c :: c in StripLeft(s) ==> c in s
    decreases |s|
  {
    if s != [] && Blank(s[0]) {
      StripLeftShape(s[1..]);
    }
  }

  lemma {:induction false} StripRightShape(s: string)
    ensures StripRight(s) == "" || (!Blank(StripRight(s)[|StripRight(s)| - 1]) && StripRight(s)[0] == s[0])
    ensures forall c :: c in StripRight(s) ==> c in s
    decreases |s|
  {
    if s != [] && Blank(s[|s| - 1]) {
      StripRightShape(s[..|s| - 1]);
    }
  }

  lemma CharKeepsPlain(r: Reader, c: char)
    requires PlainSoFar(r)
    ensures PlainSoFar(ReadChar(r, c))
  {
    StripLeftShape(r.item);
    StripRightShape(StripLeft(r.item));
    assert Strip(r.item) == "" || Plain(Strip(r.item));
  }

  lemma {:induction false} ReadKeepsPlain(r: Reader, text: string)
    requires PlainSoFar(r)
    ensures PlainSoFar(Read(r, text))
    decreases |text|
  {
    if text != [] {
      CharKeepsPlain(r, text[0]);
      ReadKeepsPlain(ReadChar(r, text[0]), text[1..]);
    }
  }

  /** Parsing an exported table gives its records back exactly if it has any, and no string in it is empty, holds a
      quote, or has blanks around it. */
  lemma TableRoundTrip(name: string, records: seq<seq<Field>>)
    requires ConstantName(name) && forall k :: 0 <= k < |records| ==> WellFormed(records[k])
    ensures Read(START, ShowTable(name, records)).records == AllTexts(records) <==>
              records != [] && forall k :: 0 <= k < |records| ==> AllPlain(Texts(records[k]))
  {
    var parsed := Read(START, ShowTable(name, records)).records;
    if records == [] {
      EmptyTableRead(name);
    } else if forall k :: 0 <= k < |records| ==> AllPlain(Texts(records[k])) {
      forall k | 0 <= k < |records| ensures PlainFields(records[k]) {
        forall i | 0 <= i < |records[k]| ensures Plain(records[k][i].text) {
          assert AllPlain(Texts(records[k])) && Texts(records[k])[i] == records[k][i].text;
        }
      }
      TableRead(name, records);
    } else if parsed == AllTexts(records) {
      ReadKeepsPlain(START, ShowTable(name, records));
      forall k | 0 <= k < |records| ensures AllPlain(Texts(records[k])) {
        assert parsed[k] == Texts(records[k]);
      }
    }
  }
}
