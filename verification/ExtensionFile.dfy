/** A table inside its file: it is cut out by its name and the marker behind it before it is parsed. */
module ExtensionFile {
  import opened Sequences
  import opened ExtensionTable
  import opened ExtensionEntries

  // ----- searching a text -----

  predicate OccursAt(s: string, text: string, p: nat) {
    p + |text| <= |s| && s[p..p + |text|] == text
  }

  predicate Occurs(s: string, text: string) {
    exists p :: 0 <= p <= |s| && OccursAt(s, text, p)
  }

  /** The first position from `p` on at which the text occurs, or -1. */
  function FindFrom(s: string, text: string, p: nat): int
    decreases |s| - p
  {
    if p + |text| > |s| then -1 else if OccursAt(s, text, p) then p else FindFrom(s, text, p + 1)
  }

  function Find(s: string, text: string): int {
    FindFrom(s, text, 0)
  }

  lemma {:induction false} FindFromIs(s: string, text: string, p: nat, k: nat)
    requires p <= k && OccursAt(s, text, k) && forall q :: p <= q < k ==> !OccursAt(s, text, q)
    ensures FindFrom(s, text, p) == k
    decreases k - p
  {
    if p < k {
      FindFromIs(s, text, p + 1, k);
    }
  }

  lemma {:induction false} FindFromFound(s: string, text: string, p: nat)
    ensures var k := FindFrom(s, text, p);
            && (k == -1 ==> forall q :: p <= q ==> !OccursAt(s, text, q))
            && (k != -1 ==> p <= k && OccursAt(s, text, k) && forall q :: p <= q < k ==> !OccursAt(s, text, q))
    decreases |s| - p
  {
    if p + |text| <= |s| && !OccursAt(s, text, p) {
      FindFromFound(s, text, p + 1);
    }
  }

  /** A slice between two positions, which count from the back if they are negative. */
  function Slice(s: string, begin: int, end: int): string {
    var b := if begin < 0 then Max(|s| + begin, 0) else Min(begin, |s|);
    var e := if end < 0 then Max(|s| + end, 0) else Min(end, |s|);
    if b < e then s[b..e] else ""
  }

  function Max(a: int, b: int): int {
    if a < b then b else a
  }

  function Min(a: int, b: int): int {
    if a < b then a else b
  }

  function Marker(name: string): string {
    "END_OF_" + name
  }

  function GetSliceOfFile(name: string, file: string): string {
    Slice(file, Find(file, name), Find(file, Marker(name)))
  }

  // ----- where a text can occur -----

  lemma OccursChar(s: string, text: string, p: nat, k: nat)
    requires OccursAt(s, text, p) && k < |text|
    ensures s[p + k] == text[k] && text[k] in text && s[p + k] in s
  {
    assert s[p..p + |text|][k] == s[p + k];
  }

  /** A text without a certain character occurs on one side of it. */
  lemma OccursBeside(a: string, c: char, b: string, text: string, p: nat)
    requires c !in text && OccursAt(a + [c] + b, text, p)
    ensures OccursAt(a, text, p) || (p > |a| && OccursAt(b, text, p - |a| - 1)) || text == ""
  {
    var s := a + [c] + b;
    if p + |text| <= |a| {
      assert s[p..p + |text|] == a[p..p + |text|];
    } else if p > |a| {
      assert s[p..p + |text|] == b[p - |a| - 1..p - |a| - 1 + |text|];
    } else if text != "" {
      OccursChar(s, text, p, |a| - p);
    }
  }

  lemma OccursShifted(a: string, b: string, text: string, p: nat)
    requires OccursAt(b, text, p)
    ensures OccursAt(a + b, text, |a| + p)
  {
    assert (a + b)[|a| + p..|a| + p + |text|] == b[p..p + |text|];
  }

  lemma OccursBehind(a: string, b: string, text: string, p: nat)
    requires OccursAt(a + b, text, p) && p >= |a|
    ensures OccursAt(b, text, p - |a|)
  {
    assert (a + b)[p..p + |text|] == b[p - |a|..p - |a| + |text|];
  }

  lemma OccursInPrefix(a: string, b: string, text: string, p: nat)
    requires OccursAt(a, text, p)
    ensures OccursAt(a + b, text, p)
  {
    assert (a + b)[p..p + |text|] == a[p..p + |text|];
  }

  /** A text with a certain character does not occur where that character does not. */
  lemma OccursNot(s: string, c: char, text: string, p: nat)
    requires c in text && c !in s
    ensures !OccursAt(s, text, p)
  {
    var k :| 0 <= k < |text| && text[k] == c;
    if OccursAt(s, text, p) {
      OccursChar(s, text, p, k);
    }
  }

  const FUNCTIONS: string := "EXTENSION_FUNCTIONS"

  lemma MarkerChars()
    ensures var marker := Marker(FUNCTIONS);
            'D' in marker && '"' !in marker && '\n' !in marker && ' ' !in marker && marker != ""
    ensures 'D' !in FUNCTIONS + "[] = {" && 'D' !in "}; // " && 'D' !in "\t{" && 'D' !in ", "
  {
    assert Marker(FUNCTIONS)[2] == 'D';
  }

  lemma WordChars(t: CatalogType)
    ensures 'D' !in Word(t) && 'D' !in PREFIX && 'D' !in FUNCTION_ENTRY
  {
  }

  lemma TypeChars(t: CatalogType)
    ensures 'D' !in ", " + TypeValue(t) + "},"
  {
    WordChars(t);
    hide Word;
    var end := if t == MACRO || t == TABLE_MACRO then "" else FUNCTION_ENTRY;
    assert ", " + TypeValue(t) + "}," == ", " + (PREFIX + Word(t) + end) + "},";
    forall c | c in ", " + TypeValue(t) + "},"
      ensures c in ", " || c in PREFIX || c in Word(t) || c in end || c in "},"
    {
    }
  }

  // ----- where a marker can occur in the function table -----

  /** The marker occurs in a string of one of the functions. */
  ghost predicate Marked(f: ExtensionFunction) {
    Occurs(f.name, Marker(FUNCTIONS)) || Occurs(f.extension, Marker(FUNCTIONS))
  }

  /** What follows the tables's records. */
  const TAIL: string := "}; // "

  /** A record, taken apart at its quotes and its end of line. */
  function RecordText(f: ExtensionFunction, rest: string): string {
    "\t{" + ['"'] + (f.name + ['"'] + (", " + ['"'] + (f.extension + ['"']
      + ((", " + TypeValue(f.type_) + "},") + ['\n'] + rest))))
  }

  lemma RecordTextIs(f: ExtensionFunction, rest: string)
    ensures ShowRecord(FunctionRecord(f)) + rest == RecordText(f, rest)
  {
    FunctionLine(f);
    hide TypeValue, FunctionRecord, ShowRecord;
    assert "\"" == ['"'] && "},\n" == "}," + ['\n'];
  }

  /** An occurrence in a record lies in one of its strings, with a quote open in front of it, or behind the record. */
  lemma MarkerInRecord(f: ExtensionFunction, rest: string, p: nat)
    requires OccursAt(RecordText(f, rest), Marker(FUNCTIONS), p)
    ensures var name, extension := 3, 3 + |f.name| + 4;
            var end := extension + |f.extension| + 1 + |", " + TypeValue(f.type_) + "},"| + 1;
            || (p >= name && OccursAt(f.name, Marker(FUNCTIONS), p - name))
            || (p >= extension && OccursAt(f.extension, Marker(FUNCTIONS), p - extension))
            || (p >= end && OccursAt(rest, Marker(FUNCTIONS), p - end))
  {
    var marker := Marker(FUNCTIONS);
    MarkerChars();
    TypeChars(f.type_);
    hide TypeValue, Marker, OccursAt;
    var last := ", " + TypeValue(f.type_) + "},";
    var fourth := last + ['\n'] + rest;
    var third := f.extension + ['"'] + fourth;
    var second := ", " + ['"'] + third;
    var first := f.name + ['"'] + second;
    OccursBeside("\t{", '"', first, marker, p);
    OccursNot("\t{", 'D', marker, p);
    var p1 := p - 3;
    OccursBeside(f.name, '"', second, marker, p1);
    if !OccursAt(f.name, marker, p1) {
      var p2 := p1 - |f.name| - 1;
      OccursBeside(", ", '"', third, marker, p2);
      OccursNot(", ", 'D', marker, p2);
      var p3 := p2 - 3;
      OccursBeside(f.extension, '"', fourth, marker, p3);
      if !OccursAt(f.extension, marker, p3) {
        var p4 := p3 - |f.extension| - 1;
        OccursBeside(last, '\n', rest, marker, p4);
        OccursNot(last, 'D', marker, p4);
      }
    }
  }

  /** Where a quote has just been opened inside a record, what follows up to the next quote leaves it open. */
  lemma ReadOpened(r: Reader, pre: string, text: string)
    requires Read(r, pre).insideBraces && Read(r, pre).inQuote && '"' !in text
    ensures Read(r, pre + text).insideBraces
  {
    ReadConcat(r, pre, text);
    ReadText(Read(r, pre), text);
  }

  lemma ReadToName(r: Reader)
    requires !r.inQuote
    ensures var s := Read(r, "\t{" + ['"']); s.insideBraces && s.inQuote
  {
    var s := ReadChar(ReadChar(r, '\t'), '{');
    assert "\t{" + ['"'] == (['\t'] + ['{']) + ['"'];
    ReadConcat(r, ['\t'] + ['{'], ['"']);
    ReadConcat(r, ['\t'], ['{']);
    ReadOne(r, '\t');
    ReadOne(ReadChar(r, '\t'), '{');
    ReadOne(s, '"');
  }

  lemma ReadToExtension(r: Reader, name: string)
    requires !r.inQuote && '"' !in name
    ensures var s := Read(r, "\t{" + ['"'] + name + ['"'] + ", " + ['"']); s.insideBraces && s.inQuote
  {
    var a := "\t{" + ['"'];
    var s := Read(r, a);
    ReadToName(r);
    ReadConcat(r, a, name);
    ReadText(s, name);
    ReadConcat(r, a + name, ['"']);
    ReadOne(s.(item := s.item + name), '"');
    var t := Read(r, a + name + ['"']);
    assert ", " == [','] + [' '];
    ReadConcat(r, a + name + ['"'], ", ");
    ReadConcat(t, [','], [' ']);
    ReadOne(t, ',');
    ReadOne(ReadChar(t, ','), ' ');
    ReadConcat(r, a + name + ['"'] + ", ", ['"']);
    ReadOne(Read(r, a + name + ['"'] + ", "), '"');
  }

  lemma CutInName(f: ExtensionFunction, rest: string, p: nat, r: Reader)
    requires !r.inQuote && '"' !in f.name && 3 <= p <= 3 + |f.name|
    ensures p <= |RecordText(f, rest)| && Read(r, RecordText(f, rest)[..p]).insideBraces
  {
    hide TypeValue;
    assert RecordText(f, rest)[..p] == "\t{" + ['"'] + f.name[..p - 3];
    ReadToName(r);
    assert forall c :: c in f.name[..p - 3] ==> c in f.name;
    ReadOpened(r, "\t{" + ['"'], f.name[..p - 3]);
  }

  lemma CutInExtension(f: ExtensionFunction, rest: string, p: nat, r: Reader)
    requires !r.inQuote && '"' !in f.name && '"' !in f.extension
    requires 7 + |f.name| <= p <= 7 + |f.name| + |f.extension|
    ensures p <= |RecordText(f, rest)| && Read(r, RecordText(f, rest)[..p]).insideBraces
  {
    hide TypeValue;
    var d := p - 7 - |f.name|;
    var pre := "\t{" + ['"'] + f.name + ['"'] + ", " + ['"'];
    assert RecordText(f, rest) == pre + f.extension + (['"'] + ((", " + TypeValue(f.type_) + "},") + ['\n'] + rest));
    assert RecordText(f, rest)[..p] == pre + f.extension[..d];
    ReadToExtension(r, f.name);
    assert forall c :: c in f.extension[..d] ==> c in f.extension;
    ReadOpened(r, pre, f.extension[..d]);
  }

  function RecordLength(f: ExtensionFunction): nat {
    8 + |f.name| + |f.extension| + |", " + TypeValue(f.type_) + "},"| + 1
  }

  /** An occurrence in a record, or behind it. */
  lemma MarkerInStrings(f: ExtensionFunction, rest: string, r: Reader, p: nat)
    requires !r.inQuote && PlainEntry(f) && OccursAt(RecordText(f, rest), Marker(FUNCTIONS), p)
    ensures p < RecordLength(f) ==>
              Marked(f) && p <= |RecordText(f, rest)| && Read(r, RecordText(f, rest)[..p]).insideBraces
    ensures p >= RecordLength(f) ==> OccursAt(rest, Marker(FUNCTIONS), p - RecordLength(f))
  {
    var marker := Marker(FUNCTIONS);
    MarkerInRecord(f, rest, p);
    if p >= 3 && OccursAt(f.name, marker, p - 3) {
      MarkerInName(f, rest, r, p);
    } else if p >= 7 + |f.name| && OccursAt(f.extension, marker, p - 7 - |f.name|) {
      MarkerInExtension(f, rest, r, p);
    }
  }

  lemma MarkerInName(f: ExtensionFunction, rest: string, r: Reader, p: nat)
    requires !r.inQuote && PlainEntry(f) && p >= 3 && OccursAt(f.name, Marker(FUNCTIONS), p - 3)
    ensures p < RecordLength(f) && Marked(f)
    ensures p <= |RecordText(f, rest)| && Read(r, RecordText(f, rest)[..p]).insideBraces
  {
    PlainHasNoQuote(f);
    AtMost(f.name, Marker(FUNCTIONS), p - 3);
    MarkedBy(f, p - 3, 0);
    hide *;
    CutInName(f, rest, p, r);
  }

  lemma MarkerInExtension(f: ExtensionFunction, rest: string, r: Reader, p: nat)
    requires !r.inQuote && PlainEntry(f) && p >= 7 + |f.name|
    requires OccursAt(f.extension, Marker(FUNCTIONS), p - 7 - |f.name|)
    ensures p < RecordLength(f) && Marked(f)
    ensures p <= |RecordText(f, rest)| && Read(r, RecordText(f, rest)[..p]).insideBraces
  {
    PlainHasNoQuote(f);
    AtMost(f.extension, Marker(FUNCTIONS), p - 7 - |f.name|);
    MarkedBy(f, 0, p - 7 - |f.name|);
    hide *;
    CutInExtension(f, rest, p, r);
  }

  lemma AtMost(s: string, text: string, p: nat)
    requires OccursAt(s, text, p)
    ensures p <= |s|
  {
  }

  /** Wherever the marker occurs in the records, a record is open in front of it. */
  lemma {:induction false} MarkerInRecords(m: map<Function, ExtensionFunction>, keys: seq<Function>, r: Reader, p: nat)
    requires forall k :: 0 <= k < |keys| ==> keys[k] in m && PlainEntry(m[keys[k]])
    requires !r.inQuote && OccursAt(ShowRecords(Listed(m, keys)) + TAIL, Marker(FUNCTIONS), p)
    ensures exists k :: 0 <= k < |keys| && Marked(m[keys[k]])
    ensures p <= |ShowRecords(Listed(m, keys)) + TAIL|
    ensures Read(r, (ShowRecords(Listed(m, keys)) + TAIL)[..p]).insideBraces
    decreases |keys|
  {
    var marker, text := Marker(FUNCTIONS), ShowRecords(Listed(m, keys)) + TAIL;
    assert keys == [] ==> text == TAIL;
    if keys == [] {
      MarkerChars();
      OccursNot(TAIL, 'D', marker, p);
    } else {
      var f, rest := m[keys[0]], ShowRecords(Listed(m, keys[1..])) + TAIL;
      ListedFirst(m, keys);
      RecordTextIs(f, rest);
      assert text == RecordText(f, rest);
      hide Marker, PlainEntry, TypeValue, ShowRecords, Listed, RecordText, Read, Marked;
      var record := ShowRecord(FunctionRecord(f));
      MarkerInStrings(f, rest, r, p);
      RecordSize(f);
      if p < |record| {
        assert Marked(m[keys[0]]);
      } else {
        RecordRead(f, r);
        MarkerInRecords(m, keys[1..], Read(r, record), p - |record|);
        ReadBehind(r, record, rest, p);
        var k :| 0 <= k < |keys[1..]| && Marked(m[keys[1..][k]]);
        assert keys[1..][k] == keys[k + 1];
      }
    }
  }

  lemma ReadBehind(r: Reader, record: string, rest: string, p: nat)
    requires |record| <= p <= |record| + |rest|
    ensures Read(r, (record + rest)[..p]) == Read(Read(r, record), rest[..p - |record|])
  {
    assert (record + rest)[..p] == record + rest[..p - |record|];
    ReadConcat(r, record, rest[..p - |record|]);
  }

  lemma MarkedBy(f: ExtensionFunction, p: nat, q: nat)
    requires OccursAt(f.name, Marker(FUNCTIONS), p) || OccursAt(f.extension, Marker(FUNCTIONS), q)
    ensures Marked(f)
  {
  }

  lemma PlainHasNoQuote(f: ExtensionFunction)
    requires PlainEntry(f)
    ensures '"' !in f.name && '"' !in f.extension
  {
  }

  lemma ListedFirst(m: map<Function, ExtensionFunction>, keys: seq<Function>)
    requires keys != [] && forall k :: 0 <= k < |keys| ==> keys[k] in m
    ensures ShowRecords(Listed(m, keys)) + TAIL ==
              ShowRecord(FunctionRecord(m[keys[0]])) + (ShowRecords(Listed(m, keys[1..])) + TAIL)
  {
    hide FunctionRecord, ShowRecord;
    assert Listed(m, keys)[1..] == Listed(m, keys[1..]);
  }

  lemma RecordSize(f: ExtensionFunction)
    ensures |ShowRecord(FunctionRecord(f))| == RecordLength(f)
  {
    FunctionLine(f);
    hide TypeValue;
  }

  lemma RecordRead(f: ExtensionFunction, r: Reader)
    requires !r.inQuote && PlainEntry(f)
    ensures !Read(r, ShowRecord(FunctionRecord(f))).inQuote
  {
    RecordIsPlain(f);
    hide Plain, ConstantName, TypeValue, PlainEntry;
    forall k | 0 <= k < |FunctionRecord(f)| ensures Plain(FunctionRecord(f)[k].text) {
      assert Texts(FunctionRecord(f))[k] == FunctionRecord(f)[k].text;
    }
    ReadRecord(r, FunctionRecord(f));
  }

  lemma OccursBetween(pre: string, s: string, post: string, text: string)
    requires Occurs(s, text)
    ensures Occurs(pre + (s + post), text)
  {
    hide OccursAt;
    var p :| 0 <= p <= |s| && OccursAt(s, text, p);
    OccursInPrefix(s, post, text, p);
    OccursShifted(pre, s + post, text, p);
  }

  lemma MarkedHere(f: ExtensionFunction, rest: string)
    requires Marked(f)
    ensures Occurs(ShowRecord(FunctionRecord(f)) + rest, Marker(FUNCTIONS))
  {
    RecordTextIs(f, rest);
    hide Marker, TypeValue, Occurs;
    var line := (", " + TypeValue(f.type_) + "},") + ['\n'] + rest;
    if Occurs(f.name, Marker(FUNCTIONS)) {
      OccursBetween("\t{" + ['"'], f.name, ['"'] + (", " + ['"'] + (f.extension + ['"'] + line)), Marker(FUNCTIONS));
      assert RecordText(f, rest) ==
               "\t{" + ['"'] + (f.name + (['"'] + (", " + ['"'] + (f.extension + ['"'] + line))));
    } else {
      var pre := "\t{" + ['"'] + f.name + ['"'] + ", " + ['"'];
      OccursBetween(pre, f.extension, ['"'] + line, Marker(FUNCTIONS));
      assert RecordText(f, rest) == pre + (f.extension + (['"'] + line));
    }
  }

  lemma OccursBehindRecord(pre: string, rest: string, text: string)
    requires Occurs(rest, text)
    ensures Occurs(pre + rest, text)
  {
    hide OccursAt;
    var p :| 0 <= p <= |rest| && OccursAt(rest, text, p);
    OccursShifted(pre, rest, text, p);
  }

  lemma MarkedFirst(m: map<Function, ExtensionFunction>, keys: seq<Function>)
    requires keys != [] && (forall i :: 0 <= i < |keys| ==> keys[i] in m) && Marked(m[keys[0]])
    ensures Occurs(ShowRecords(Listed(m, keys)) + TAIL, Marker(FUNCTIONS))
  {
    hide *;
    ListedFirst(m, keys);
    MarkedHere(m[keys[0]], ShowRecords(Listed(m, keys[1..])) + TAIL);
  }

  lemma MarkedLater(m: map<Function, ExtensionFunction>, keys: seq<Function>)
    requires keys != [] && forall i :: 0 <= i < |keys| ==> keys[i] in m
    requires Occurs(ShowRecords(Listed(m, keys[1..])) + TAIL, Marker(FUNCTIONS))
    ensures Occurs(ShowRecords(Listed(m, keys)) + TAIL, Marker(FUNCTIONS))
  {
    hide *;
    ListedFirst(m, keys);
    var rest := ShowRecords(Listed(m, keys[1..])) + TAIL;
    OccursBehindRecord(ShowRecord(FunctionRecord(m[keys[0]])), rest, Marker(FUNCTIONS));
  }

  lemma {:induction false} MarkedOccurs(m: map<Function, ExtensionFunction>, keys: seq<Function>, k: nat)
    requires forall i :: 0 <= i < |keys| ==> keys[i] in m
    requires k < |keys| && Marked(m[keys[k]])
    ensures Occurs(ShowRecords(Listed(m, keys)) + TAIL, Marker(FUNCTIONS))
    decreases |keys|
  {
    hide *;
    if k > 0 {
      MarkedOccurs(m, keys[1..], k - 1);
      MarkedLater(m, keys);
    } else {
      MarkedFirst(m, keys);
    }
  }

  // ----- a table that is cut short -----

  lemma {:induction false} RecordsGrow(r: Reader, text: string)
    ensures |Read(r, text).records| >= |r.records|
    ensures r.insideBraces && !Read(r, text).insideBraces ==> |Read(r, text).records| > |r.records|
    decreases |text|
  {
    if text != [] {
      RecordsGrow(ReadChar(r, text[0]), text[1..]);
    }
  }

  lemma {:induction false} MapIsSmall(records: seq<seq<string>>)
    requires CreateMap(records).Some?
    ensures |CreateMap(records).value| <= |records|
    decreases |records|
  {
    if records != [] {
      MapIsSmall(records[..|records| - 1]);
    }
  }

  lemma {:induction false} EnumerationSize(keys: seq<Function>, m: map<Function, ExtensionFunction>)
    requires Enumerates(keys, m)
    ensures |keys| == |m|
  {
    assert m.Keys == set f | f in keys;
    KeysSize(keys);
    assert |m.Keys| == |m|;
  }

  lemma {:induction false} KeysSize(keys: seq<Function>)
    requires forall j, k :: 0 <= j < k < |keys| ==> keys[j] != keys[k]
    ensures |set f | f in keys| == |keys|
    decreases |keys|
  {
    if keys != [] {
      var before, last := keys[..|keys| - 1], keys[|keys| - 1];
      KeysSize(before);
      assert keys == before + [last];
      assert (set f | f in keys) == (set f | f in before) + {last};
    }
  }

  /** A table whose end is missing from a record on has fewer records. */
  lemma CutTable(m: map<Function, ExtensionFunction>, keys: seq<Function>, table: string, p: nat)
    requires Enumerates(keys, m) && p <= |table| && Read(START, table[..p]).insideBraces
    requires !Read(START, table).insideBraces && |Read(START, table).records| == |keys|
    ensures CreateMap(Read(START, table[..p]).records) != Some(m)
  {
    var records := Read(START, table[..p]).records;
    assert table == table[..p] + table[p..];
    ReadConcat(START, table[..p], table[p..]);
    RecordsGrow(Read(START, table[..p]), table[p..]);
    EnumerationSize(keys, m);
    if CreateMap(records).Some? {
      MapIsSmall(records);
    }
  }

  // ----- the whole way -----

  function FunctionTable(m: map<Function, ExtensionFunction>, keys: seq<Function>): string
    requires forall k :: 0 <= k < |keys| ==> keys[k] in m
  {
    ShowTable(FUNCTIONS, Listed(m, keys))
  }

  /** The file with the function table in it. */
  function FileWith(before: string, m: map<Function, ExtensionFunction>, keys: seq<Function>, after: string): string
    requires forall k :: 0 <= k < |keys| ==> keys[k] in m
  {
    before + (FunctionTable(m, keys) + (Marker(FUNCTIONS) + after))
  }

  /** The table is the first place in the file where its name or its marker stands. */
  ghost predicate FirstInFile(before: string, file: string) {
    forall p :: 0 <= p < |before| ==> !OccursAt(file, FUNCTIONS, p) && !OccursAt(file, Marker(FUNCTIONS), p)
  }

  lemma SliceFromTable(before: string, file: string, rest: string, c: nat)
    requires file == before + rest && OccursAt(rest, FUNCTIONS, 0) && FirstInFile(before, file)
    requires OccursAt(rest, Marker(FUNCTIONS), c) && forall q :: 0 <= q < c ==> !OccursAt(rest, Marker(FUNCTIONS), q)
    ensures c <= |rest| && GetSliceOfFile(FUNCTIONS, file) == rest[..c]
  {
    var marker := Marker(FUNCTIONS);
    AtMost(rest, marker, c);
    hide Marker, OccursAt;
    FoundBehind(before, rest, FUNCTIONS, 0);
    FoundBehind(before, rest, marker, c);
    assert file[|before|..|before| + c] == rest[..c];
  }

  /** A text that stands first in the second part, and not before. */
  lemma FoundBehind(a: string, b: string, text: string, c: nat)
    requires OccursAt(b, text, c) && forall q :: 0 <= q < c ==> !OccursAt(b, text, q)
    requires forall q :: 0 <= q < |a| ==> !OccursAt(a + b, text, q)
    ensures Find(a + b, text) == |a| + c
  {
    hide OccursAt;
    OccursShifted(a, b, text, c);
    forall q | 0 <= q < |a| + c ensures !OccursAt(a + b, text, q) {
      if q >= |a| && OccursAt(a + b, text, q) {
        OccursBehind(a, b, text, q);
      }
    }
    FindFromIs(a + b, text, 0, |a| + c);
  }

  predicate AllEntriesPlain(m: map<Function, ExtensionFunction>) {
    forall f :: f in m ==> PlainEntry(m[f])
  }

  const HEADING: string := FUNCTIONS + "[] = {"

  lemma TableParts(m: map<Function, ExtensionFunction>, keys: seq<Function>)
    requires forall k :: 0 <= k < |keys| ==> keys[k] in m
    ensures FunctionTable(m, keys) == HEADING + ['\n'] + (ShowRecords(Listed(m, keys)) + TAIL)
    ensures Read(START, HEADING + ['\n']) == Reader([], [], "\n", false, true)
  {
    NameIsConstant();
    ReadHeading(FUNCTIONS);
    assert HEADING + ['\n'] == FUNCTIONS + "[] = {\n";
    hide Read, ShowRecords, Listed;
    assert FunctionTable(m, keys) == FUNCTIONS + "[] = {\n" + ShowRecords(Listed(m, keys)) + TAIL;
  }

  lemma NoMarkerInHeading(p: nat)
    ensures !OccursAt(HEADING, Marker(FUNCTIONS), p) && '\n' !in Marker(FUNCTIONS) && Marker(FUNCTIONS) != ""
  {
    MarkerChars();
    hide Marker, OccursAt;
    OccursNot(HEADING, 'D', Marker(FUNCTIONS), p);
  }

  lemma MarkerInTable(m: map<Function, ExtensionFunction>, keys: seq<Function>, p: nat)
    requires Enumerates(keys, m) && AllEntriesPlain(m) && forall k :: 0 <= k < |keys| ==> keys[k] in m
    requires OccursAt(FunctionTable(m, keys), Marker(FUNCTIONS), p)
    ensures p <= |FunctionTable(m, keys)| && Read(START, FunctionTable(m, keys)[..p]).insideBraces
    ensures exists f :: f in m && Marked(m[f])
  {
    var body := ShowRecords(Listed(m, keys)) + TAIL;
    TableParts(m, keys);
    NoMarkerInHeading(p);
    hide Marker, PlainEntry, OccursAt, Read, ShowRecords, Listed, FunctionTable, HEADING, Marked;
    OccursBeside(HEADING, '\n', body, Marker(FUNCTIONS), p);
    var r := Read(START, HEADING + ['\n']);
    MarkerInRecords(m, keys, r, p - |HEADING| - 1);
    ReadBehind(START, HEADING + ['\n'], body, p);
    var k :| 0 <= k < |keys| && Marked(m[keys[k]]);
    assert keys[k] in m;
  }

  lemma TableEnds(m: map<Function, ExtensionFunction>, keys: seq<Function>)
    requires Enumerates(keys, m) && AllEntriesPlain(m) && m != map[]
    ensures var r := Read(START, FunctionTable(m, keys)); !r.insideBraces && |r.records| == |keys|
  {
    forall k | 0 <= k < |keys| ensures keys[k] in m && PlainFields(FunctionRecord(m[keys[k]])) {
      assert keys[k] in keys;
      EntryIsPlain(m[keys[k]]);
    }
    NameIsConstant();
    var f :| f in m;
    assert f in keys;
    hide PlainFields, FunctionRecord, ShowTable, Read;
    TableRead(FUNCTIONS, Listed(m, keys));
  }

  lemma EntryIsPlain(f: ExtensionFunction)
    requires PlainEntry(f)
    ensures PlainFields(FunctionRecord(f))
  {
    RecordIsPlain(f);
    hide Plain, ConstantName, TypeValue, PlainEntry;
    forall k | 0 <= k < |FunctionRecord(f)| ensures Plain(FunctionRecord(f)[k].text) {
      assert Texts(FunctionRecord(f))[k] == FunctionRecord(f)[k].text;
    }
  }

  lemma MarkedInTable(m: map<Function, ExtensionFunction>, keys: seq<Function>, f: Function)
    requires Enumerates(keys, m) && f in m && Marked(m[f]) && forall k :: 0 <= k < |keys| ==> keys[k] in m
    ensures Occurs(FunctionTable(m, keys), Marker(FUNCTIONS))
  {
    assert f in keys;
    var k :| 0 <= k < |keys| && keys[k] == f;
    var body := ShowRecords(Listed(m, keys)) + TAIL;
    hide *;
    TableParts(m, keys);
    MarkedOccurs(m, keys, k);
    OccursBetween(HEADING + ['\n'], body, "", Marker(FUNCTIONS));
    assert body + "" == body;
  }

  /** The first occurrence of a marker behind a table that ends in a blank: behind the table, or within it. */
  lemma FirstFound(table: string, marker: string, after: string) returns (c: nat)
    requires table != "" && table[|table| - 1] == ' ' && ' ' !in marker && marker != ""
    ensures var rest := table + (marker + after);
            && c <= |table| && OccursAt(rest, marker, c) && (forall q :: 0 <= q < c ==> !OccursAt(rest, marker, q))
    ensures c < |table| ==> OccursAt(table, marker, c)
    ensures c < |table| <==> Occurs(table, marker)
  {
    var rest := table + (marker + after);
    var front := table[..|table| - 1];
    assert rest == front + [' '] + (marker + after) && table == front + [' '];
    assert OccursAt(marker, marker, 0);
    hide OccursAt;
    OccursInPrefix(marker, after, marker, 0);
    OccursShifted(table, marker + after, marker, 0);
    FindFromFound(rest, marker, 0);
    c := FindFrom(rest, marker, 0);
    OccursBeside(front, ' ', marker + after, marker, c);
    if c < |table| {
      OccursInPrefix(front, [' '], marker, c);
    } else if p :| 0 <= p <= |table| && OccursAt(table, marker, p) {
      OccursInPrefix(table, marker + after, marker, p);
      AtLeastOne(table, marker, p);
    }
  }

  lemma AtLeastOne(s: string, text: string, p: nat)
    requires OccursAt(s, text, p) && text != ""
    ensures p < |s|
  {
  }

  /** The first marker from the table on: behind the table, or in one of its strings. */
  lemma FirstMarker(m: map<Function, ExtensionFunction>, keys: seq<Function>, after: string) returns (c: nat)
    requires forall k :: 0 <= k < |keys| ==> keys[k] in m
    ensures var table := FunctionTable(m, keys);
            var rest := table + (Marker(FUNCTIONS) + after);
            && c <= |table| && OccursAt(rest, Marker(FUNCTIONS), c)
            && (forall q :: 0 <= q < c ==> !OccursAt(rest, Marker(FUNCTIONS), q))
            && (c < |table| <==> Occurs(table, Marker(FUNCTIONS)))
            && (c < |table| ==> OccursAt(table, Marker(FUNCTIONS), c))
  {
    MarkerChars();
    TableEndsBlank(m, keys);
    hide Marker, FunctionTable, OccursAt, Occurs;
    c := FirstFound(FunctionTable(m, keys), Marker(FUNCTIONS), after);
  }

  lemma TableEndsBlank(m: map<Function, ExtensionFunction>, keys: seq<Function>)
    requires forall k :: 0 <= k < |keys| ==> keys[k] in m
    ensures FunctionTable(m, keys) != "" && FunctionTable(m, keys)[|FunctionTable(m, keys)| - 1] == ' '
  {
  }

  /** Writing a function map into a file, cutting its table out again by its name and the marker behind it, and parsing
      that, restores the map exactly if it is not empty, its strings are not empty, hold no quote and have no blanks
      around them, and none of them holds the marker; provided the file has the name and the marker no earlier. */
  lemma FunctionFileRoundTrip(before: string, m: map<Function, ExtensionFunction>, keys: seq<Function>, after: string)
    requires ValidMap(m) && Enumerates(keys, m)
    requires forall k :: 0 <= k < |keys| ==> keys[k] in m
    requires FirstInFile(before, FileWith(before, m, keys, after))
    ensures CreateMap(Read(START, GetSliceOfFile(FUNCTIONS, FileWith(before, m, keys, after))).records) == Some(m) <==>
              m != map[] && AllEntriesPlain(m) && forall f :: f in m ==> !Marked(m[f])
  {
    var table := FunctionTable(m, keys);
    var c := FirstMarker(m, keys, after);
    var rest := table + (Marker(FUNCTIONS) + after);
    NameStandsFirst(m, keys, after);
    hide Marker, Occurs, OccursAt, Marked, PlainEntry, Read, ValidMap, FunctionTable;
    SliceFromTable(before, FileWith(before, m, keys, after), rest, c);
    assert rest[..c] == table[..c];
    var parsed := Read(START, table[..c]).records;
    if AllEntriesPlain(m) {
      if c < |table| {
        MarkerInTable(m, keys, c);
        TableEnds(m, keys);
        CutTable(m, keys, table, c);
      } else {
        assert table[..c] == table;
        forall f | f in m ensures !Marked(m[f]) {
          if Marked(m[f]) {
            MarkedInTable(m, keys, f);
          }
        }
        WholeTable(m, keys);
      }
    } else if CreateMap(parsed) == Some(m) {
      ParsedIsPlain(m, table[..c]);
    }
  }

  lemma WholeTable(m: map<Function, ExtensionFunction>, keys: seq<Function>)
    requires ValidMap(m) && Enumerates(keys, m) && forall k :: 0 <= k < |keys| ==> keys[k] in m
    ensures CreateMap(Read(START, FunctionTable(m, keys)).records) == Some(m) <==> m != map[] && AllEntriesPlain(m)
  {
    FunctionTableRoundTrip(m, keys);
  }

  lemma ParsedIsPlain(m: map<Function, ExtensionFunction>, text: string)
    requires CreateMap(Read(START, text).records) == Some(m)
    ensures AllEntriesPlain(m)
  {
    ReadKeepsPlain(START, text);
    forall f | f in m ensures PlainEntry(m[f]) {
      MapIsPlain(Read(START, text).records, f);
    }
  }

  lemma NameStandsFirst(m: map<Function, ExtensionFunction>, keys: seq<Function>, after: string)
    requires forall k :: 0 <= k < |keys| ==> keys[k] in m
    ensures OccursAt(FunctionTable(m, keys) + (Marker(FUNCTIONS) + after), FUNCTIONS, 0)
  {
  }
}
