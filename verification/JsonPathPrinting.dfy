/** Printing plain steps as a path text, and reading the text back. */
module JsonPathPrinting {
  import opened Sequences
  import opened JsonPathSpec
  import opened JsonPathMeaning
  import opened JsonPath

  // ----- the printer -----

  function Escape(key: string): string {
    if key == "" then ""
    else (if key[0] == '"' || key[0] == '\\' then ['\\', key[0]] else [key[0]]) + Escape(key[1..])
  }

  function DigitChar(d: nat): (c: char)
    requires d < 10
    ensures IsDigit(c) && DigitValue(c) == d
  {
    ('0' as int + d) as char
  }

  function Decimal(n: nat): string {
    if n < 10 then [DigitChar(n)] else Decimal(n / 10) + [DigitChar(n % 10)]
  }

  /** Keys are always quoted; an index from the back is written the SQLite way. */
  function PrintStep(step: Step): string
    requires Plain(step)
  {
    match step
    case Key(key) => ".\"" + Escape(key) + "\""
    case Index(index, fromBack) => "[" + (if fromBack then "#-" else "") + Decimal(index) + "]"
  }

  function PrintSteps(steps: seq<Step>): string
    requires AllPlain(steps)
  {
    if steps == [] then "" else
    assert Plain(steps[0]);
    PrintStep(steps[0]) + PrintSteps(steps[1..])
  }

  /** A step that survives printing: its key is not empty, or its index has at most 19 digits. */
  predicate Printable(step: Step) {
    match step
    case Key(key) => key != ""
    case Index(index, _) => index < Pow10(SAFE_DIGITS)
    case _ => false
  }

  predicate AllPrintable(steps: seq<Step>) {
    forall k :: 0 <= k < |steps| ==> Printable(steps[k])
  }

  /** A quoted star is read as a wildcard all the same. */
  function AsRead(step: Step): Step {
    if step == Key("*") then AnyKey else step
  }

  function AllAsRead(steps: seq<Step>): (r: seq<Step>)
    ensures |r| == |steps| && forall k :: 0 <= k < |r| ==> r[k] == AsRead(steps[k])
  {
    if steps == [] then [] else [AsRead(steps[0])] + AllAsRead(steps[1..])
  }

  // ----- reading it back -----

  /** `s` continues with `text` at position `p`. */
  predicate Continues(s: string, p: nat, text: string) {
    p + |text| <= |s| && s[p..p + |text|] == text
  }

  lemma ContinuesAt(s: string, p: nat, text: string, k: nat)
    requires Continues(s, p, text) && k < |text|
    ensures s[p + k] == text[k]
  {
    assert s[p..p + |text|][k] == text[k];
  }

  lemma ContinuesSplit(s: string, p: nat, a: string, b: string)
    requires Continues(s, p, a + b)
    ensures Continues(s, p, a) && Continues(s, p + |a|, b)
  {
    assert (a + b)[..|a|] == a && (a + b)[|a|..] == b;
    assert s[p..p + |a|] == s[p..p + |a + b|][..|a|];
    assert s[p + |a|..p + |a| + |b|] == s[p..p + |a + b|][|a|..];
  }

  lemma {:induction false} ReadEscaped(s: string, p: nat, key: string)
    requires Continues(s, p, Escape(key) + "\"")
    ensures ReadQuoted(s, p, false) == Closed(key, p + |Escape(key)|)
    decreases key
  {
    hide *;
    EscapeTurn(key);
    if key == "" {
      ReadClosingQuote(s, p);
    } else {
      var c, rest := EscapeChar(key[0]), Escape(key[1..]) + "\"";
      assert Escape(key) + "\"" == c + rest;
      assert key == [key[0]] + key[1..];
      ContinuesSplit(s, p, c, rest);
      ReadEscaped(s, p + |c|, key[1..]);
      ReadEscapedChar(s, p, key[0]);
      PrependClosed([key[0]], key[1..], p + |c| + |Escape(key[1..])|);
    }
  }

  lemma ReadClosingQuote(s: string, p: nat)
    requires Continues(s, p, Escape("") + "\"")
    ensures ReadQuoted(s, p, false) == Closed("", p)
  {
    ContinuesAt(s, p, "\"", 0);
  }

  function EscapeChar(c: char): (e: string)
    ensures e != ""
  {
    if c == '"' || c == '\\' then ['\\', c] else [c]
  }

  lemma EscapeTurn(key: string)
    ensures Escape(key) == if key == "" then "" else EscapeChar(key[0]) + Escape(key[1..])
  {
  }

  lemma PrependClosed(a: string, b: string, end: nat)
    ensures Prepend(a, Closed(b, end)) == Closed(a + b, end)
  {
  }

  /** One character of a key, read back. */
  lemma ReadEscapedChar(s: string, p: nat, c: char)
    requires Continues(s, p, EscapeChar(c))
    ensures p + |EscapeChar(c)| <= |s|
    ensures ReadQuoted(s, p, false) == Prepend([c], ReadQuoted(s, p + |EscapeChar(c)|, false))
  {
    hide ReadQuoted, Prepend;
    ContinuesAt(s, p, EscapeChar(c), 0);
    QuotedTurn(s, p, false);
    if |EscapeChar(c)| == 2 {
      ContinuesAt(s, p, EscapeChar(c), 1);
      QuotedTurn(s, p + 1, true);
    }
  }

  predicate AllDigits(ds: string) {
    forall k :: 0 <= k < |ds| ==> IsDigit(ds[k])
  }

  /** The value of a digit string read after a number `acc`. */
  function ValueAfter(ds: string, acc: nat): nat
    requires AllDigits(ds)
  {
    if ds == "" then acc else ValueAfter(ds[..|ds| - 1], acc) * 10 + DigitValue(ds[|ds| - 1])
  }

  lemma {:induction false} DecimalDigits(n: nat)
    ensures AllDigits(Decimal(n)) && Decimal(n) != "" && ValueAfter(Decimal(n), 0) == n
    ensures n < Pow10(|Decimal(n)|)
    ensures |Decimal(n)| > 1 ==> Pow10(|Decimal(n)| - 1) <= n
  {
    if n >= 10 {
      DecimalDigits(n / 10);
      var ds := Decimal(n);
      assert ds[..|ds| - 1] == Decimal(n / 10);
      if |Decimal(n / 10)| == 1 {
        assert Pow10(1) == 10;
      }
    } else {
      assert Decimal(n)[..0] == "";
      assert Pow10(1) == 10;
    }
  }

  lemma DecimalLength(n: nat)
    ensures n < Pow10(SAFE_DIGITS) <==> |Decimal(n)| <= SAFE_DIGITS
  {
    hide Pow10, Decimal, ValueAfter;
    DecimalDigits(n);
    if |Decimal(n)| <= SAFE_DIGITS {
      PowGrows(|Decimal(n)|, SAFE_DIGITS);
    } else {
      PowGrows(SAFE_DIGITS, |Decimal(n)| - 1);
    }
  }

  /** Reading the first `k` digits of `ds`. */
  lemma {:induction false} IntegerReadsDigits(s: string, p: nat, ds: string, k: nat)
    requires Continues(s, p, ds) && AllDigits(ds) && k <= |ds| && k <= SAFE_DIGITS
    ensures ValueAfter(ds[..k], 0) < Pow10(k)
    ensures IntegerAt(s, p, 0, 0) == IntegerAt(s, p + k, k, ValueAfter(ds[..k], 0))
  {
    hide IntegerAt, Pow10;
    if k == 0 {
      assert ds[..0] == "";
    } else {
      IntegerReadsDigits(s, p, ds, k - 1);
      ContinuesAt(s, p, ds, k - 1);
      assert ds[..k][..k - 1] == ds[..k - 1];
      var v := ValueAfter(ds[..k - 1], 0);
      assert ValueAfter(ds[..k], 0) == v * 10 + DigitValue(ds[k - 1]);
      hide ValueAfter, Continues;
      IntegerTurn(s, p + k - 1, k - 1, v);
    }
  }

  /** IntegerAt on a digit, unfolded once. */
  lemma IntegerTurn(s: string, p: nat, digits: nat, value: nat)
    requires p < |s| && IsDigit(s[p]) && digits < SAFE_DIGITS && value < Pow10(digits)
    ensures DigitValue(s[p]) + value * 10 < Pow10(digits + 1)
    ensures IntegerAt(s, p, digits, value) == IntegerAt(s, p + 1, digits + 1, DigitValue(s[p]) + value * 10)
  {
  }

  /** A printed index is read back if it has at most 19 digits. */
  lemma ReadPrintedNumber(s: string, p: nat, n: nat, fromBack: bool)
    requires Continues(s, p, Decimal(n) + "]") && n < Pow10(SAFE_DIGITS)
    ensures NumberRead(s, p, fromBack) == IndexRead(p + |Decimal(n)| + 1, Index(n, fromBack))
  {
    hide Decimal, ValueAfter, Pow10, Parse;
    var ds := Decimal(n);
    DecimalDigits(n);
    DecimalLength(n);
    ContinuesSplit(s, p, ds, "]");
    ContinuesAt(s, p + |ds|, "]", 0);
    IntegerReadsDigits(s, p, ds, |ds|);
    assert ds[..|ds|] == ds;
  }

  /** The reader skips the twentieth character of a longer index as if it were the bracket, and then finds no step. */
  lemma ReadLongNumber(s: string, p: nat, n: nat, fromBack: bool)
    requires Continues(s, p, Decimal(n) + "]") && n >= Pow10(SAFE_DIGITS)
    ensures NumberRead(s, p, fromBack).IndexRead?
    ensures Parse(s, NumberRead(s, p, fromBack).next) == PathError
  {
    hide Decimal, ValueAfter, Pow10, Parse;
    var ds := Decimal(n);
    DecimalDigits(n);
    DecimalLength(n);
    ContinuesSplit(s, p, ds, "]");
    ContinuesAt(s, p + |ds|, "]", 0);
    IntegerReadsDigits(s, p, ds, SAFE_DIGITS);
    var next := p + SAFE_DIGITS + 1;
    if SAFE_DIGITS + 1 < |ds| {
      ContinuesAt(s, p, ds, SAFE_DIGITS + 1);
    }
    assert s[next] == ']' || IsDigit(s[next]);
    ParseTurn(s, next);
  }

  /** A printed key, read back. */
  lemma ReadPrintedKey(s: string, p: nat, key: string)
    requires Continues(s, p, PrintStep(Key(key)))
    ensures Parse(s, p) == if key != "" then Before([AsRead(Key(key))], Parse(s, p + |PrintStep(Key(key))|)) else PathError
  {
    hide Parse, KeyReadAt, Escape, Continues;
    ReadPrintedKeyText(s, p, key);
    ParseTurn(s, p);
  }

  lemma ReadPrintedKeyText(s: string, p: nat, key: string)
    requires Continues(s, p, PrintStep(Key(key)))
    ensures p + 1 < |s| && s[p] == '.'
    ensures var length := |PrintStep(Key(key))|;
            if key != "" then KeyReadAt(s, p + 1) == KeyRead(length - 1, false, key) else !KeyReadAt(s, p + 1).IsValid()
  {
    hide ReadQuoted, Escape;
    var text := Escape(key) + "\"";
    assert PrintStep(Key(key)) == ".\"" + text;
    ContinuesSplit(s, p, ".\"", text);
    ContinuesAt(s, p, ".\"", 0);
    ContinuesAt(s, p, ".\"", 1);
    hide Continues;
    ReadEscaped(s, p + 2, key);
    EscapeLength(key);
  }

  lemma EscapeLength(key: string)
    ensures |Escape(key)| == 0 <==> key == ""
  {
  }

  /** Where the number of a printed index starts. */
  lemma PrintedIndex(n: nat, fromBack: bool)
    ensures PrintStep(Index(n, fromBack)) == ("[" + (if fromBack then "#-" else "")) + (Decimal(n) + "]")
  {
    hide Decimal;
  }

  lemma FindPrintedNumber(s: string, p: nat, n: nat, fromBack: bool) returns (q: nat)
    requires Continues(s, p, PrintStep(Index(n, fromBack)))
    ensures q <= |s| && s[p] == '[' && p + 1 < |s| && IndexReadAt(s, p + 1) == NumberRead(s, q, fromBack)
    ensures Continues(s, q, Decimal(n) + "]") && q + |Decimal(n)| + 1 == p + |PrintStep(Index(n, fromBack))|
  {
    PrintedIndex(n, fromBack);
    hide NumberRead, Decimal, Continues, PrintStep;
    var sign := if fromBack then "#-" else "";
    ContinuesSplit(s, p, "[" + sign, Decimal(n) + "]");
    q := p + 1 + |sign|;
    DecimalDigits(n);
    ContinuesAt(s, q, Decimal(n) + "]", 0);
    assert IsDigit(s[q]);
    ContinuesAt(s, p, "[" + sign, 0);
    if fromBack {
      ContinuesAt(s, p, "[" + sign, 1);
      ContinuesAt(s, p, "[" + sign, 2);
    }
  }

  /** A printed index, read back. */
  lemma ReadPrintedIndex(s: string, p: nat, n: nat, fromBack: bool)
    requires Continues(s, p, PrintStep(Index(n, fromBack)))
    ensures Parse(s, p) == if n < Pow10(SAFE_DIGITS)
                           then Before([Index(n, fromBack)], Parse(s, p + |PrintStep(Index(n, fromBack))|)) else PathError
  {
    hide Parse, IndexReadAt, NumberRead, Decimal, Pow10;
    var q := FindPrintedNumber(s, p, n, fromBack);
    ParseTurn(s, p);
    if n < Pow10(SAFE_DIGITS) {
      ReadPrintedNumber(s, q, n, fromBack);
    } else {
      ReadLongNumber(s, q, n, fromBack);
    }
  }

  /** One printed step, read back. */
  lemma ReadPrintedStep(s: string, p: nat, step: Step)
    requires Plain(step) && Continues(s, p, PrintStep(step))
    ensures Parse(s, p) == if Printable(step) then Before([AsRead(step)], Parse(s, p + |PrintStep(step)|)) else PathError
  {
    hide Parse, PrintStep;
    match step
    case Key(key) => ReadPrintedKey(s, p, key);
    case Index(n, fromBack) => ReadPrintedIndex(s, p, n, fromBack);
  }

  lemma AllPrintableTurn(steps: seq<Step>)
    ensures AllPrintable(steps) <==> (steps == [] || (Printable(steps[0]) && AllPrintable(steps[1..])))
  {
    if steps != [] && Printable(steps[0]) && AllPrintable(steps[1..]) {
      forall k | 0 <= k < |steps|
        ensures Printable(steps[k])
      {
        if k > 0 {
          assert steps[k] == steps[1..][k - 1];
        }
      }
    }
  }

  /** The printed text of a list of steps is read back as those steps, or is an error if one is not printable. */
  lemma {:induction false} ReadPrintedSteps(s: string, p: nat, steps: seq<Step>)
    requires AllPlain(steps) && Continues(s, p, PrintSteps(steps)) && p + |PrintSteps(steps)| == |s|
    ensures Parse(s, p) == if AllPrintable(steps) then Path(AllAsRead(steps)) else PathError
    decreases |steps|
  {
    hide Parse, Printable, PrintStep, AllPrintable;
    ParseTurn(s, p);
    AllPrintableTurn(steps);
    if steps != [] {
      var step, rest := steps[0], steps[1..];
      assert Plain(step) && AllPlain(rest);
      hide AllPlain, Plain;
      ContinuesSplit(s, p, PrintStep(step), PrintSteps(rest));
      ReadPrintedStep(s, p, step);
      ReadPrintedSteps(s, p + |PrintStep(step)|, rest);
    }
  }

  /** For every list of plain steps, the printed path is validated, and as a regular path just when every key is
      neither empty nor a star and every index has at most 19 digits; and then it means those very steps. */
  lemma PrintedPath(steps: seq<Step>)
    requires AllPlain(steps)
    ensures var path := Parse("$" + PrintSteps(steps), 1);
            && (TypeOf(path) == Valid(REGULAR) <==> (AllPrintable(steps) && Key("*") !in steps))
            && (TypeOf(path) == Error <==> !AllPrintable(steps))
            && (TypeOf(path) == Valid(REGULAR) ==> path.steps == steps)
  {
    hide Parse, PrintSteps, AllPrintable;
    var s := "$" + PrintSteps(steps);
    assert Continues(s, 1, PrintSteps(steps));
    ReadPrintedSteps(s, 1, steps);
    ReadAsPlain(steps);
  }

  /** What is read back is plain unless a quoted star has become a wildcard. */
  lemma ReadAsPlain(steps: seq<Step>)
    requires AllPlain(steps)
    ensures AllPlain(AllAsRead(steps)) <==> Key("*") !in steps
    ensures Key("*") !in steps ==> AllAsRead(steps) == steps
  {
    var read := AllAsRead(steps);
    if Key("*") in steps {
      var k :| 0 <= k < |steps| && steps[k] == Key("*");
      assert !Plain(read[k]);
    } else {
      forall k | 0 <= k < |steps|
        ensures read[k] == steps[k]
      {
        assert steps[k] in steps;
      }
      assert read == steps;
    }
  }

  /** A printed index selects the element that it counts to, from the front or from the back. */
  lemma PrintedIndexSelects(es: seq<Json>, n: nat, fromBack: bool)
    requires |es| < TWO_TO_THE_64 && n < Pow10(SAFE_DIGITS)
    ensures var path := Parse("$" + PrintStep(Index(n, fromBack)), 1);
            && TypeOf(path) == Valid(REGULAR)
            && LookupAll(path.steps, Arr(es))
               == if !fromBack then (if n < |es| then Some(es[n]) else None)
                  else if n == 0 then (if es == [] then None else Some(es[0]))
                  else if n <= |es| then Some(es[|es| - n]) else None
  {
    hide Parse, PrintStep, Pow10, Lookup;
    var step := Index(n, fromBack);
    assert PrintSteps([step]) == PrintStep(step) + PrintSteps([]) == PrintStep(step);
    assert Printable(step);
    PrintedPath([step]);
    SafeDigits();
    IndexSelects(es, n, fromBack);
    assert LookupAll([step], Arr(es)) == var r := Lookup(step, Arr(es)); if r.None? then None else LookupAll([], r.value);
  }
}
