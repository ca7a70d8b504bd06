/** Array indices of 19 digits or more: the reader stops after 19 digits and takes whatever follows for the bracket. */
module JsonPathOverrun {
  import opened Sequences
  import opened JsonPathSpec
  import opened JsonPath
  import opened JsonPathPrinting

  // ----- an index that is not closed -----

  /** What may stand between the bracket and the digits; with it, the index counts from the back. */
  predicate IsSign(sign: string) {
    sign == "" || sign == "-" || sign == "#-"
  }

  /** Where the digits of an index start. */
  lemma FindNumber(s: string, p: nat, sign: string)
    requires p < |s| && IsSign(sign) && Continues(s, p, "[" + sign) && p + 1 < |s|
    requires sign == "" ==> s[p + 1] !in {'*', '#', '-'}
    ensures s[p] == '[' && IndexReadAt(s, p + 1) == NumberRead(s, p + 1 + |sign|, sign != "")
  {
    hide NumberRead;
    ContinuesAt(s, p, "[" + sign, 0);
    if sign != "" {
      ContinuesAt(s, p, "[" + sign, 1);
      if sign == "#-" {
        ContinuesAt(s, p, "[" + sign, 2);
      }
    }
  }

  lemma StopAfterSafeDigits(s: string, p: nat, value: nat)
    requires p <= |s| && value < Pow10(SAFE_DIGITS)
    ensures IntegerAt(s, p, SAFE_DIGITS, value) == Some((p, value))
  {
  }

  /** Of an index of 19 digits or more, the first 19 are read, and the path goes on behind one more character, whatever
      that character is. */
  lemma UncheckedBracket(s: string, p: nat, sign: string, ds: string)
    requires IsSign(sign) && AllDigits(ds) && |ds| == SAFE_DIGITS && Continues(s, p, "[" + sign + ds)
    ensures Parse(s, p) == Before([Index(ValueAfter(ds, 0), sign != "")], Parse(s, p + 2 + |sign| + SAFE_DIGITS))
  {
    hide IntegerAt, Pow10, Parse, ValueAfter;
    var q := p + 1 + |sign|;
    ContinuesSplit(s, p, "[" + sign, ds);
    ContinuesAt(s, q, ds, 0);
    FindNumber(s, p, sign);
    IntegerReadsDigits(s, q, ds, SAFE_DIGITS);
    assert ds[..SAFE_DIGITS] == ds;
    StopAfterSafeDigits(s, q + SAFE_DIGITS, ValueAfter(ds, 0));
    ParseTurn(s, p);
  }

  /** Fewer digits with nothing behind them are no number. */
  lemma {:induction false} ShortToTheEnd(s: string, p: nat, digits: nat, value: nat)
    requires p <= |s| && digits <= SAFE_DIGITS && value < Pow10(digits)
    requires AllDigits(s[p..]) && digits + |s| - p < SAFE_DIGITS
    ensures IntegerAt(s, p, digits, value).None?
    decreases |s| - p
  {
    if p < |s| {
      assert IsDigit(s[p..][0]);
      assert s[p + 1..] == s[p..][1..];
      IntegerTurn(s, p, digits, value);
      ShortToTheEnd(s, p + 1, digits + 1, DigitValue(s[p]) + value * 10);
    }
  }

  /** An index at the end of a path without its bracket: 19 digits take the cursor past the end, 20 are accepted as the
      first 19 of them, and any other number of digits is refused. */
  lemma UnclosedIndex(s: string, p: nat, sign: string, ds: string)
    requires IsSign(sign) && AllDigits(ds) && Continues(s, p, "[" + sign + ds) && p + 1 + |sign| + |ds| == |s|
    ensures Parse(s, p) == if |ds| == SAFE_DIGITS then Overrun
                           else if |ds| == SAFE_DIGITS + 1
                           then Path([Index(ValueAfter(ds[..SAFE_DIGITS], 0), sign != "")])
                           else PathError
  {
    hide IntegerAt, Pow10, Parse, ValueAfter;
    var q := p + 1 + |sign|;
    ContinuesSplit(s, p, "[" + sign, ds);
    assert s[q..] == ds;
    if p + 1 == |s| {
      ParseTurn(s, p);
    } else if |ds| < SAFE_DIGITS {
      if sign == "" {
        ContinuesAt(s, q, ds, 0);
      }
      FindNumber(s, p, sign);
      OneIsLess();
      ShortToTheEnd(s, q, 0, 0);
      ParseTurn(s, p);
    } else {
      var first := ds[..SAFE_DIGITS];
      assert "[" + sign + ds == ("[" + sign + first) + ds[SAFE_DIGITS..];
      ContinuesSplit(s, p, "[" + sign + first, ds[SAFE_DIGITS..]);
      assert first == ds || |ds| > SAFE_DIGITS;
      UncheckedBracket(s, p, sign, first);
      var next := q + SAFE_DIGITS + 1;
      ParseTurn(s, next);
      if next < |s| {
        assert IsDigit(ds[SAFE_DIGITS + 1]) && s[next] == ds[SAFE_DIGITS + 1];
      }
    }
  }

  lemma OneIsLess()
    ensures 0 < Pow10(0)
  {
  }

  // ----- a bracket behind the text -----

  const CLOSE: string := "]"

  lemma {:induction false} BareEndClosed(s: string, p: nat)
    requires p <= |s|
    ensures BareEnd(s + CLOSE, p) == if BareEnd(s, p) < |s| then BareEnd(s, p) else |s| + 1
    decreases |s| - p
  {
    var t := s + CLOSE;
    if p == |s| {
      assert t[p] == ']' && BareEnd(t, p + 1) == p + 1;
    } else if s[p] != '.' && s[p] != '[' {
      BareEndClosed(s, p + 1);
    }
  }

  lemma {:induction false} ReadQuotedClosed(s: string, p: nat, backslash: bool)
    requires p <= |s|
    ensures ReadQuoted(s + CLOSE, p, backslash) == ReadQuoted(s, p, backslash)
    decreases |s| - p
  {
    var t := s + CLOSE;
    if p == |s| {
      assert t[p] == ']' && ReadQuoted(t, p + 1, false) == Unclosed;
    } else if backslash {
      ReadQuotedClosed(s, p + 1, false);
    } else if s[p] == '\\' {
      ReadQuotedClosed(s, p + 1, true);
    } else if s[p] != '"' {
      ReadQuotedClosed(s, p + 1, false);
    }
  }

  /** A key is read the same, unless it is a bare one that takes the bracket. */
  predicate SameKey(s: string, p: nat, k: KeyRead, k': KeyRead) {
    k' == k || (p + k'.charsRead == |s| + 1 && (!k.IsValid() || p + k.charsRead == |s|))
  }

  lemma PlainKeyClosed(s: string, p: nat)
    requires p <= |s|
    ensures SameKey(s, p, PlainKeyRead(s, p), PlainKeyRead(s + CLOSE, p))
  {
    var t := s + CLOSE;
    hide BareEnd, ReadQuoted;
    if p < |s| && s[p] == '"' {
      ReadQuotedClosed(s, p + 1, false);
      assert CharAt(t, p) == '"';
    } else {
      BareEndClosed(s, p);
      assert CharAt(s, p) != '"' && CharAt(t, p) != '"';
      assert BareEnd(s, p) < |s| ==> t[p..BareEnd(s, p)] == s[p..BareEnd(s, p)];
    }
  }

  lemma KeyClosed(s: string, p: nat)
    requires p < |s|
    ensures SameKey(s, p, KeyReadAt(s, p), KeyReadAt(s + CLOSE, p))
  {
    hide PlainKeyRead;
    PlainKeyClosed(s, p);
    PlainKeyClosed(s, p + 1);
    assert forall i :: 0 <= i < |s| ==> (s + CLOSE)[i] == s[i];
  }

  lemma {:induction false} IntegerClosed(s: string, p: nat, digits: nat, value: nat)
    requires p <= |s| && digits <= SAFE_DIGITS && value < Pow10(digits)
    ensures var n, n' := IntegerAt(s, p, digits, value), IntegerAt(s + CLOSE, p, digits, value);
            n' == n || (n.None? && n'.Some? && n'.value.0 == |s|)
    decreases SAFE_DIGITS - digits
  {
    var t := s + CLOSE;
    if digits < SAFE_DIGITS && p < |s| && s[p] != ']' && IsDigit(s[p]) {
      hide IntegerAt, Pow10;
      IntegerTurn(s, p, digits, value);
      IntegerTurn(t, p, digits, value);
      IntegerClosed(s, p + 1, digits + 1, DigitValue(s[p]) + value * 10);
    }
  }

  /** An index is read the same, unless it takes the bracket. */
  predicate SameIndex(s: string, r: IndexRead, r': IndexRead) {
    r' == r || (r.NoIndex? && r'.IndexRead? && r'.next == |s| + 1)
  }

  lemma NumberClosed(s: string, p: nat, fromBack: bool)
    requires p <= |s|
    ensures SameIndex(s, NumberRead(s, p, fromBack), NumberRead(s + CLOSE, p, fromBack))
  {
    OneIsLess();
    hide IntegerAt, Pow10;
    IntegerClosed(s, p, 0, 0);
  }

  lemma IndexClosed(s: string, p: nat)
    requires p < |s|
    ensures SameIndex(s, IndexReadAt(s, p), IndexReadAt(s + CLOSE, p))
  {
    hide NumberRead;
    var t := s + CLOSE;
    assert t[p] == s[p] && (p + 1 < |s| ==> t[p + 1] == s[p + 1]);
    NumberClosed(s, p, false);
    NumberClosed(s, p + 1, true);
    if p + 1 < |s| {
      NumberClosed(s, p + 2, true);
    }
  }

  // ----- paths that are read past their end -----

  /** The text ends in an index of 19 digits without its bracket. */
  predicate OpenIndexAt(s: string, u: nat, sign: string) {
    && IsSign(sign) && u + 1 + |sign| + SAFE_DIGITS == |s|
    && Continues(s, u, "[" + sign) && AllDigits(s[u + 1 + |sign|..])
  }

  ghost predicate EndsInOpenIndex(s: string) {
    exists u, sign :: OpenIndexAt(s, u, sign)
  }

  lemma {:induction false} IntegerToTheEnd(s: string, p: nat, digits: nat, value: nat)
    requires p <= |s| && digits <= SAFE_DIGITS && value < Pow10(digits)
    requires IntegerAt(s, p, digits, value).Some? && IntegerAt(s, p, digits, value).value.0 == |s|
    ensures p + SAFE_DIGITS - digits == |s| && AllDigits(s[p..])
    decreases SAFE_DIGITS - digits
  {
    if digits < SAFE_DIGITS {
      IntegerTurn(s, p, digits, value);
      IntegerToTheEnd(s, p + 1, digits + 1, DigitValue(s[p]) + value * 10);
      assert s[p..] == [s[p]] + s[p + 1..];
    }
  }

  lemma NumberToTheEnd(s: string, p: nat, fromBack: bool)
    requires p <= |s| && NumberRead(s, p, fromBack).IndexRead? && NumberRead(s, p, fromBack).next == |s| + 1
    ensures p + SAFE_DIGITS == |s| && AllDigits(s[p..])
  {
    OneIsLess();
    hide IntegerAt, Pow10;
    IntegerToTheEnd(s, p, 0, 0);
  }

  /** An index that takes the cursor past the end. */
  lemma IndexToTheEnd(s: string, p: nat)
    requires p + 1 < |s| && s[p] == '['
    requires IndexReadAt(s, p + 1).IndexRead? && IndexReadAt(s, p + 1).next == |s| + 1
    ensures EndsInOpenIndex(s)
  {
    hide NumberRead;
    var sign := if s[p + 1] == '#' then "#-" else if s[p + 1] == '-' then "-" else "";
    var q := p + 1 + |sign|;
    NumberToTheEnd(s, q, sign != "");
    assert s[p..p + |"[" + sign|] == "[" + sign;
    assert OpenIndexAt(s, p, sign);
  }

  lemma {:induction false} OverrunEndsInDigits(s: string, p: nat)
    requires p <= |s| && Parse(s, p) == Overrun
    ensures EndsInOpenIndex(s) && Parse(s + CLOSE, p).Path?
    decreases |s| - p
  {
    var t := s + CLOSE;
    hide Parse, KeyReadAt, IndexReadAt, EndsInOpenIndex, KeySteps;
    ParseTurn(s, p);
    ParseTurn(t, p);
    assert t[p] == s[p];
    if s[p] == '.' {
      KeyClosed(s, p + 1);
      var next := p + 1 + KeyReadAt(s, p + 1).charsRead;
      ParseTurn(s, next);
      OverrunEndsInDigits(s, next);
    } else {
      IndexClosed(s, p + 1);
      var next := IndexReadAt(s, p + 1).next;
      if next <= |s| {
        OverrunEndsInDigits(s, next);
      } else {
        IndexToTheEnd(s, p);
        ParseTurn(t, next);
      }
    }
  }

  // ----- and only those -----

  lemma {:induction false} BareEndStops(t: string, p: nat, u: nat)
    requires p <= u < |t| && t[u] == '['
    ensures BareEnd(t, p) <= u
    decreases u - p
  {
    if p < u && t[p] != '.' && t[p] != '[' {
      BareEndStops(t, p + 1, u);
    }
  }

  lemma {:induction false} QuoteEnds(t: string, p: nat, backslash: bool)
    requires p <= |t| && ReadQuoted(t, p, backslash).Closed?
    ensures t[ReadQuoted(t, p, backslash).end] == '"'
    decreases |t| - p
  {
    if backslash {
      QuoteEnds(t, p + 1, false);
    } else if t[p] == '\\' {
      QuoteEnds(t, p + 1, true);
    } else if t[p] != '"' {
      QuoteEnds(t, p + 1, false);
    }
  }

  /** No key reaches into an index behind which there are no quotes. */
  lemma KeyStops(t: string, p: nat, u: nat)
    requires p <= u < |t| && t[u] == '[' && forall i :: u <= i < |t| ==> t[i] != '"'
    requires KeyReadAt(t, p).IsValid()
    ensures p + KeyReadAt(t, p).charsRead <= u
  {
    var q := if t[p] == '.' then p + 1 else p;
    hide ReadQuoted, BareEnd;
    if q <= u {
      BareEndStops(t, q, u);
    }
    if q + 1 <= |t| && ReadQuoted(t, q + 1, false).Closed? {
      QuoteEnds(t, q + 1, false);
    }
  }

  lemma {:induction false} IntegerStops(t: string, p: nat, digits: nat, value: nat, u: nat)
    requires p <= u < |t| && t[u] == '[' && digits <= SAFE_DIGITS && value < Pow10(digits)
    requires IntegerAt(t, p, digits, value).Some?
    ensures IntegerAt(t, p, digits, value).value.0 <= u
    decreases u - p
  {
    if p < u && digits < SAFE_DIGITS && t[p] != ']' {
      assert IsDigit(t[p]);
      hide IntegerAt, Pow10;
      IntegerTurn(t, p, digits, value);
      IntegerStops(t, p + 1, digits + 1, DigitValue(t[p]) + value * 10, u);
    }
  }

  lemma NumberStops(t: string, p: nat, fromBack: bool, u: nat)
    requires p <= u < |t| && t[u] == '[' && NumberRead(t, p, fromBack).IndexRead?
    ensures NumberRead(t, p, fromBack).next <= u + 1
  {
    OneIsLess();
    hide IntegerAt, Pow10;
    IntegerStops(t, p, 0, 0, u);
  }

  /** An index takes at most the bracket of the next one for its own. */
  lemma IndexStops(t: string, p: nat, u: nat)
    requires p <= u < |t| && t[u] == '[' && IndexReadAt(t, p).IndexRead?
    ensures IndexReadAt(t, p).next <= u + 1
  {
    hide NumberRead;
    if t[p] == '#' {
      assert p < u;
      if t[p + 1] == '-' {
        assert p + 1 < u;
        NumberStops(t, p + 2, true, u);
      }
    } else if t[p] == '-' {
      NumberStops(t, p + 1, true, u);
    } else if t[p] != '*' {
      NumberStops(t, p, false, u);
    }
  }

  /** What an open index looks like, character by character. */
  lemma OpenIndexChars(s: string, u: nat, sign: string)
    requires OpenIndexAt(s, u, sign)
    ensures u + 1 < |s| && s[u] == '[' && s[u + 1] !in ".[" && forall i :: u <= i < |s| ==> s[i] != '"'
  {
    var q := u + 1 + |sign|;
    forall i | 0 <= i <= |sign| ensures s[u + i] == ("[" + sign)[i] {
      ContinuesAt(s, u, "[" + sign, i);
    }
    forall i | q <= i < |s| ensures IsDigit(s[i]) {
      assert s[q..][i - q] == s[i];
    }
    forall i | u <= i < |s| ensures s[i] != '"' {
      if i < q {
        assert s[u + (i - u)] == ("[" + sign)[i - u];
      }
    }
    if sign != "" {
      assert s[u + 1] == ("[" + sign)[1];
    }
  }

  lemma OpenIndexOverruns(s: string, u: nat, sign: string)
    requires OpenIndexAt(s, u, sign)
    ensures Parse(s, u) == Overrun
  {
    var ds := s[u + 1 + |sign|..];
    assert s[u..u + |"[" + sign + ds|] == s[u..u + |"[" + sign|] + ds;
    assert ds != [];
    UnclosedIndex(s, u, sign, ds);
  }

  /** A step in front of the open index: it is the same with and without the bracket. */
  lemma ClosingStep(s: string, p: nat, u: nat) returns (next: nat)
    requires p < u && u + 1 < |s| && s[u] == '[' && s[u + 1] !in ".[" && forall i :: u <= i < |s| ==> s[i] != '"'
    requires Parse(s + CLOSE, p).Path?
    ensures p < next <= u && Parse(s + CLOSE, next).Path?
    ensures Parse(s, next) == Overrun ==> Parse(s, p) == Overrun
  {
    var t := s + CLOSE;
    hide Parse, KeyReadAt, IndexReadAt, KeySteps;
    assert t[p] == s[p] && t[u] == '[' && t[u + 1] == s[u + 1];
    ParseTurn(s, p);
    ParseTurn(t, p);
    if s[p] == '.' {
      KeyClosed(s, p + 1);
      KeyStops(t, p + 1, u);
      next := p + 1 + KeyReadAt(t, p + 1).charsRead;
    } else {
      ParseTurn(t, u + 1);
      IndexClosed(s, p + 1);
      IndexStops(t, p + 1, u);
      next := IndexReadAt(t, p + 1).next;
    }
  }

  lemma {:induction false} ClosingMends(s: string, p: nat, u: nat, sign: string)
    requires p <= u && OpenIndexAt(s, u, sign) && Parse(s + CLOSE, p).Path?
    ensures Parse(s, p) == Overrun
    decreases u - p
  {
    hide Parse, OpenIndexAt;
    OpenIndexChars(s, u, sign);
    if p == u {
      OpenIndexOverruns(s, u, sign);
    } else {
      var next := ClosingStep(s, p, u);
      ClosingMends(s, next, u, sign);
    }
  }

  /** The cursor moves past the end of a path exactly if the path ends in an index of 19 digits without its bracket,
      and the bracket would make it a path. */
  lemma OverrunExactly(s: string)
    requires s != "" && s[0] == '$'
    ensures Parse(s, 1) == Overrun <==> Parse(s + CLOSE, 1).Path? && EndsInOpenIndex(s)
  {
    hide Parse, OpenIndexAt;
    if Parse(s, 1) == Overrun {
      OverrunEndsInDigits(s, 1);
    }
    if Parse(s + CLOSE, 1).Path? && EndsInOpenIndex(s) {
      var u, sign :| OpenIndexAt(s, u, sign);
      OpenIndexChars(s, u, sign);
      ClosingMends(s, 1, u, sign);
    }
  }
}
