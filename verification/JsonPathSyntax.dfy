/** All ways of writing the steps of a path, and what each is read as. */
module JsonPathSyntax {
  import opened Sequences
  import opened JsonPathSpec
  import opened JsonPathMeaning
  import opened JsonPath
  import opened JsonPathPrinting

  datatype Sign = NoSign | Minus | HashMinus

  datatype Spelling =
    | Quoted(key: string) | Bare(key: string) | Star
    | DeepQuoted(key: string) | DeepBare(key: string) | DeepStar | DoubleStar | Deep
    | Element(n: nat, sign: Sign) | AnyElement | Hash

  function SignText(sign: Sign): string {
    match sign
    case NoSign => ""
    case Minus => "-"
    case HashMinus => "#-"
  }

  function Text(sp: Spelling): string {
    match sp
    case Quoted(key) => ".\"" + (Escape(key) + "\"")
    case Bare(key) => "." + key
    case Star => ".*"
    case DeepQuoted(key) => "..\"" + (Escape(key) + "\"")
    case DeepBare(key) => ".." + key
    case DeepStar => "..*"
    case DoubleStar => ".**"
    case Deep => ".."
    case Element(n, sign) => ("[" + SignText(sign)) + (Decimal(n) + "]")
    case AnyElement => "[*]"
    case Hash => "[#]"
  }

  /** What the spelling stands for. A star in quotes is a wildcard all the same; `[#]` is an index beyond any array of
      fewer than 2^32 - 1 elements. */
  function Steps(sp: Spelling): seq<Step> {
    match sp
    case Quoted(key) => if key == "*" then [AnyKey] else [Key(key)]
    case Bare(key) => [Key(key)]
    case Star => [AnyKey]
    case DeepQuoted(key) => if key == "*" then [Descend] else [Descend, Key(key)]
    case DeepBare(key) => [Descend, Key(key)]
    case DeepStar => [Descend]
    case DoubleStar => [Descend]
    case Deep => [Descend]
    case Element(n, sign) => [Index(n, sign != NoSign)]
    case AnyElement => [AnyIndex]
    case Hash => [Index(0xFFFF_FFFF, false)]
  }

  /** A key without quotes holds no dot or bracket, and does not start like a quoted one or a wildcard. */
  predicate BareKey(key: string) {
    key != "" && key[0] != '"' && key[0] != '*' && forall k :: 0 <= k < |key| ==> key[k] !in ".["
  }

  predicate WellFormed(sp: Spelling) {
    match sp
    case Quoted(key) => key != ""
    case Bare(key) => BareKey(key)
    case DeepQuoted(key) => key != ""
    case DeepBare(key) => BareKey(key)
    case Element(n, _) => n < Pow10(SAFE_DIGITS)
    case _ => true
  }

  /** What may come behind a spelling: the end or another one, and behind two dots a bracket. */
  predicate MayFollow(s: string, q: nat, sp: Spelling) {
    if q < |s| then s[q] == '[' || (s[q] == '.' && !sp.Deep?) else q == |s| && !sp.Deep?
  }

  // ----- keys -----

  lemma ReadBareText(s: string, p: nat, key: string)
    requires BareKey(key) && Continues(s, p, key) && (p + |key| < |s| ==> s[p + |key|] in ".[")
    ensures s[p] == key[0] && PlainKeyRead(s, p) == KeyRead(|key|, false, key)
  {
    forall q | p <= q < p + |key| ensures s[q] == key[q - p] {
      ContinuesAt(s, p, key, q - p);
    }
    BareEndExactly(s, p, p + |key|);
    hide BareEnd, ReadQuoted;
  }

  lemma ReadQuotedText(s: string, p: nat, key: string)
    requires key != "" && Continues(s, p, "\"" + (Escape(key) + "\""))
    ensures s[p] == '"' && PlainKeyRead(s, p) == KeyRead(|Escape(key)| + 2, false, key)
  {
    hide Escape, ReadQuoted, Continues, BareEnd;
    ContinuesAt(s, p, "\"" + (Escape(key) + "\""), 0);
    ContinuesSplit(s, p, "\"", Escape(key) + "\"");
    ReadEscaped(s, p + 1, key);
    EscapeLength(key);
  }

  /** A plain key, behind one dot or two. */
  lemma ReadPlainKey(s: string, p: nat, key: string, length: nat)
    requires p + 1 < |s| && s[p] == '.' && s[p + 1] !in ".*[" && length > 0
    requires PlainKeyRead(s, p + 1) == KeyRead(length, false, key)
    ensures Parse(s, p) == Before(if key == "*" then [AnyKey] else [Key(key)], Parse(s, p + 1 + length))
  {
    hide Parse, PlainKeyRead;
    ParseTurn(s, p);
  }

  lemma ReadDeepKey(s: string, p: nat, key: string, length: nat)
    requires p + 2 < |s| && s[p] == s[p + 1] == '.' && s[p + 2] !in "*[" && length > 0
    requires PlainKeyRead(s, p + 2) == KeyRead(length, false, key)
    ensures Parse(s, p) == Before(if key == "*" then [Descend] else [Descend, Key(key)], Parse(s, p + 2 + length))
  {
    hide Parse, PlainKeyRead;
    ParseTurn(s, p);
  }

  /** The dots of a key and what is behind them. */
  lemma KeyText(sp: Spelling) returns (dots: string, key: string)
    requires sp.Quoted? || sp.Bare? || sp.DeepQuoted? || sp.DeepBare?
    ensures Text(sp) == dots + key && dots == if sp.Quoted? || sp.Bare? then "." else ".."
    ensures key == if sp.Quoted? || sp.DeepQuoted? then "\"" + (Escape(sp.key) + "\"") else sp.key
    ensures |key| == if sp.Quoted? || sp.DeepQuoted? then |Escape(sp.key)| + 2 else |sp.key|
  {
    hide Escape;
    dots := if sp.Quoted? || sp.Bare? then "." else "..";
    key := if sp.Quoted? || sp.DeepQuoted? then "\"" + (Escape(sp.key) + "\"") else sp.key;
  }

  lemma WrittenKeySteps(sp: Spelling)
    requires (sp.Quoted? || sp.Bare? || sp.DeepQuoted? || sp.DeepBare?) && WellFormed(sp)
    ensures Steps(sp) == if sp.Quoted? || sp.Bare? then (if sp.key == "*" then [AnyKey] else [Key(sp.key)])
                         else if sp.key == "*" then [Descend] else [Descend, Key(sp.key)]
    ensures if sp.Quoted? || sp.DeepQuoted? then sp.key != "" else BareKey(sp.key)
    ensures |sp.key| > 0
  {
  }

  lemma Following(s: string, q: nat, sp: Spelling)
    requires MayFollow(s, q, sp)
    ensures q < |s| ==> s[q] in ".["
  {
  }

  lemma ContinuesWithin(s: string, p: nat, text: string)
    requires Continues(s, p, text)
    ensures p + |text| <= |s|
  {
  }

  lemma BareStart(key: string)
    requires BareKey(key)
    ensures key[0] !in ".*[\""
  {
  }

  /** A key behind its dots. */
  lemma ReadKeyText(s: string, p: nat, sp: Spelling, key: string)
    requires (sp.Quoted? || sp.Bare? || sp.DeepQuoted? || sp.DeepBare?) && WellFormed(sp)
    requires key == if sp.Quoted? || sp.DeepQuoted? then "\"" + (Escape(sp.key) + "\"") else sp.key
    requires Continues(s, p, key) && (p + |key| < |s| ==> s[p + |key|] in ".[")
    ensures p < |s| && s[p] !in ".*[" && |key| > 0 && PlainKeyRead(s, p) == KeyRead(|key|, false, sp.key)
  {
    hide *;
    WrittenKeySteps(sp);
    ContinuesWithin(s, p, key);
    if sp.Quoted? || sp.DeepQuoted? {
      ReadQuotedText(s, p, sp.key);
    } else {
      BareStart(sp.key);
      ReadBareText(s, p, sp.key);
    }
  }

  lemma ReadWrittenKey(s: string, p: nat, sp: Spelling)
    requires (sp.Quoted? || sp.Bare? || sp.DeepQuoted? || sp.DeepBare?) && WellFormed(sp)
    requires Continues(s, p, Text(sp)) && MayFollow(s, p + |Text(sp)|, sp)
    ensures Parse(s, p) == Before(Steps(sp), Parse(s, p + |Text(sp)|))
  {
    hide *;
    var dots, key := KeyText(sp);
    Following(s, p + |Text(sp)|, sp);
    ContinuesSplit(s, p, dots, key);
    ReadKeyText(s, p + |dots|, sp, key);
    ReadBehindDots(s, p, sp, dots, key);
  }

  lemma ReadBehindDots(s: string, p: nat, sp: Spelling, dots: string, key: string)
    requires (sp.Quoted? || sp.Bare? || sp.DeepQuoted? || sp.DeepBare?) && WellFormed(sp) && key != ""
    requires dots == (if sp.Quoted? || sp.Bare? then "." else "..") && Continues(s, p, dots)
    requires p + |dots| < |s| && s[p + |dots|] !in ".*["
    requires PlainKeyRead(s, p + |dots|) == KeyRead(|key|, false, sp.key)
    ensures Parse(s, p) == Before(Steps(sp), Parse(s, p + |dots| + |key|))
  {
    hide *;
    WrittenKeySteps(sp);
    ContinuesAt(s, p, dots, 0);
    if sp.Quoted? || sp.Bare? {
      ReadPlainKey(s, p, sp.key, |key|);
    } else {
      ContinuesAt(s, p, dots, 1);
      ReadDeepKey(s, p, sp.key, |key|);
    }
  }

  /** A key that is a wildcard, or none at all. */
  lemma ReadWildcard(s: string, p: nat, sp: Spelling)
    requires sp.Star? || sp.DeepStar? || sp.DoubleStar? || sp.Deep?
    requires Continues(s, p, Text(sp)) && MayFollow(s, p + |Text(sp)|, sp)
    ensures Parse(s, p) == Before(Steps(sp), Parse(s, p + |Text(sp)|))
  {
    hide Parse, PlainKeyRead, Continues;
    ContinuesAt(s, p, Text(sp), 0);
    ContinuesAt(s, p, Text(sp), 1);
    if |Text(sp)| == 3 {
      ContinuesAt(s, p, Text(sp), 2);
    }
    ParseTurn(s, p);
  }

  // ----- indices -----

  /** Where the number of an index starts. */
  lemma ReadSign(s: string, p: nat, sign: Sign)
    requires Continues(s, p, "[" + SignText(sign))
    requires var q := p + 1 + |SignText(sign)|; q < |s| && IsDigit(s[q])
    ensures s[p] == '[' && IndexReadAt(s, p + 1) == NumberRead(s, p + 1 + |SignText(sign)|, sign != NoSign)
  {
    hide NumberRead, Continues;
    var front := "[" + SignText(sign);
    ContinuesAt(s, p, front, 0);
    if sign == Minus {
      ContinuesAt(s, p, front, 1);
    } else if sign == HashMinus {
      ContinuesAt(s, p, front, 1);
      ContinuesAt(s, p, front, 2);
    }
  }

  lemma ElementText(n: nat, sign: Sign)
    ensures Text(Element(n, sign)) == ("[" + SignText(sign)) + (Decimal(n) + "]")
    ensures |Text(Element(n, sign))| == 1 + |SignText(sign)| + |Decimal(n)| + 1
    ensures |"[" + SignText(sign)| == 1 + |SignText(sign)|
    ensures Decimal(n) != "" && (Decimal(n) + "]")[0] == Decimal(n)[0] && IsDigit(Decimal(n)[0])
  {
    DecimalDigits(n);
    hide Decimal;
  }

  lemma ReadElement(s: string, p: nat, n: nat, sign: Sign)
    requires n < Pow10(SAFE_DIGITS) && Continues(s, p, Text(Element(n, sign)))
    ensures Parse(s, p) == Before([Index(n, sign != NoSign)], Parse(s, p + |Text(Element(n, sign))|))
  {
    hide *;
    var front, q := "[" + SignText(sign), p + 1 + |SignText(sign)|;
    ElementText(n, sign);
    ContinuesWithin(s, p, Text(Element(n, sign)));
    ContinuesSplit(s, p, front, Decimal(n) + "]");
    ReadPrintedNumber(s, q, n, sign != NoSign);
    ContinuesAt(s, q, Decimal(n) + "]", 0);
    ReadSign(s, p, sign);
    ParseTurn(s, p);
  }

  lemma ReadOtherIndex(s: string, p: nat, sp: Spelling)
    requires (sp.AnyElement? || sp.Hash?) && Continues(s, p, Text(sp))
    ensures Parse(s, p) == Before(Steps(sp), Parse(s, p + |Text(sp)|))
  {
    hide Parse, NumberRead;
    ContinuesAt(s, p, Text(sp), 0);
    ContinuesAt(s, p, Text(sp), 1);
    ContinuesAt(s, p, Text(sp), 2);
    ParseTurn(s, p);
  }

  // ----- paths -----

  /** Whatever is written is read as what it stands for. */
  lemma ReadSpelling(s: string, p: nat, sp: Spelling)
    requires WellFormed(sp) && Continues(s, p, Text(sp)) && MayFollow(s, p + |Text(sp)|, sp)
    ensures Parse(s, p) == Before(Steps(sp), Parse(s, p + |Text(sp)|))
  {
    hide Parse, Continues, Text, Steps, MayFollow, Pow10;
    match sp
    case Star => ReadWildcard(s, p, sp);
    case DeepStar => ReadWildcard(s, p, sp);
    case DoubleStar => ReadWildcard(s, p, sp);
    case Deep => ReadWildcard(s, p, sp);
    case AnyElement => ReadOtherIndex(s, p, sp);
    case Hash => ReadOtherIndex(s, p, sp);
    case Element(n, sign) =>
      ReadElement(s, p, n, sign);
      assert Steps(sp) == [Index(n, sign != NoSign)] by {
        ElementSteps(n, sign);
      }
    case _ => ReadWrittenKey(s, p, sp);
  }

  lemma ElementSteps(n: nat, sign: Sign)
    ensures Steps(Element(n, sign)) == [Index(n, sign != NoSign)]
  {
  }

  function AllText(sps: seq<Spelling>): string {
    if sps == [] then "" else Text(sps[0]) + AllText(sps[1..])
  }

  function AllSteps(sps: seq<Spelling>): seq<Step> {
    if sps == [] then [] else Steps(sps[0]) + AllSteps(sps[1..])
  }

  predicate InBrackets(sp: Spelling) {
    sp.Element? || sp.AnyElement? || sp.Hash?
  }

  /** Every step is well formed, and two dots alone stand in front of a bracket. */
  predicate Written(sps: seq<Spelling>) {
    sps == [] || (&& WellFormed(sps[0])
                  && (sps[0].Deep? ==> |sps| > 1 && InBrackets(sps[1]))
                  && Written(sps[1..]))
  }

  lemma FirstCharacter(sp: Spelling)
    ensures Text(sp) != "" && Text(sp)[0] == if InBrackets(sp) then '[' else '.'
  {
    hide Decimal, Escape;
  }

  lemma {:induction false} ReadSpellings(s: string, p: nat, sps: seq<Spelling>)
    requires Written(sps) && Continues(s, p, AllText(sps)) && p + |AllText(sps)| == |s|
    ensures Parse(s, p) == Path(AllSteps(sps))
    decreases |sps|
  {
    hide Parse, Text, Steps, WellFormed;
    ParseTurn(s, p);
    if sps != [] {
      var rest := AllText(sps[1..]);
      assert AllText(sps) == Text(sps[0]) + rest;
      ContinuesSplit(s, p, Text(sps[0]), rest);
      if |sps| > 1 {
        FirstCharacter(sps[1]);
        assert rest == Text(sps[1]) + AllText(sps[2..]) by {
          assert sps[1..][1..] == sps[2..];
        }
        ContinuesAt(s, p + |Text(sps[0])|, rest, 0);
      }
      ReadSpelling(s, p, sps[0]);
      ReadSpellings(s, p + |Text(sps[0])|, sps[1..]);
    }
  }

  /** Any path that is written in this way is read as the steps it stands for. */
  lemma WrittenPath(sps: seq<Spelling>)
    requires Written(sps)
    ensures Parse("$" + AllText(sps), 1) == Path(AllSteps(sps))
  {
    hide Parse, AllText, AllSteps, Written;
    var s := "$" + AllText(sps);
    assert Continues(s, 1, AllText(sps));
    ReadSpellings(s, 1, sps);
  }
}
