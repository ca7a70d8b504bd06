/** What the tokens of an input cover: they are disjoint slices in order, and only separators lie between them. */
module TokenizerTiling {
  import opened Sequences
  import opened Tokenizer

  predicate CommentStart(s: string, state: TokenizeState, p: nat) {
    (state == SINGLE_LINE_COMMENT && StartsAt(s, p, "--")) || (state == MULTI_LINE_COMMENT && StartsAt(s, p, "/*"))
  }

  /** A comment opens at `a`, and its first closer behind the opening is the one that ends at `b`. */
  predicate CommentBetween(s: string, state: TokenizeState, a: nat, b: nat) {
    && b <= |s|
    && CommentStart(s, state, a)
    && exists c :: a + 2 <= c < b && CommentCloser(s, state, c) == b - c && NoCloser(s, state, a + 2, c)
  }

  predicate NoCloser(s: string, state: TokenizeState, from: nat, to: nat) {
    to <= |s| && forall q :: from <= q < to ==> CommentCloser(s, state, q) == 0
  }

  /** A single blank, or one whole comment. */
  predicate Separator(s: string, a: nat, b: nat) {
    || (a + 1 == b <= |s| && IsSpace(s[a]))
    || CommentBetween(s, SINGLE_LINE_COMMENT, a, b)
    || CommentBetween(s, MULTI_LINE_COMMENT, a, b)
  }

  /** The text from `a` to `b` consists of separators. */
  ghost predicate Gap(s: string, a: nat, b: nat)
    decreases b - a
  {
    a <= b && (a == b || exists m :: a < m <= b && Separator(s, a, m) && Gap(s, m, b))
  }

  /** How the text behind the last event is used up. */
  ghost predicate Tail(s: string, p: nat, final: Final) {
    match final
    case InComment =>
      exists q: nat, state :: Gap(s, p, q) && CommentStart(s, state, q) && NoCloser(s, state, q + 2, |s|)
    case LastWord(state, start) =>
      && start <= |s|
      && if state == STRING_LITERAL then start > 0 && s[start - 1] == '\'' && Gap(s, p, start - 1) else Gap(s, p, start)
  }

  ghost predicate Tiling(s: string, p: nat, events: seq<Event>, final: Final)
    decreases events
  {
    if events == [] then Tail(s, p, final) else
    match events[0]
    case TokenAt(start, end) =>
      Gap(s, p, start) && start < end <= |s| && Tiling(s, end, events[1..], final)
    case StatementEnd(pos) =>
      Gap(s, p, pos) && pos < |s| && s[pos] == ';' && Tiling(s, pos + 1, events[1..], final)
  }

  lemma {:induction false} CommentEndIsFirst(s: string, state: TokenizeState, p: nat) returns (c: nat)
    requires p <= |s|
    ensures p <= c <= |s| && NoCloser(s, state, p, c)
    ensures var e := CommentEnd(s, state, p);
            if e.Some? then c < |s| && CommentCloser(s, state, c) == e.value - c > 0 else c == |s|
    decreases |s| - p
  {
    if p < |s| && CommentCloser(s, state, p) == 0 {
      c := CommentEndIsFirst(s, state, p + 1);
    } else {
      c := p;
    }
  }

  /** A separator in front leaves a tiling a tiling. */
  lemma WidenGap(s: string, p: nat, p': nat, events: seq<Event>, final: Final)
    requires p < p' && Separator(s, p, p') && Tiling(s, p', events, final)
    ensures Tiling(s, p, events, final)
  {
    if events == [] && final.InComment? {
      var q: nat, state :| Gap(s, p', q) && CommentStart(s, state, q) && NoCloser(s, state, q + 2, |s|);
      assert Gap(s, p, q);
    }
  }

  /** A step makes a token where it starts, or a statement end, or skips one separator, or stops. */
  lemma StepShape(s: string, p: nat)
    requires p <= |s|
    ensures var step := LexStep(s, p);
            match step
            case Next(events, pos) =>
              || events == [TokenAt(p, pos)]
              || (events == [StatementEnd(p)] && s[p] == ';' && pos == p + 1)
              || (events == [] && Separator(s, p, pos))
            case Stop(final) => Tail(s, p, final)
  {
    hide SpecialOperator, StartsAt;
    assert Gap(s, p, p);
    if p < |s| && StartOf(s, p) in {Long(SINGLE_LINE_COMMENT), Long(MULTI_LINE_COMMENT)} {
      var state := StartOf(s, p).state;
      var c := CommentEndIsFirst(s, state, p + 2);
      assert CommentStart(s, state, p);
      if LexStep(s, p).Next? {
        assert CommentBetween(s, state, p, LexStep(s, p).pos);
      }
    }
  }

  /** The tokens of an input, the statement ends and the separators between them make up the whole text, up to an
      unfinished comment or last word. */
  lemma {:induction false} LexTiles(s: string, p: nat)
    requires p <= |s|
    ensures Tiling(s, p, Lex(s, p).events, Lex(s, p).final)
    decreases |s| - p
  {
    hide LexStep, Tail, Separator;
    var step := LexStep(s, p);
    StepShape(s, p);
    if step.Next? {
      var rest := Lex(s, step.pos);
      LexTiles(s, step.pos);
      if step.events == [] {
        assert step.events + rest.events == rest.events;
        WidenGap(s, p, step.pos, rest.events, rest.final);
      } else {
        assert (step.events + rest.events)[1..] == rest.events;
        assert Gap(s, p, p);
      }
    }
  }

  // ----- what a token looks like -----

  /** A text in quotes, with its quotes doubled. */
  function Doubled(quote: char, text: string): string {
    if text == [] then [] else (if text[0] == quote then [quote, quote] else [text[0]]) + Doubled(quote, text[1..])
  }

  /** Between two positions is a text with its quotes doubled. */
  ghost predicate Paired(s: string, quote: char, a: nat, b: nat) {
    a <= b <= |s| && exists text :: s[a..b] == Doubled(quote, text)
  }

  /** From `p` on, such a text reaches to the end, or to the quote that ends before `e` and is not doubled. */
  ghost predicate ClosesAt(s: string, quote: char, p: nat, e: Option<nat>)
    requires p <= |s|
  {
    match e
    case None => Paired(s, quote, p, |s|)
    case Some(end) =>
      p < end <= |s| && s[end - 1] == quote && (end == |s| || s[end] != quote) && Paired(s, quote, p, end - 1)
  }

  lemma NothingPaired(s: string, quote: char, p: nat)
    requires p <= |s|
    ensures Paired(s, quote, p, p)
  {
    assert s[p..p] == Doubled(quote, []);
  }

  /** Where a pair of quotes ends, or another character. */
  function Behind(s: string, quote: char, p: nat): nat
    requires p < |s|
  {
    if s[p] == quote then p + 2 else p + 1
  }

  lemma PairedTurn(s: string, quote: char, p: nat, end: nat)
    requires p < |s| && (s[p] == quote ==> p + 1 < |s| && s[p + 1] == quote)
    requires Paired(s, quote, Behind(s, quote, p), end)
    ensures Paired(s, quote, p, end)
  {
    var n := Behind(s, quote, p);
    var text :| s[n..end] == Doubled(quote, text);
    assert ([s[p]] + text)[1..] == text;
    assert s[p..end] == s[p..n] + s[n..end];
    assert s[p..end] == Doubled(quote, [s[p]] + text);
  }

  lemma QuoteEndTurn(s: string, quote: char, p: nat)
    requires p < |s|
    ensures var pair := p + 1 < |s| && s[p + 1] == quote;
            QuoteEnd(s, quote, p) == if s[p] == quote && !pair then Some(p + 1) else QuoteEnd(s, quote, Behind(s, quote, p))
  {
  }

  /** A literal ends at the first quote that is not paired. */
  lemma {:induction false} QuoteCloses(s: string, quote: char, p: nat)
    requires p <= |s|
    ensures ClosesAt(s, quote, p, QuoteEnd(s, quote, p))
    decreases |s| - p
  {
    NothingPaired(s, quote, p);
    hide Paired;
    if p < |s| {
      hide QuoteEnd;
      QuoteEndTurn(s, quote, p);
      if s[p] != quote || (p + 1 < |s| && s[p + 1] == quote) {
        QuoteCloses(s, quote, Behind(s, quote, p));
        var e := QuoteEnd(s, quote, p);
        PairedTurn(s, quote, p, if e.Some? then e.value - 1 else |s|);
      }
    }
  }

  /** There is no other such quote. */
  lemma {:induction false} QuoteClosesOnce(s: string, quote: char, p: nat, end: nat, text: string)
    requires p <= end <= |s| && s[p..end] == Doubled(quote, text)
    ensures QuoteEnd(s, quote, p) == QuoteEnd(s, quote, end)
    decreases |text|
  {
    if text != [] {
      var d, n := Doubled(quote, text), if text[0] == quote then p + 2 else p + 1;
      assert s[p] == s[p..end][0] == d[0] && (text[0] == quote ==> s[p + 1] == s[p..end][1] == d[1]);
      assert s[n..end] == s[p..end][n - p..] == Doubled(quote, text[1..]);
      QuoteClosesOnce(s, quote, n, end, text[1..]);
    }
  }

  /** The end of a literal is where it is closed, or there is none if it is not. */
  lemma QuoteEndExactly(s: string, quote: char, p: nat, e: Option<nat>)
    requires p <= |s|
    ensures QuoteEnd(s, quote, p) == e <==> ClosesAt(s, quote, p, e)
  {
    QuoteCloses(s, quote, p);
    if ClosesAt(s, quote, p, e) {
      var end := if e.Some? then e.value - 1 else |s|;
      var text :| s[p..end] == Doubled(quote, text);
      QuoteClosesOnce(s, quote, p, end, text);
    }
  }

  /** The characters from `a` to `b` are a longest run of such characters. */
  predicate Run(s: string, state: TokenizeState, a: nat, b: nat) {
    && a <= b <= |s| && (forall q :: a <= q < b ==> Continues(state, s[q]))
    && (b < |s| ==> !Continues(state, s[b]))
  }

  predicate SpecialAt(s: string, p: nat) {
    exists op <- SPECIAL_OPERATORS :: StartsAt(s, p, op)
  }

  /** What a token that starts at `p` starts with, apart from quotes: nothing that separates tokens. */
  predicate Bare(s: string, p: nat) {
    p < |s| && s[p] !in ['\'', '"', ';'] && !IsSpace(s[p]) && !StartsAt(s, p, "--") && !StartsAt(s, p, "/*")
  }

  /** The state in which a token is read that starts with this character and not with an operator of its own. */
  function WordState(c: char): TokenizeState {
    if IsInitialNumber(c) then NUMERIC else if IsOperatorCharacter(c) then OPERATOR else KEYWORD
  }

  /** A number goes to the last character of a run that can end one. */
  predicate NumberIn(s: string, p: nat, e: nat, r: nat) {
    && p < e <= r < |s| && Run(s, NUMERIC, p + 1, r)
    && IsInitialNumber(s[e - 1]) && forall q :: e <= q < r ==> !IsInitialNumber(s[q])
  }

  /** The text from `p` to `e` is one token. */
  ghost predicate IsToken(s: string, p: nat, e: nat) {
    && p < e <= |s|
    && if s[p] == '\'' || s[p] == '"' then ClosesAt(s, s[p], p + 1, Some(e))
       else
         && Bare(s, p)
         && if SpecialAt(s, p) then
              && s[p..e] in SPECIAL_OPERATORS
              && forall op <- SPECIAL_OPERATORS :: StartsAt(s, p, op) ==> |op| <= e - p
            else if IsSingleByteOperator(s[p]) then e == p + 1
            else if IsInitialNumber(s[p]) then exists r :: NumberIn(s, p, e, r)
            else e < |s| && Run(s, WordState(s[p]), p + 1, e)
  }

  /** The text from `start` on is the last word: empty, a literal that is not closed, or a word up to the end. */
  ghost predicate IsLastWord(s: string, start: nat) {
    || start == |s|
    || (0 < start < |s| && s[start - 1] == '\'' && Paired(s, '\'', start, |s|))
    || (start < |s| && s[start] == '"' && Paired(s, '"', start + 1, |s|))
    || (start < |s| && Bare(s, start) && !SpecialAt(s, start) && !IsSingleByteOperator(s[start])
        && Run(s, WordState(s[start]), start + 1, |s|))
  }

  lemma BareStart(s: string, p: nat)
    requires p < |s|
    ensures var r := StartOf(s, p);
            && (Bare(s, p) <==> r.Special? || r.SingleByte? || (r.Long? && r.state in {NUMERIC, OPERATOR, KEYWORD}))
            && (r == Long(STRING_LITERAL) <==> s[p] == '\'') && (r == Long(QUOTED_IDENTIFIER) <==> s[p] == '"')
            && (r.Special? <==> Bare(s, p) && SpecialAt(s, p)) && (r.Special? ==> r.len == SpecialOperator(s, p))
            && (r.SingleByte? <==> Bare(s, p) && !SpecialAt(s, p) && IsSingleByteOperator(s[p]))
            && (r.Long? && r.state in {NUMERIC, OPERATOR, KEYWORD} ==>
                  !SpecialAt(s, p) && !IsSingleByteOperator(s[p]) && r.state == WordState(s[p]))
  {
    LongestSpecialOperator(s, p);
    hide StartsAt, IsOperatorCharacter;
  }

  lemma LiteralToken(s: string, p: nat)
    requires p < |s| && (s[p] == '\'' || s[p] == '"')
    ensures match LexStep(s, p)
            case Next(events, e) => events == [TokenAt(p, e)] && IsToken(s, p, e)
            case Stop(final) => final.LastWord? && IsLastWord(s, final.start)
  {
    BareStart(s, p);
    QuoteEndExactly(s, s[p], p + 1, QuoteEnd(s, s[p], p + 1));
    hide StartsAt, StartOf, QuoteEnd, Paired, Bare, SpecialAt;
  }

  lemma WordToken(s: string, p: nat)
    requires p < |s| && Bare(s, p) && !SpecialAt(s, p) && !IsSingleByteOperator(s[p])
    ensures match LexStep(s, p)
            case Next(events, e) => events == [TokenAt(p, e)] && IsToken(s, p, e)
            case Stop(final) => final.LastWord? && IsLastWord(s, final.start)
  {
    BareStart(s, p);
    hide StartsAt, StartOf, SpecialAt, SpecialOperator, Continues, IsInitialNumber, IsOperatorCharacter;
    var state := WordState(s[p]);
    var r := RunEnd(s, state, p + 1);
    assert Run(s, state, p + 1, r);
    if r < |s| && state == NUMERIC {
      assert NumberIn(s, p, TrimNumber(s, p, r), r);
    }
  }

  /** What is neither a literal nor a word: an operator of its own, a single character, or no token at all. */
  lemma ShortToken(s: string, p: nat)
    requires p < |s| && s[p] != '\'' && s[p] != '"'
    requires Bare(s, p) ==> SpecialAt(s, p) || IsSingleByteOperator(s[p])
    ensures match LexStep(s, p)
            case Next(events, e) => events in {[], [StatementEnd(p)]} || (events == [TokenAt(p, e)] && IsToken(s, p, e))
            case Stop(final) => final.InComment?
  {
    hide StartsAt, SpecialOperator, StartOf, Bare, SpecialAt, IsSingleByteOperator;
    BareStart(s, p);
    LongestSpecialOperator(s, p);
  }

  /** Every token of a text is one, and so is its last word. */
  lemma StepToken(s: string, p: nat)
    requires p <= |s|
    ensures match LexStep(s, p)
            case Next(events, e) => events in {[], [StatementEnd(p)]} || (events == [TokenAt(p, e)] && IsToken(s, p, e))
            case Stop(final) => final.LastWord? ==> IsLastWord(s, final.start)
  {
    hide LongStep, StartOf, Bare, SpecialAt, IsSingleByteOperator, IsToken;
    if p < |s| {
      if s[p] == '\'' || s[p] == '"' {
        LiteralToken(s, p);
      } else if Bare(s, p) && !SpecialAt(s, p) && !IsSingleByteOperator(s[p]) {
        WordToken(s, p);
      } else {
        ShortToken(s, p);
      }
    }
  }

  ghost predicate AreTokens(s: string, events: seq<Event>) {
    forall k :: 0 <= k < |events| && events[k].TokenAt? ==> IsToken(s, events[k].start, events[k].end)
  }

  lemma {:induction false} LexTokens(s: string, p: nat)
    requires p <= |s|
    ensures AreTokens(s, Lex(s, p).events)
    ensures Lex(s, p).final.LastWord? ==> IsLastWord(s, Lex(s, p).final.start)
    decreases |s| - p
  {
    StepToken(s, p);
    hide LexStep, IsToken, IsLastWord;
    var step := LexStep(s, p);
    if step.Next? {
      LexTokens(s, step.pos);
    }
  }
}
