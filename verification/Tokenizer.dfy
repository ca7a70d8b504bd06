/** The SQL tokenizer: a character-at-a-time state machine that sometimes steps backwards, and the longest-match
    lexer it is equivalent to. */
module Tokenizer {
  import opened Sequences

  // ----- character classes -----

  predicate IsSpace(c: char) {
    c == ' ' || c == '\t' || c == '\n' || c == (11 as char) || c == (12 as char) || c == '\r'
  }

  predicate IsNewline(c: char) {
    c == '\n' || c == '\r'
  }

  /** StringUtil::CharacterIsOperator. */
  predicate IsOperatorCharacter(c: char) {
    c != '_' && ('!' <= c <= '/' || ':' <= c <= '@' || '[' <= c <= '`' || '{' <= c <= '~')
  }

  predicate IsSingleByteOperator(c: char) {
    c in "(){}[],?$+-#"
  }

  predicate IsInitialNumber(c: char) {
    '0' <= c <= '9' || c == '.'
  }

  predicate IsNumber(c: char) {
    IsInitialNumber(c) || c in "eE-+_"
  }

  predicate IsControlFlow(c: char) {
    c == '\'' || c == '-' || c == ';' || c == '"' || c == '.'
  }

  predicate IsKeyword(c: char) {
    !IsSingleByteOperator(c) && !IsOperatorCharacter(c) && !IsSpace(c) && !IsControlFlow(c)
  }

  predicate IsOperator(c: char) {
    !IsSingleByteOperator(c) && !IsControlFlow(c) && IsOperatorCharacter(c)
  }

  /** The text at a position starts with `op`. */
  predicate StartsAt(s: string, p: nat, op: string) {
    p + |op| <= |s| && s[p..p + |op|] == op
  }

  /** The length of the multi-byte operator at position `p`, or 0. */
  function SpecialOperator(s: string, p: nat): (len: nat)
    ensures p + len <= |s| || len == 0
  {
    if StartsAt(s, p, "->>") then 3
    else if StartsAt(s, p, "::") || StartsAt(s, p, ":=") || StartsAt(s, p, "->") || StartsAt(s, p, "**")
        || StartsAt(s, p, "//") then 2
    else 0
  }

  const SPECIAL_OPERATORS: set<string> := {"->>", "::", ":=", "->", "**", "//"}

  /** It is the longest of the multi-byte operators that the text at the position starts with, if it starts with any. */
  lemma LongestSpecialOperator(s: string, p: nat)
    ensures var len := SpecialOperator(s, p);
            && (forall op <- SPECIAL_OPERATORS :: StartsAt(s, p, op) ==> |op| <= len)
            && (len > 0 ==> p + len <= |s| && s[p..p + len] in SPECIAL_OPERATORS)
  {
  }

  // ----- the longest-match lexer -----

  datatype TokenizeState =
    STANDARD | SINGLE_LINE_COMMENT | MULTI_LINE_COMMENT | QUOTED_IDENTIFIER | STRING_LITERAL | KEYWORD | NUMERIC | OPERATOR

  /** What starts at a position. */
  datatype Start =
    | Space | Semicolon | Special(len: nat) | SingleByte
    | Long(state: TokenizeState)

  function StartOf(s: string, p: nat): (r: Start)
    requires p < |s|
    ensures r.Special? ==> r.len > 0 && p + r.len <= |s|
    ensures r.Long? ==> r.state != STANDARD
    ensures r == Long(SINGLE_LINE_COMMENT) || r == Long(MULTI_LINE_COMMENT) ==> p + 2 <= |s|
  {
    var c := s[p];
    if c == '\'' then Long(STRING_LITERAL)
    else if c == '"' then Long(QUOTED_IDENTIFIER)
    else if c == ';' then Semicolon
    else if StartsAt(s, p, "--") then Long(SINGLE_LINE_COMMENT)
    else if StartsAt(s, p, "/*") then Long(MULTI_LINE_COMMENT)
    else if IsSpace(c) then Space
    else if SpecialOperator(s, p) > 0 then Special(SpecialOperator(s, p))
    else if IsSingleByteOperator(c) then SingleByte
    else if IsInitialNumber(c) then Long(NUMERIC)
    else if IsOperatorCharacter(c) then Long(OPERATOR)
    else Long(KEYWORD)
  }

  /** The characters that continue a number, an operator or a keyword. */
  predicate Continues(state: TokenizeState, c: char) {
    match state
    case NUMERIC => IsNumber(c)
    case OPERATOR => IsOperator(c)
    case KEYWORD => IsKeyword(c)
    case _ => false
  }

  /** The end of the run of characters that continue the word. */
  function RunEnd(s: string, state: TokenizeState, p: nat): (e: nat)
    requires p <= |s|
    ensures p <= e <= |s|
    ensures forall q :: p <= q < e ==> Continues(state, s[q])
    ensures e < |s| ==> !Continues(state, s[e])
    decreases |s| - p
  {
    if p < |s| && Continues(state, s[p]) then RunEnd(s, state, p + 1) else p
  }

  /** A number gives back trailing characters that cannot end one. */
  function TrimNumber(s: string, start: nat, e: nat): (e': nat)
    requires start < e <= |s| && IsInitialNumber(s[start])
    ensures start < e' <= e && IsInitialNumber(s[e' - 1])
    ensures forall q :: e' <= q < e ==> !IsInitialNumber(s[q])
  {
    if IsInitialNumber(s[e - 1]) then e else TrimNumber(s, start, e - 1)
  }

  /** The position behind the closing quote, where a doubled quote does not close. */
  function QuoteEnd(s: string, quote: char, p: nat): (e: Option<nat>)
    requires p <= |s|
    ensures e.Some? ==> p < e.value <= |s|
    decreases |s| - p
  {
    if p >= |s| then None
    else if s[p] != quote then QuoteEnd(s, quote, p + 1)
    else if p + 1 < |s| && s[p + 1] == quote then QuoteEnd(s, quote, p + 2)
    else Some(p + 1)
  }

  /** The length of what ends a comment at position `p`, or 0. */
  function CommentCloser(s: string, state: TokenizeState, p: nat): (len: nat)
    requires p < |s|
    ensures p + len <= |s|
  {
    if state == SINGLE_LINE_COMMENT && IsNewline(s[p]) then 1
    else if state == MULTI_LINE_COMMENT && StartsAt(s, p, "*/") then 2
    else 0
  }

  /** The position behind the first end of a comment at or after `p`. */
  function CommentEnd(s: string, state: TokenizeState, p: nat): (e: Option<nat>)
    requires p <= |s|
    ensures e.Some? ==> p < e.value <= |s|
    decreases |s| - p
  {
    if p >= |s| then None
    else if CommentCloser(s, state, p) > 0 then Some(p + CommentCloser(s, state, p))
    else CommentEnd(s, state, p + 1)
  }

  datatype Event = TokenAt(start: nat, end: nat) | StatementEnd(pos: nat)

  /** How the input stops: inside a comment, or with a (possibly empty) last word. */
  datatype Final = InComment | LastWord(state: TokenizeState, start: nat)

  datatype Lexed = Lexed(events: seq<Event>, final: Final)

  /** One step of the lexer: the events it makes and where the next step starts, or how the input stops. */
  datatype Step = Next(events: seq<Event>, pos: nat) | Stop(final: Final)

  function WordStep(p: nat, e: nat): Step {
    Next([TokenAt(p, e)], e)
  }

  function LongStep(s: string, p: nat, state: TokenizeState): (r: Step)
    requires p < |s| && StartOf(s, p) == Long(state)
    ensures r.Next? ==> p < r.pos <= |s|
  {
    match state
    case STRING_LITERAL =>
      var e := QuoteEnd(s, '\'', p + 1);
      if e.None? then Stop(LastWord(state, p + 1)) else WordStep(p, e.value)
    case QUOTED_IDENTIFIER =>
      var e := QuoteEnd(s, '"', p + 1);
      if e.None? then Stop(LastWord(state, p)) else WordStep(p, e.value)
    case SINGLE_LINE_COMMENT =>
      var e := CommentEnd(s, state, p + 2);
      if e.None? then Stop(InComment) else Next([], e.value)
    case MULTI_LINE_COMMENT =>
      var e := CommentEnd(s, state, p + 2);
      if e.None? then Stop(InComment) else Next([], e.value)
    case NUMERIC =>
      var e := RunEnd(s, state, p + 1);
      if e == |s| then Stop(LastWord(state, p)) else WordStep(p, TrimNumber(s, p, e))
    case _ =>
      var e := RunEnd(s, state, p + 1);
      if e == |s| then Stop(LastWord(state, p)) else WordStep(p, e)
  }

  function LexStep(s: string, p: nat): (r: Step)
    requires p <= |s|
    ensures r.Next? ==> p < r.pos <= |s|
  {
    if p == |s| then Stop(LastWord(STANDARD, p)) else
    match StartOf(s, p)
    case Space => Next([], p + 1)
    case Semicolon => Next([StatementEnd(p)], p + 1)
    case Special(len) => WordStep(p, p + len)
    case SingleByte => WordStep(p, p + 1)
    case Long(state) => LongStep(s, p, state)
  }

  /** The tokens from position `p` on: each is the longest one that starts where the previous step ended. */
  function Lex(s: string, p: nat): Lexed
    requires p <= |s|
    decreases |s| - p
  {
    var step := LexStep(s, p);
    if step.Stop? then Lexed([], step.final)
    else var rest := Lex(s, step.pos); Lexed(step.events + rest.events, rest.final)
  }

  // ----- what the tokenizer's listener receives -----

  /** The finished statements and the tokens of the current one. */
  datatype Parsed = Parsed(statements: seq<seq<string>>, tokens: seq<string>)

  predicate InText(s: string, events: seq<Event>) {
    forall k :: 0 <= k < |events| && events[k].TokenAt? ==> events[k].start < events[k].end <= |s|
  }

  function Receive(s: string, events: seq<Event>): Parsed
    requires InText(s, events)
  {
    if events == [] then Parsed([], []) else
    var r := Receive(s, events[..|events| - 1]);
    match events[|events| - 1]
    case TokenAt(start, end) => r.(tokens := r.tokens + [s[start..end]])
    case StatementEnd(_) => Parsed(r.statements + [r.tokens], [])
  }

  lemma {:induction false} LexInText(s: string, p: nat)
    requires p <= |s|
    ensures InText(s, Lex(s, p).events)
    ensures Lex(s, p).final.LastWord? ==> Lex(s, p).final.start <= |s|
    decreases |s| - p
  {
    StepInText(s, p);
    hide LexStep;
    var step := LexStep(s, p);
    if step.Next? {
      LexInText(s, step.pos);
    }
  }

  lemma StepInText(s: string, p: nat)
    requires p <= |s|
    ensures LexStep(s, p).Next? ==> InText(s, LexStep(s, p).events)
    ensures LexStep(s, p).Stop? && LexStep(s, p).final.LastWord? ==> LexStep(s, p).final.start <= |s|
  {
    hide StartsAt, SpecialOperator;
  }

  /** What ParserTokenizer holds when the input has been read; an empty last word is not a token. */
  function Outcome(s: string): (bool, Parsed)
  {
    LexInText(s, 0);
    var l := Lex(s, 0);
    var r := Receive(s, l.events);
    if l.final.InComment? then (false, r)
    else (true, if l.final.start < |s| then r.(tokens := r.tokens + [s[l.final.start..]]) else r)
  }

  // ----- what the statements are -----

  /** The tokens are the pieces of the text that the events delimit, one for each. */
  predicate AreSlices(s: string, events: seq<Event>, tokens: seq<string>) {
    && |tokens| == |events|
    && forall k :: 0 <= k < |events| ==>
         && events[k].TokenAt? && events[k].start < events[k].end <= |s|
         && tokens[k] == s[events[k].start..events[k].end]
  }

  /** Where the statement ends are among the events. */
  predicate Cuts(events: seq<Event>, cuts: seq<nat>) {
    && (forall j, k :: 0 <= j < k < |cuts| ==> cuts[j] < cuts[k])
    && (forall k :: 0 <= k < |cuts| ==> cuts[k] < |events| && events[cuts[k]].StatementEnd?)
    && (forall i :: 0 <= i < |events| && events[i].StatementEnd? ==> i in cuts)
  }

  /** The first event of the `k`-th statement. */
  function First(cuts: seq<nat>, k: nat): nat
    requires k <= |cuts|
  {
    if k == 0 then 0 else cuts[k - 1] + 1
  }

  lemma CutBounds(events: seq<Event>, cuts: seq<nat>, k: nat)
    requires Cuts(events, cuts) && k <= |cuts|
    ensures First(cuts, k) <= if k < |cuts| then cuts[k] else |events|
    ensures k < |cuts| ==> cuts[k] < |events|
  {
  }

  /** The events of the `k`-th statement: those between two statement ends, or behind the last one. */
  function Part(events: seq<Event>, cuts: seq<nat>, k: nat): seq<Event>
    requires Cuts(events, cuts) && k <= |cuts|
  {
    CutBounds(events, cuts, k);
    events[First(cuts, k)..if k < |cuts| then cuts[k] else |events|]
  }

  /** Every statement holds the tokens between two statement ends, the last one those behind the last end. */
  predicate Separated(s: string, events: seq<Event>, cuts: seq<nat>, statements: seq<seq<string>>)
    requires Cuts(events, cuts)
  {
    && |statements| == |cuts| + 1
    && forall k :: 0 <= k < |statements| ==> AreSlices(s, Part(events, cuts, k), statements[k])
  }

  function All(r: Parsed): seq<seq<string>> {
    r.statements + [r.tokens]
  }

  lemma {:induction false} ReceiveSeparates(s: string, events: seq<Event>) returns (cuts: seq<nat>)
    requires InText(s, events)
    ensures Cuts(events, cuts) && Separated(s, events, cuts, All(Receive(s, events)))
  {
    if events == [] {
      cuts := [];
    } else {
      hide Cuts, Separated;
      var front, last := events[..|events| - 1], events[|events| - 1];
      cuts := ReceiveSeparates(s, front);
      assert events == front + [last];
      if last.TokenAt? {
        OneMoreToken(s, front, cuts, Receive(s, front), last);
      } else {
        OneMoreCut(s, front, cuts, Receive(s, front), last);
        cuts := cuts + [|front|];
      }
    }
  }

  /** Cuts stay cuts behind another event. */
  lemma CutsGrow(front: seq<Event>, cuts: seq<nat>, e: Event)
    requires Cuts(front, cuts)
    ensures e.TokenAt? ==> Cuts(front + [e], cuts)
    ensures e.StatementEnd? ==> Cuts(front + [e], cuts + [|front|])
  {
    assert forall i :: i in cuts + [|front|] <==> i in cuts || i == |front|;
  }

  lemma SlicesGrow<T>(front: seq<T>, e: T, a: nat, b: nat)
    requires a <= b <= |front|
    ensures (front + [e])[a..b] == front[a..b] && (front + [e])[a..|front| + 1] == front[a..|front|] + [e]
  {
  }

  lemma PartsGrow(front: seq<Event>, cuts: seq<nat>, e: Event, k: nat)
    requires Cuts(front, cuts) && k <= |cuts|
    requires var cuts' := if e.TokenAt? then cuts else cuts + [|front|]; Cuts(front + [e], cuts')
    ensures var cuts' := if e.TokenAt? then cuts else cuts + [|front|];
            Part(front + [e], cuts', k)
            == if e.TokenAt? && k == |cuts| then Part(front, cuts, k) + [e] else Part(front, cuts, k)
  {
    hide Cuts;
    CutBounds(front, cuts, k);
    SlicesGrow(front, e, First(cuts, k), if k < |cuts| then cuts[k] else |front|);
  }

  lemma MoreSlices(s: string, events: seq<Event>, tokens: seq<string>, e: Event)
    requires AreSlices(s, events, tokens) && e.TokenAt? && e.start < e.end <= |s|
    ensures AreSlices(s, events + [e], tokens + [s[e.start..e.end]])
  {
  }

  lemma OneMoreToken(s: string, front: seq<Event>, cuts: seq<nat>, r: Parsed, e: Event)
    requires Cuts(front, cuts) && Separated(s, front, cuts, All(r)) && e.TokenAt? && e.start < e.end <= |s|
    ensures Cuts(front + [e], cuts)
    ensures Separated(s, front + [e], cuts, All(r.(tokens := r.tokens + [s[e.start..e.end]])))
  {
    hide Cuts, Part, AreSlices;
    CutsGrow(front, cuts, e);
    forall k | 0 <= k < |All(r)|
      ensures AreSlices(s, Part(front + [e], cuts, k), All(r.(tokens := r.tokens + [s[e.start..e.end]]))[k])
    {
      PartsGrow(front, cuts, e, k);
      if k == |cuts| {
        MoreSlices(s, Part(front, cuts, k), All(r)[k], e);
      }
    }
  }

  lemma OneMoreCut(s: string, front: seq<Event>, cuts: seq<nat>, r: Parsed, e: Event)
    requires Cuts(front, cuts) && Separated(s, front, cuts, All(r)) && e.StatementEnd?
    ensures Cuts(front + [e], cuts + [|front|])
    ensures Separated(s, front + [e], cuts + [|front|], All(Parsed(All(r), [])))
  {
    hide Cuts, Part, AreSlices;
    CutsGrow(front, cuts, e);
    forall k | 0 <= k <= |All(r)|
      ensures AreSlices(s, Part(front + [e], cuts + [|front|], k), All(Parsed(All(r), []))[k])
    {
      if k < |All(r)| {
        PartsGrow(front, cuts, e, k);
      } else {
        NothingBehind(s, front, cuts + [|front|], e);
      }
    }
  }

  lemma NothingBehind(s: string, front: seq<Event>, cuts: seq<nat>, e: Event)
    requires Cuts(front + [e], cuts) && cuts != [] && cuts[|cuts| - 1] == |front|
    ensures AreSlices(s, Part(front + [e], cuts, |cuts|), [])
  {
  }

  function TokenEvents(events: seq<Event>): seq<Event> {
    if events == [] then [] else
    var last := events[|events| - 1];
    TokenEvents(events[..|events| - 1]) + if last.TokenAt? then [last] else []
  }

  /** One behind the other, the statements hold all tokens in order. */
  lemma {:induction false} NothingLost(s: string, events: seq<Event>)
    requires InText(s, events)
    ensures AreSlices(s, TokenEvents(events), Flatten(All(Receive(s, events))))
  {
    if events != [] {
      var front, last := events[..|events| - 1], events[|events| - 1];
      var r := Receive(s, front);
      NothingLost(s, front);
      FlattenSnoc(r.statements, r.tokens);
      if last.TokenAt? {
        FlattenSnoc(r.statements, r.tokens + [s[last.start..last.end]]);
      } else {
        FlattenSnoc(All(r), []);
      }
    }
  }

  /** A text gives these statements: its events cut them, and the last one ends with the last word, if that is not
      empty. Nothing is completed in a comment. */
  ghost predicate Tokenized(s: string, allowComplete: bool, statements: seq<seq<string>>, tokens: seq<string>) {
    var l := Lex(s, 0);
    exists cuts, before ::
      && Cuts(l.events, cuts) && Separated(s, l.events, cuts, statements + [before])
      && EndsWith(s, l.final, allowComplete, before, tokens)
  }

  /** The tokens of the last statement, given those of its finished tokens. */
  predicate EndsWith(s: string, final: Final, allowComplete: bool, before: seq<string>, tokens: seq<string>) {
    match final
    case InComment => !allowComplete && tokens == before
    case LastWord(_, start) =>
      && allowComplete
      && tokens == if start < |s| then before + [s[start..]] else before
  }

  lemma OutcomeIsTokenized(s: string)
    ensures var (allowComplete, r) := Outcome(s); Tokenized(s, allowComplete, r.statements, r.tokens)
  {
    LexInText(s, 0);
    hide Lex, Receive, Cuts, Separated;
    var cuts := ReceiveSeparates(s, Lex(s, 0).events);
    var r := Receive(s, Lex(s, 0).events);
    assert EndsWith(s, Lex(s, 0).final, Outcome(s).0, r.tokens, Outcome(s).1.tokens);
  }

  lemma {:induction false} SameCuts(events: seq<Event>, cuts: seq<nat>, cuts': seq<nat>, n: nat)
    requires Cuts(events, cuts) && Cuts(events, cuts') && n <= |cuts|
    ensures n <= |cuts'| && forall k :: 0 <= k < n ==> cuts[k] == cuts'[k]
  {
    if n > 0 {
      SameCuts(events, cuts, cuts', n - 1);
      assert events[cuts[n - 1]].StatementEnd?;
      var k :| 0 <= k < |cuts'| && cuts'[k] == cuts[n - 1];
      assert k >= n - 1;
      assert events[cuts'[n - 1]].StatementEnd?;
      var j :| 0 <= j < |cuts| && cuts[j] == cuts'[n - 1];
    }
  }

  /** A text gives no other statements. */
  lemma TokenizedOneWay(s: string, allowComplete: bool, statements: seq<seq<string>>, tokens: seq<string>)
    requires Tokenized(s, allowComplete, statements, tokens)
    ensures (allowComplete, Parsed(statements, tokens)) == Outcome(s)
  {
    OutcomeIsTokenized(s);
    hide Lex, Outcome, Cuts, Separated, EndsWith;
    var l := Lex(s, 0);
    var (complete, r) := Outcome(s);
    var cuts, before :| Cuts(l.events, cuts) && Separated(s, l.events, cuts, statements + [before])
                        && EndsWith(s, l.final, allowComplete, before, tokens);
    var cuts', before' :| Cuts(l.events, cuts') && Separated(s, l.events, cuts', r.statements + [before'])
                          && EndsWith(s, l.final, complete, before', r.tokens);
    SameCuts(l.events, cuts, cuts', |cuts|);
    SameCuts(l.events, cuts', cuts, |cuts'|);
    assert cuts == cuts';
    OneSeparation(s, l.events, cuts, statements + [before], r.statements + [before']);
    assert statements == (statements + [before])[..|statements|] == r.statements;
    assert before == (statements + [before])[|statements|] == before';
    EndsOneWay(s, l.final, before);
  }

  lemma EndsOneWay(s: string, final: Final, before: seq<string>)
    ensures forall a, b, ts, us ::
              EndsWith(s, final, a, before, ts) && EndsWith(s, final, b, before, us) ==> a == b && ts == us
  {
  }

  lemma OneSeparation(s: string, events: seq<Event>, cuts: seq<nat>, a: seq<seq<string>>, b: seq<seq<string>>)
    requires Cuts(events, cuts) && Separated(s, events, cuts, a) && Separated(s, events, cuts, b)
    ensures a == b
  {
    hide Cuts, AreSlices, Part;
    forall k | 0 <= k < |a| ensures a[k] == b[k] {
      OneSlicing(s, Part(events, cuts, k), a[k], b[k]);
    }
  }

  lemma OneSlicing(s: string, events: seq<Event>, a: seq<string>, b: seq<string>)
    requires AreSlices(s, events, a) && AreSlices(s, events, b)
    ensures a == b
  {
  }

  // ----- the state machine -----

  class ParserTokenizer {
    const sql: string
    var tokens: seq<string>
    var statements: seq<seq<string>>

    constructor (sql: string)
      ensures this.sql == sql && tokens == [] && statements == []
    {
      this.sql, tokens, statements := sql, [], [];
    }

    ghost function Received(): Parsed
      reads this
    {
      Parsed(statements, tokens)
    }

    /** An empty slice is no token. */
    method PushToken(start: nat, end: nat, ghost events: seq<Event>)
      requires (start < end ==> end <= |sql|) && InText(sql, events) && Received() == Receive(sql, events)
      modifies `tokens
      ensures tokens == if start < end then old(tokens) + [sql[start..end]] else old(tokens)
      ensures var now := if start < end then events + [TokenAt(start, end)] else events;
              InText(sql, now) && Received() == Receive(sql, now)
    {
      if start >= end {
        return;
      }
      ghost var events' := events + [TokenAt(start, end)];
      assert events'[..|events'| - 1] == events;
      tokens := tokens + [sql[start..end]];
    }

    method OnStatementEnd(pos: nat, ghost events: seq<Event>)
      requires InText(sql, events) && Received() == Receive(sql, events)
      modifies `tokens, `statements
      ensures statements == old(statements) + [old(tokens)] && tokens == []
      ensures InText(sql, events + [StatementEnd(pos)]) && Received() == Receive(sql, events + [StatementEnd(pos)])
    {
      ghost var events' := events + [StatementEnd(pos)];
      assert events'[..|events'| - 1] == events;
      statements := statements + [tokens];
      tokens := [];
    }

    /** Where the machine is: `last` is where the current step began, `i` the next character, and the rest of the
        step is what the lexer would still do from here. */
    ghost predicate At(state: TokenizeState, last: nat, i: nat)
    {
      && last <= i
      && last <= |sql|
      && match state
         case STANDARD => last == i
         case STRING_LITERAL => last + 1 <= i <= |sql| && StartOf(sql, last) == Long(state)
                   && QuoteEnd(sql, '\'', last + 1) == QuoteEnd(sql, '\'', i)
         case QUOTED_IDENTIFIER => last + 1 <= i <= |sql| && StartOf(sql, last) == Long(state)
                   && QuoteEnd(sql, '"', last + 1) == QuoteEnd(sql, '"', i)
         case SINGLE_LINE_COMMENT => last + 2 <= i <= |sql| && StartOf(sql, last) == Long(state)
                   && CommentEnd(sql, state, last + 2) == CommentEnd(sql, state, i)
         case MULTI_LINE_COMMENT => last + 2 <= i <= |sql| && StartOf(sql, last) == Long(state)
                   && CommentEnd(sql, state, last + 2) == CommentEnd(sql, state, i)
         case _ => last + 1 <= i <= |sql| && StartOf(sql, last) == Long(state)
                   && RunEnd(sql, state, last + 1) == RunEnd(sql, state, i)
    }

    /** The loop invariant: what has been received is what the lexer made of the text before `last`. */
    ghost predicate Reached(state: TokenizeState, last: nat, i: nat, events: seq<Event>)
      reads this
    {
      && At(state, last, i)
      && InText(sql, events)
      && Received() == Receive(sql, events)
      && Lex(sql, 0) == Lexed(events + Lex(sql, last).events, Lex(sql, last).final)
    }

    /** The step that began at `last` is complete. */
    lemma StepDone(last: nat, events: seq<Event>, made: seq<Event>, pos: nat)
      requires last <= |sql| && LexStep(sql, last) == Next(made, pos)
      requires Lex(sql, 0) == Lexed(events + Lex(sql, last).events, Lex(sql, last).final)
      ensures Lex(sql, 0) == Lexed(events + made + Lex(sql, pos).events, Lex(sql, pos).final)
    {
      hide LexStep;
      assert events + (made + Lex(sql, pos).events) == events + made + Lex(sql, pos).events;
    }

    /** A character read in the STANDARD state. */
    method StandardCharacter(i: nat, ghost events: seq<Event>)
      returns (state: TokenizeState, last: nat, i': nat, ghost events': seq<Event>)
      requires i < |sql| && Reached(STANDARD, i, i, events)
      modifies `tokens, `statements
      ensures Reached(state, last, i', events') && (last > i || (last == i && i' > i))
    {
      hide Lex, Receive, StartsAt, SpecialOperator, QuoteEnd, RunEnd, CommentEnd;
      state, last, i', events' := STANDARD, i + 1, i + 1, events;
      match StartOf(sql, i)
      case Space =>
        StepDone(i, events, [], i + 1);
      case Semicolon =>
        OnStatementEnd(i, events);
        StepDone(i, events, [StatementEnd(i)], i + 1);
        events' := events + [StatementEnd(i)];
      case Special(len) =>
        PushToken(i, i + len, events);
        StepDone(i, events, [TokenAt(i, i + len)], i + len);
        last, i', events' := i + len, i + len, events + [TokenAt(i, i + len)];
      case SingleByte =>
        PushToken(i, i + 1, events);
        StepDone(i, events, [TokenAt(i, i + 1)], i + 1);
        events' := events + [TokenAt(i, i + 1)];
      case Long(longState) =>
        state, last := longState, i;
        if longState == SINGLE_LINE_COMMENT || longState == MULTI_LINE_COMMENT {
          i' := i + 2;
        }
    }

    /** A character read inside a number, an operator or a keyword: a character that does not continue it is read
        again in the STANDARD state, behind the word. */
    method WordCharacter(state: TokenizeState, last: nat, i: nat, ghost events: seq<Event>)
      returns (state': TokenizeState, last': nat, i': nat, ghost events': seq<Event>)
      requires state in {NUMERIC, OPERATOR, KEYWORD} && i < |sql| && Reached(state, last, i, events)
      modifies `tokens
      ensures Reached(state', last', i', events') && (last' > last || (last' == last && i' > i))
    {
      hide Lex, Receive, StartsAt, QuoteEnd, CommentEnd, RunEnd, StartOf, Continues, LexStep;
      state', last', i', events' := state, last, i + 1, events;
      WordTurn(state, last, i);
      if !Continues(state, sql[i]) {
        var end := WordEnd(state, last, i);
        PushToken(last, end, events);
        StepDone(last, events, [TokenAt(last, end)], end);
        state', last', i', events' := STANDARD, end, end, events + [TokenAt(last, end)];
      }
    }

    /** A word that goes on, and one that ends here. */
    lemma WordTurn(state: TokenizeState, last: nat, i: nat)
      requires state in {NUMERIC, OPERATOR, KEYWORD} && i < |sql| && At(state, last, i)
      ensures Continues(state, sql[i]) ==> At(state, last, i + 1)
      ensures state == NUMERIC ==> IsInitialNumber(sql[last])
      ensures !Continues(state, sql[i]) ==>
                LexStep(sql, last) == WordStep(last, if state == NUMERIC then TrimNumber(sql, last, i) else i)
    {
      hide QuoteEnd, CommentEnd;
    }

    /** A number gives back the characters that cannot end one. */
    method WordEnd(state: TokenizeState, last: nat, i: nat) returns (end: nat)
      requires last < i <= |sql| && (state == NUMERIC ==> IsInitialNumber(sql[last]))
      ensures end == if state == NUMERIC then TrimNumber(sql, last, i) else i
    {
      end := i;
      if state == NUMERIC {
        while !IsInitialNumber(sql[end - 1])
          invariant last < end <= i && TrimNumber(sql, last, end) == TrimNumber(sql, last, i)
          decreases end
        {
          end := end - 1;
        }
      }
    }

    /** A character read inside quotes. */
    method QuotedCharacter(state: TokenizeState, quote: char, last: nat, i: nat, ghost events: seq<Event>)
      returns (state': TokenizeState, last': nat, i': nat, ghost events': seq<Event>)
      requires (state == STRING_LITERAL && quote == '\'') || (state == QUOTED_IDENTIFIER && quote == '"')
      requires i < |sql| && Reached(state, last, i, events)
      modifies `tokens
      ensures Reached(state', last', i', events') && (last' > last || (last' == last && i' > i))
    {
      hide Lex, Receive, StartsAt, RunEnd, CommentEnd, SpecialOperator;
      state', last', i', events' := state, last, i + 1, events;
      if sql[i] == quote {
        if i + 1 < |sql| && sql[i + 1] == quote {
          i' := i + 2;
        } else {
          PushToken(last, i + 1, events);
          StepDone(last, events, [TokenAt(last, i + 1)], i + 1);
          state', last', events' := STANDARD, i + 1, events + [TokenAt(last, i + 1)];
        }
      }
    }

    /** A character read inside a comment. */
    method CommentCharacter(state: TokenizeState, last: nat, i: nat, ghost events: seq<Event>)
      returns (state': TokenizeState, last': nat, i': nat)
      requires state in {SINGLE_LINE_COMMENT, MULTI_LINE_COMMENT} && i < |sql| && Reached(state, last, i, events)
      ensures Reached(state', last', i', events) && (last' > last || (last' == last && i' > i))
    {
      hide Lex, Receive, QuoteEnd, RunEnd, StartOf;
      assert StartsAt(sql, i, "*/") == (i + 1 < |sql| && sql[i] == '*' && sql[i + 1] == '/') by {
        if i + 1 < |sql| {
          assert sql[i..i + 2] == [sql[i], sql[i + 1]];
        }
      }
      state', last', i' := state, last, i + 1;
      if state == SINGLE_LINE_COMMENT && IsNewline(sql[i]) {
        StepDone(last, events, [], i + 1);
        state', last' := STANDARD, i + 1;
      } else if state == MULTI_LINE_COMMENT && sql[i] == '*' && i + 1 < |sql| && sql[i + 1] == '/' {
        StepDone(last, events, [], i + 2);
        state', last', i' := STANDARD, i + 2, i + 2;
      }
    }

    /** The last word of the input, unless it is empty. */
    method OnLastToken(word: string)
      modifies `tokens
      ensures tokens == old(tokens) + if word == [] then [] else [word]
    {
      if word != [] {
        tokens := tokens + [word];
      }
    }

    /** The loop over the characters. */
    method ReadCharacters() returns (state: TokenizeState, last: nat, ghost i: nat, ghost events: seq<Event>)
      requires tokens == [] && statements == []
      modifies `tokens, `statements
      ensures Reached(state, last, i, events) && i >= |sql|
    {
      var next: nat := 0;
      state, last, i, events := STANDARD, 0, 0, [];
      assert Reached(STANDARD, 0, 0, []);
      hide Reached;
      while next < |sql|
        invariant i == next && Reached(state, last, i, events)
        invariant next >= |sql| || last <= |sql|
        decreases |sql| - last, |sql| - next
      {
        match state {
          case STANDARD => state, last, next, events := StandardCharacter(next, events);
          case STRING_LITERAL => state, last, next, events := QuotedCharacter(state, '\'', last, next, events);
          case QUOTED_IDENTIFIER => state, last, next, events := QuotedCharacter(state, '"', last, next, events);
          case SINGLE_LINE_COMMENT => state, last, next := CommentCharacter(state, last, next, events);
          case MULTI_LINE_COMMENT => state, last, next := CommentCharacter(state, last, next, events);
          case _ => state, last, next, events := WordCharacter(state, last, next, events);
        }
        i := next;
      }
    }

    method TokenizeInput() returns (allowComplete: bool)
      requires tokens == [] && statements == []
      modifies `tokens, `statements
      ensures Tokenized(sql, allowComplete, statements, tokens)
      ensures (allowComplete, Received()) == Outcome(sql)
    {
      var state, last; ghost var i, events;
      state, last, i, events := ReadCharacters();
      StopsHere(state, last, i, events);
      OutcomeIsTokenized(sql);
      hide Tokenized, Lex, At, Receive, StartOf;
      assert Received() == Receive(sql, Lex(sql, 0).events);
      if state == STRING_LITERAL {
        last := last + 1;
      }
      if state == SINGLE_LINE_COMMENT || state == MULTI_LINE_COMMENT {
        return false;
      }
      ghost var before := Received();
      OnLastToken(sql[last..]);
      assert Received() == if last < |sql| then before.(tokens := before.tokens + [sql[last..]]) else before;
      allowComplete := true;
    }

    /** At the end of the input the current step stops the lexer. */
    lemma StopsHere(state: TokenizeState, last: nat, i: nat, events: seq<Event>)
      requires Reached(state, last, i, events) && i >= |sql|
      ensures last < |sql| || state == STANDARD
      ensures Lex(sql, 0).events == events
      ensures Lex(sql, 0).final == match state
                case STRING_LITERAL => LastWord(state, last + 1)
                case SINGLE_LINE_COMMENT => InComment
                case MULTI_LINE_COMMENT => InComment
                case _ => LastWord(state, last)
    {
    }
  }
}
