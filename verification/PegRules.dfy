/** The text of a grammar: how it is split into rules and their tokens. */
module PegRules {
  import opened Sequences
  import opened PegGrammar

  datatype RulesError =
    | DuplicateRule | NameExpected | MultipleParameters | ParameterExpected | ClosingBracketExpected | ArrowExpected
    | UnclosedLiteral | UnclosedRegex | TooManyBrackets | UnrecognizedContents | NoDefinition | EmptyRule

  // ----- characters -----

  predicate IsSpace(c: char) {
    c == ' ' || '\t' <= c <= '\r'
  }

  predicate IsNewline(c: char) {
    c == '\n' || c == '\r'
  }

  predicate InLine(c: char) {
    !IsNewline(c)
  }

  predicate IsAlphaNumeric(c: char) {
    'A' <= c <= 'Z' || 'a' <= c <= 'z' || '0' <= c <= '9'
  }

  predicate IsPegOperator(c: char) {
    c in {'/', '?', '(', ')', '*', '!'}
  }

  /** How many characters at the front satisfy a condition. */
  function Span(s: string, p: char -> bool): (n: nat)
    ensures n <= |s|
  {
    if s != [] && p(s[0]) then 1 + Span(s[1..], p) else 0
  }

  /** Where the character is that closes a literal or a regular expression; a backslash takes the next character
      with it. */
  function CloserEnd(s: string, final: char): (n: Option<nat>)
    ensures n.Some? ==> n.value < |s|
    decreases |s|
  {
    if s == [] then None
    else if s[0] == final then Some(0)
    else
      var skip := if s[0] == '\\' then 2 else 1;
      if skip > |s| then None else
      var n := CloserEnd(s[skip..], final);
      if n.None? then None else Some(n.value + skip)
  }

  // ----- one token of a definition -----

  /** A token and how many characters it takes. */
  function ReadToken(s: string): (r: Result<(PegToken, nat), RulesError>)
    requires s != []
    ensures r.Ok? ==> 0 < r.value.1 <= |s|
  {
    if s[0] == '\'' then
      var n := CloserEnd(s[1..], '\'');
      if n.None? then Err(UnclosedLiteral) else
      var end := n.value + 2;
      Ok((LITERAL(s[1..end - 1]), if end < |s| && s[end] == 'i' then end + 1 else end))
    else if IsAlphaNumeric(s[0]) then
      var n := Span(s, IsAlphaNumeric);
      if n < |s| && s[n] == '(' then Ok((FUNCTION_CALL(s[..n]), n + 1)) else Ok((REFERENCE(s[..n]), n))
    else if s[0] == '[' || s[0] == '<' then
      var n := CloserEnd(s, if s[0] == '[' then ']' else '>');
      if n.None? then Err(UnclosedRegex) else Ok((REGEX(s[..n.value + 1]), n.value + 1))
    else if IsPegOperator(s[0]) then Ok((OPERATOR(s[0]), 1))
    else Err(UnrecognizedContents)
  }

  /** The name of a rule; the first character may be a percent sign. */
  function ReadName(s: string): (r: Result<(string, nat), RulesError>)
    requires s != []
    ensures r.Ok? ==> 0 < r.value.1 <= |s|
  {
    var skip := if s[0] == '%' then 1 else 0;
    var n := skip + Span(s[skip..], IsAlphaNumeric);
    if n == 0 then Err(NameExpected) else Ok((s[..n], n))
  }

  /** A parameter in brackets. */
  function ReadParameter(s: string): (r: Result<(string, nat), RulesError>)
    requires s != []
    ensures r.Ok? ==> 0 < r.value.1 <= |s|
  {
    var n := 1 + Span(s[1..], IsAlphaNumeric);
    if n == 1 then Err(ParameterExpected)
    else if n >= |s| || s[n] != ')' then Err(ClosingBracketExpected)
    else Ok((s[1..n], n + 1))
  }

  // ----- the parser, character by character -----

  datatype PEGParseState = RULE_NAME | RULE_SEPARATOR | RULE_DEFINITION

  /** The state between two turns of the loop: what is left of the text, and all variables. */
  datatype Parser = Parser(rest: string, state: PEGParseState, name: string, rule: Rule, brackets: nat, inOr: bool,
                           rules: Rules)

  const NO_RULE: Rule := Rule([], [])

  function Start(grammar: string, rules: Rules): Parser {
    Parser(grammar, RULE_NAME, "", NO_RULE, 0, false, rules)
  }

  function AddRule(p: Parser): Result<Rules, RulesError> {
    if p.name in p.rules then Err(DuplicateRule) else Ok(p.rules[p.name := p.rule])
  }

  /** A newline ends a rule that is not empty, unless a bracket is open or a choice waits for its other side. */
  predicate EndsRule(p: Parser) {
    && p.rest != [] && p.state == RULE_DEFINITION && IsNewline(p.rest[0])
    && p.brackets == 0 && !p.inOr && p.rule.tokens != []
  }

  function TurnName(p: Parser): Result<Parser, RulesError>
    requires p.rest != []
  {
    var name := ReadName(p.rest);
    if name.Err? then Err(name.error)
    else Ok(p.(rest := p.rest[name.value.1..], name := name.value.0, rule := NO_RULE, state := RULE_SEPARATOR))
  }

  function TurnSeparator(p: Parser): Result<Parser, RulesError>
    requires p.rest != []
  {
    if p.rest[0] == '(' then
      if p.rule.parameters != [] then Err(MultipleParameters) else
      var name := ReadParameter(p.rest);
      if name.Err? then Err(name.error)
      else Ok(p.(rest := p.rest[name.value.1..], rule := p.rule.(parameters := [name.value.0])))
    else if |p.rest| < 2 || p.rest[..2] != "<-" then Err(ArrowExpected)
    else Ok(p.(rest := p.rest[2..], state := RULE_DEFINITION))
  }

  function TurnDefinition(p: Parser): Result<Parser, RulesError>
    requires p.rest != []
  {
    var t := ReadToken(p.rest);
    if t.Err? then Err(t.error)
    else if t.value.0 == OPERATOR(')') && p.brackets == 0 then Err(TooManyBrackets)
    else
      Ok(p.(rest := p.rest[t.value.1..], inOr := t.value.0 == OPERATOR('/'), brackets := p.brackets + Opens(t.value.0),
            rule := p.rule.(tokens := p.rule.tokens + [t.value.0])))
  }

  /** One turn of the loop. */
  function Turn(p: Parser): (r: Result<Parser, RulesError>)
    requires p.rest != []
    ensures r.Ok? ==> |r.value.rest| < |p.rest|
  {
    if p.rest[0] == '#' then Ok(p.(rest := p.rest[Span(p.rest, InLine)..]))
    else if EndsRule(p) then
      var rules := AddRule(p);
      if rules.Err? then Err(rules.error)
      else Ok(p.(rest := p.rest[1..], state := RULE_NAME, name := "", rule := NO_RULE, rules := rules.value))
    else if IsSpace(p.rest[0]) then Ok(p.(rest := p.rest[1..]))
    else match p.state
      case RULE_NAME => TurnName(p)
      case RULE_SEPARATOR => TurnSeparator(p)
      case RULE_DEFINITION => TurnDefinition(p)
  }

  function Finish(p: Parser): Result<Rules, RulesError> {
    match p.state
    case RULE_NAME => Ok(p.rules)
    case RULE_SEPARATOR => Err(NoDefinition)
    case RULE_DEFINITION => if p.rule.tokens == [] then Err(EmptyRule) else AddRule(p)
  }

  function ReadRules(p: Parser): Result<Rules, RulesError>
    decreases |p.rest|
  {
    if p.rest == [] then Finish(p) else
    var next := Turn(p);
    if next.Err? then Err(next.error) else ReadRules(next.value)
  }

  /** CloserEnd at a position, unfolded once. */
  lemma CloserTurn(grammar: string, end: nat, final: char)
    requires end < |grammar| && grammar[end] != final
    ensures var skip := if grammar[end] == '\\' then 2 else 1;
            CloserEnd(grammar[end..], final) ==
              if end + skip > |grammar| then None else
              var n := CloserEnd(grammar[end + skip..], final);
              if n.None? then None else Some(n.value + skip)
  {
    var skip := if grammar[end] == '\\' then 2 else 1;
    if end + skip <= |grammar| {
      assert grammar[end..][skip..] == grammar[end + skip..];
    }
  }

  lemma CloserAtEnd(grammar: string, final: char)
    ensures CloserEnd(grammar[|grammar|..], final).None?
    ensures forall end :: 0 <= end < |grammar| && grammar[end] == final ==> CloserEnd(grammar[end..], final) == Some(0)
  {
  }

  lemma SpanFirst(s: string, p: char -> bool)
    requires s != [] && p(s[0])
    ensures Span(s, p) == 1 + Span(s[1..], p)
  {
  }

  lemma ReadTurn(p: Parser)
    requires p.rest != []
    ensures var next := Turn(p); ReadRules(p) == if next.Err? then Err(next.error) else ReadRules(next.value)
  {
  }

  lemma ReadEnd(p: Parser)
    requires p.rest == []
    ensures ReadRules(p) == Finish(p)
  {
  }

  // ----- the code -----

  class PEGParser {
    var rules: Rules

    constructor ()
      ensures rules == map[]
    {
      rules := map[];
    }

    /** A rule is added once. */
    method AddRule(name: string, rule: Rule) returns (added: bool)
      modifies this
      ensures added <==> name !in old(rules)
      ensures rules == if added then old(rules)[name := rule] else old(rules)
    {
      added := name !in rules;
      if added {
        rules := rules[name := rule];
      }
    }

    method SkipWhile(grammar: string, c: nat, p: char -> bool) returns (end: nat)
      requires c <= |grammar|
      ensures end == c + Span(grammar[c..], p) <= |grammar|
    {
      end := c;
      while end < |grammar| && p(grammar[end])
        invariant c <= end <= |grammar| && Span(grammar[c..], p) == end - c + Span(grammar[end..], p)
      {
        assert grammar[end..][1..] == grammar[end + 1..];
        end := end + 1;
      }
    }

    method SkipToCloser(grammar: string, c: nat, final: char) returns (end: nat)
      requires c <= |grammar|
      ensures var n := CloserEnd(grammar[c..], final);
              if n.None? then end >= |grammar| else end == c + n.value < |grammar|
    {
      hide CloserEnd;
      end := c;
      CloserAtEnd(grammar, final);
      while end < |grammar| && grammar[end] != final
        invariant c <= end
        invariant end <= |grammar| ==>
                    var n, m := CloserEnd(grammar[c..], final), CloserEnd(grammar[end..], final);
                    n == if m.None? then None else Some(end - c + m.value)
        invariant end > |grammar| ==> CloserEnd(grammar[c..], final).None?
        decreases |grammar| - end
      {
        var skip := if grammar[end] == '\\' then 2 else 1;
        CloserTurn(grammar, end, final);
        end := end + skip;
      }
    }

    /** The token at the cursor, and the cursor behind it. */
    method NextToken(grammar: string, start: nat) returns (r: Result<(PegToken, nat), RulesError>)
      requires start < |grammar|
      ensures var t := ReadToken(grammar[start..]);
              r == if t.Err? then Err(t.error) else Ok((t.value.0, start + t.value.1))
    {
      hide CloserEnd, Span;
      var c := start;
      ghost var s := grammar[start..];
      if grammar[c] == '\'' {
        c := SkipToCloser(grammar, start + 1, '\'');
        assert grammar[start + 1..] == s[1..];
        if c >= |grammar| {
          return Err(UnclosedLiteral);
        }
        var text := grammar[start + 1..c];
        assert text == s[1..c - start];
        c := c + 1;
        if c < |grammar| && grammar[c] == 'i' {
          c := c + 1;
        }
        return Ok((LITERAL(text), c));
      } else if IsAlphaNumeric(grammar[c]) {
        c := SkipWhile(grammar, start, IsAlphaNumeric);
        var text := grammar[start..c];
        assert text == s[..c - start];
        if c < |grammar| && grammar[c] == '(' {
          return Ok((FUNCTION_CALL(text), c + 1));
        }
        return Ok((REFERENCE(text), c));
      } else if grammar[c] == '[' || grammar[c] == '<' {
        c := SkipToCloser(grammar, start, if grammar[c] == '[' then ']' else '>');
        if c >= |grammar| {
          return Err(UnclosedRegex);
        }
        assert grammar[start..c + 1] == s[..c + 1 - start];
        return Ok((REGEX(grammar[start..c + 1]), c + 1));
      } else if IsPegOperator(grammar[c]) {
        return Ok((OPERATOR(grammar[c]), c + 1));
      }
      r := Err(UnrecognizedContents);
    }

    /** The name at the cursor, and the cursor behind it. */
    method NextName(grammar: string, start: nat) returns (r: Result<(string, nat), RulesError>)
      requires start < |grammar|
      ensures var t := ReadName(grammar[start..]);
              r == if t.Err? then Err(t.error) else Ok((t.value.0, start + t.value.1))
    {
      hide Span;
      var c := start;
      if grammar[c] == '%' {
        c := c + 1;
      }
      assert grammar[c..] == grammar[start..][c - start..];
      c := SkipWhile(grammar, c, IsAlphaNumeric);
      if c == start {
        return Err(NameExpected);
      }
      assert grammar[start..c] == grammar[start..][..c - start];
      r := Ok((grammar[start..c], c));
    }

    /** The bracketed parameter at the cursor, and the cursor behind it. */
    method NextParameter(grammar: string, open: nat) returns (r: Result<(string, nat), RulesError>)
      requires open < |grammar|
      ensures var t := ReadParameter(grammar[open..]);
              r == if t.Err? then Err(t.error) else Ok((t.value.0, open + t.value.1))
    {
      hide Span;
      var start := open + 1;
      assert grammar[start..] == grammar[open..][1..];
      var c := SkipWhile(grammar, start, IsAlphaNumeric);
      if c == start {
        return Err(ParameterExpected);
      }
      if c >= |grammar| || grammar[c] != ')' {
        return Err(ClosingBracketExpected);
      }
      assert grammar[start..c] == grammar[open..][1..c - open];
      r := Ok((grammar[start..c], c + 1));
    }

    /** The whole text is read turn by turn; what it defines is added to the rules there are. */
    method ParseRules(grammar: string) returns (error: Option<RulesError>)
      modifies this
      ensures ReadRules(Start(grammar, old(rules))) == if error.None? then Ok(rules) else Err(error.value)
    {
      hide Span, ReadName, ReadParameter, ReadToken, ReadRules;
      var c, ruleName, rule, parseState, inOrClause := 0, "", NO_RULE, RULE_NAME, false;
      var bracketCount: nat := 0;
      assert grammar == grammar[0..];
      while c < |grammar|
        invariant 0 <= c <= |grammar|
        invariant ReadRules(Start(grammar, old(rules)))
               == ReadRules(Parser(grammar[c..], parseState, ruleName, rule, bracketCount, inOrClause, rules))
        decreases |grammar| - c
      {
        ghost var p := Parser(grammar[c..], parseState, ruleName, rule, bracketCount, inOrClause, rules);
        ReadTurn(p);
        ghost var turn := Turn(p);
        if grammar[c] == '#' {
          SpanFirst(p.rest, InLine);
          c := SkipWhile(grammar, c, InLine);
        } else if parseState == RULE_DEFINITION && IsNewline(grammar[c]) && bracketCount == 0 && !inOrClause
            && rule.tokens != [] {
          var added := AddRule(ruleName, rule);
          if !added {
            return Some(DuplicateRule);
          }
          ruleName, rule, parseState := "", NO_RULE, RULE_NAME;
          c := c + 1;
        } else if IsSpace(grammar[c]) {
          c := c + 1;
        } else {
          match parseState
          case RULE_NAME =>
            var name := NextName(grammar, c);
            if name.Err? {
              return Some(name.error);
            }
            ruleName, rule, parseState := name.value.0, NO_RULE, RULE_SEPARATOR;
            c := name.value.1;
          case RULE_SEPARATOR =>
            if grammar[c] == '(' {
              if rule.parameters != [] {
                return Some(MultipleParameters);
              }
              var name := NextParameter(grammar, c);
              if name.Err? {
                return Some(name.error);
              }
              rule := rule.(parameters := [name.value.0]);
              c := name.value.1;
            } else {
              if c + 1 >= |grammar| || grammar[c] != '<' || grammar[c + 1] != '-' {
                return Some(ArrowExpected);
              }
              c := c + 2;
              parseState := RULE_DEFINITION;
            }
          case RULE_DEFINITION =>
            var token := NextToken(grammar, c);
            if token.Err? {
              return Some(token.error);
            }
            if token.value.0 == OPERATOR(')') && bracketCount == 0 {
              return Some(TooManyBrackets);
            }
            bracketCount := bracketCount + Opens(token.value.0);
            inOrClause := token.value.0 == OPERATOR('/');
            rule := rule.(tokens := rule.tokens + [token.value.0]);
            c := token.value.1;
        }
        assert turn == Ok(Parser(grammar[c..], parseState, ruleName, rule, bracketCount, inOrClause, rules));
      }
      ReadEnd(Parser([], parseState, ruleName, rule, bracketCount, inOrClause, rules));
      assert grammar[c..] == [];
      if parseState == RULE_SEPARATOR {
        return Some(NoDefinition);
      }
      if parseState == RULE_DEFINITION {
        if rule.tokens == [] {
          return Some(EmptyRule);
        }
        var added := AddRule(ruleName, rule);
        if !added {
          return Some(DuplicateRule);
        }
      }
      error := None;
    }
  }
}
