/** Which rules a text of rules can define: what is read is always printed by some rules, and printed rules are
    read back. */
module PegRulesPrinting {
  import opened Sequences
  import opened PegGrammar
  import opened PegRules

  // ----- well-formed rules -----

  predicate AllAlphaNumeric(s: string) {
    forall k :: 0 <= k < |s| ==> IsAlphaNumeric(s[k])
  }

  /** Every backslash has a character to escape, and the closing character occurs only escaped. */
  predicate Escaped(s: string, final: char) {
    || s == []
    || (s[0] == '\\' && |s| >= 2 && Escaped(s[2..], final))
    || (s[0] != '\\' && s[0] != final && Escaped(s[1..], final))
  }

  predicate WellFormedRegex(text: string, open: char, final: char) {
    |text| >= 2 && text[0] == open && text[|text| - 1] == final && Escaped(text[..|text| - 1], final)
  }

  predicate WellFormedToken(t: PegToken) {
    match t
    case LITERAL(text) => Escaped(text, '\'')
    case REFERENCE(text) => text != "" && AllAlphaNumeric(text)
    case FUNCTION_CALL(text) => text != "" && AllAlphaNumeric(text)
    case OPERATOR(op) => IsPegOperator(op)
    case REGEX(text) => WellFormedRegex(text, '[', ']') || WellFormedRegex(text, '<', '>')
  }

  predicate WellFormedTokens(tokens: seq<PegToken>) {
    forall k :: 0 <= k < |tokens| ==> WellFormedToken(tokens[k])
  }

  predicate WellFormedName(name: string) {
    name != "" && AllAlphaNumeric(if name[0] == '%' then name[1..] else name)
  }

  predicate WellFormedParameters(parameters: seq<string>) {
    |parameters| <= 1 && (parameters != [] ==> parameters[0] != "" && AllAlphaNumeric(parameters[0]))
  }

  predicate WellFormedRule(name: string, rule: Rule) {
    && WellFormedName(name) && WellFormedParameters(rule.parameters)
    && rule.tokens != [] && WellFormedTokens(rule.tokens) && NeverOverclosed(rule.tokens)
  }

  predicate EndsInOr(tokens: seq<PegToken>) {
    tokens != [] && tokens[|tokens| - 1] == OPERATOR('/')
  }

  /** No bracket is open, and no choice waits for its other side. */
  predicate Closed(tokens: seq<PegToken>) {
    Balance(tokens) == 0 && !EndsInOr(tokens)
  }

  ghost predicate WellFormedRules(rules: Rules) {
    && (forall name <- rules :: WellFormedRule(name, rules[name]))
    && (forall a, b :: a in rules && b in rules && !Closed(rules[a].tokens) && !Closed(rules[b].tokens) ==> a == b)
  }

  // ----- what is read is well formed -----

  lemma {:induction false} SpanAll(s: string)
    ensures AllAlphaNumeric(s[..Span(s, IsAlphaNumeric)])
  {
    var n := Span(s, IsAlphaNumeric);
    if n > 0 {
      SpanAll(s[1..]);
      forall k | 0 <= k < n ensures IsAlphaNumeric(s[k]) {
        if k > 0 {
          assert s[k] == s[1..][..n - 1][k - 1];
        }
      }
    }
  }

  lemma {:induction false} CloserEscaped(s: string, final: char)
    requires CloserEnd(s, final).Some? && final != '\\'
    ensures var n := CloserEnd(s, final).value; s[n] == final && Escaped(s[..n], final)
    decreases |s|
  {
    var n := CloserEnd(s, final).value;
    if s[0] != final {
      var skip := if s[0] == '\\' then 2 else 1;
      CloserEscaped(s[skip..], final);
      assert s[..n][skip..] == s[skip..][..n - skip];
    }
  }

  lemma TokenWellFormed(s: string)
    requires s != [] && ReadToken(s).Ok?
    ensures WellFormedToken(ReadToken(s).value.0)
  {
    hide CloserEnd, Span, Escaped;
    if s[0] == '\'' {
      CloserEscaped(s[1..], '\'');
      var n := CloserEnd(s[1..], '\'').value;
      assert s[1..n + 1] == s[1..][..n];
    } else if IsAlphaNumeric(s[0]) {
      SpanAll(s);
      SpanFirst(s, IsAlphaNumeric);
    } else if s[0] == '[' || s[0] == '<' {
      var final := if s[0] == '[' then ']' else '>';
      CloserEscaped(s, final);
      var n := CloserEnd(s, final).value;
      assert s[..n + 1][..n] == s[..n];
    }
  }

  lemma NameWellFormed(s: string)
    requires s != [] && ReadName(s).Ok?
    ensures WellFormedName(ReadName(s).value.0)
  {
    hide Span;
    var skip := if s[0] == '%' then 1 else 0;
    SpanAll(s[skip..]);
    var n := Span(s[skip..], IsAlphaNumeric);
    assert s[..skip + n][skip..] == s[skip..][..n];
  }

  lemma ParameterWellFormed(s: string)
    requires s != [] && ReadParameter(s).Ok?
    ensures WellFormedParameters([ReadParameter(s).value.0])
  {
    hide Span;
    SpanAll(s[1..]);
    var n := Span(s[1..], IsAlphaNumeric);
    assert s[1..n + 1] == s[1..][..n];
  }

  ghost predicate FinishedRules(rules: Rules) {
    forall name <- rules :: WellFormedRule(name, rules[name]) && Closed(rules[name].tokens)
  }

  /** The rule being read: its brackets are counted, none was closed too early, and a `/` at its end is remembered. */
  ghost predicate Healthy(p: Parser) {
    && FinishedRules(p.rules)
    && (p.state != RULE_NAME ==> WellFormedName(p.name) && WellFormedParameters(p.rule.parameters))
    && (p.state != RULE_DEFINITION ==> p.rule.tokens == [])
    && WellFormedTokens(p.rule.tokens) && NeverOverclosed(p.rule.tokens)
    && p.brackets == Balance(p.rule.tokens) && p.inOr == EndsInOr(p.rule.tokens)
  }

  lemma NeverOverclosedSnoc(tokens: seq<PegToken>, t: PegToken)
    requires NeverOverclosed(tokens) && Balance(tokens) + Opens(t) >= 0
    ensures NeverOverclosed(tokens + [t]) && Balance(tokens + [t]) == Balance(tokens) + Opens(t)
  {
    assert (tokens + [t])[..|tokens|] == tokens;
    forall k | 0 <= k <= |tokens| + 1 ensures Balance((tokens + [t])[..k]) >= 0 {
      if k <= |tokens| {
        assert (tokens + [t])[..k] == tokens[..k];
      } else {
        assert (tokens + [t])[..k] == tokens + [t];
      }
    }
  }

  lemma NothingOverclosed()
    ensures NeverOverclosed([]) && Balance([]) == 0
  {
  }

  lemma DefinitionKeepsHealth(p: Parser)
    requires p.rest != [] && Healthy(p) && p.state == RULE_DEFINITION && TurnDefinition(p).Ok?
    ensures Healthy(TurnDefinition(p).value)
  {
    hide ReadToken, WellFormedToken, NeverOverclosed, FinishedRules, Balance, WellFormedName, WellFormedParameters;
    TokenWellFormed(p.rest);
    NeverOverclosedSnoc(p.rule.tokens, ReadToken(p.rest).value.0);
  }

  lemma TurnKeepsHealth(p: Parser)
    requires p.rest != [] && Healthy(p) && Turn(p).Ok?
    ensures Healthy(Turn(p).value)
  {
    hide Span, ReadName, ReadParameter, WellFormedToken, NeverOverclosed, Balance, WellFormedName, WellFormedParameters;
    NothingOverclosed();
    if p.rest[0] == '#' || EndsRule(p) || IsSpace(p.rest[0]) {
      assert WellFormedParameters([]) by { NoParameters(); }
    } else {
      match p.state
      case RULE_NAME => NameWellFormed(p.rest); NoParameters();
      case RULE_SEPARATOR =>
        if p.rest[0] == '(' {
          ParameterWellFormed(p.rest);
        }
      case RULE_DEFINITION => DefinitionKeepsHealth(p);
    }
  }

  lemma NoParameters()
    ensures WellFormedParameters([])
  {
  }

  lemma {:induction false} ReadIsWellFormed(p: Parser)
    requires Healthy(p) && ReadRules(p).Ok?
    ensures WellFormedRules(ReadRules(p).value)
    decreases |p.rest|
  {
    if p.rest == [] {
      hide WellFormedName, WellFormedParameters, WellFormedTokens, NeverOverclosed, Closed;
      var rules := Finish(p).value;
      assert forall name <- rules :: WellFormedRule(name, rules[name]);
    } else {
      hide Turn, Healthy, WellFormedRules;
      ReadTurn(p);
      TurnKeepsHealth(p);
      ReadIsWellFormed(Turn(p).value);
    }
  }

  // ----- printing -----

  function PrintToken(t: PegToken): string {
    match t
    case LITERAL(text) => "'" + text + "'"
    case REFERENCE(text) => text
    case FUNCTION_CALL(text) => text + "("
    case OPERATOR(op) => [op]
    case REGEX(text) => text
  }

  function PrintTokens(tokens: seq<PegToken>): string {
    if tokens == [] then "" else " " + PrintToken(tokens[0]) + PrintTokens(tokens[1..])
  }

  function PrintParameters(parameters: seq<string>): string {
    if parameters == [] then "" else "(" + (parameters[0] + ")")
  }

  function PrintRule(name: string, rule: Rule): string {
    name + (PrintParameters(rule.parameters) + (" <-" + (PrintTokens(rule.tokens) + "\n")))
  }

  function PrintRules(names: seq<string>, rules: Rules): string
    requires forall name <- names :: name in rules
  {
    if names == [] then "" else PrintRule(names[0], rules[names[0]]) + PrintRules(names[1..], rules)
  }

  // ----- printed rules are read back -----

  /** A word ends where a character follows that is not one of its own. */
  predicate EndsWord(tail: string) {
    tail == [] || !IsAlphaNumeric(tail[0])
  }

  lemma {:induction false} SpanWord(word: string, tail: string)
    requires AllAlphaNumeric(word) && EndsWord(tail)
    ensures Span(word + tail, IsAlphaNumeric) == |word|
  {
    if word == [] {
      assert word + tail == tail;
    } else {
      assert (word + tail)[1..] == word[1..] + tail;
      SpanWord(word[1..], tail);
    }
  }

  lemma {:induction false} CloserFound(s: string, final: char, tail: string)
    requires Escaped(s, final) && final != '\\' && tail != [] && tail[0] == final
    ensures CloserEnd(s + tail, final) == Some(|s|)
    decreases |s|
  {
    if s == [] {
      assert s + tail == tail;
    } else {
      var skip := if s[0] == '\\' then 2 else 1;
      assert (s + tail)[skip..] == s[skip..] + tail;
      CloserFound(s[skip..], final, tail);
    }
  }

  /** What follows a token in print. */
  predicate Gap(tail: string) {
    tail != [] && (tail[0] == ' ' || tail[0] == '\n')
  }

  lemma ReadPrintedRegex(text: string, open: char, final: char, tail: string)
    requires WellFormedRegex(text, open, final) && (open, final) in {('[', ']'), ('<', '>')}
    ensures ReadToken(text + tail) == Ok((REGEX(text), |text|))
  {
    hide CloserEnd, Span, Escaped;
    var n := |text| - 1;
    assert text + tail == text[..n] + (text[n..] + tail);
    CloserFound(text[..n], final, text[n..] + tail);
    assert (text + tail)[..n + 1] == text;
  }

  lemma ReadPrintedLiteral(text: string, tail: string)
    requires Escaped(text, '\'') && Gap(tail)
    ensures ReadToken("'" + text + "'" + tail) == Ok((LITERAL(text), |text| + 2))
  {
    hide CloserEnd, Span, Escaped;
    var s := "'" + text + "'" + tail;
    assert s[1..] == text + ("'" + tail);
    CloserFound(text, '\'', "'" + tail);
    assert s[1..|text| + 1] == text;
  }

  /** A word with a bracket behind it is a call, any other a reference. */
  lemma ReadPrintedWord(word: string, tail: string)
    requires word != "" && AllAlphaNumeric(word) && tail != [] && EndsWord(tail)
    ensures ReadToken(word + tail)
         == Ok(if tail[0] == '(' then (FUNCTION_CALL(word), |word| + 1) else (REFERENCE(word), |word|))
  {
    hide Span;
    SpanWord(word, tail);
    assert (word + tail)[..|word|] == word;
    assert (word + tail)[0] == word[0];
  }

  lemma ReadPrintedToken(t: PegToken, tail: string)
    requires WellFormedToken(t) && Gap(tail)
    ensures ReadToken(PrintToken(t) + tail) == Ok((t, |PrintToken(t)|))
  {
    match t
    case LITERAL(text) =>
      hide ReadToken, Escaped;
      ReadPrintedLiteral(text, tail);
    case REFERENCE(text) =>
      hide ReadToken;
      ReadPrintedWord(text, tail);
    case FUNCTION_CALL(text) =>
      hide ReadToken;
      assert PrintToken(t) + tail == text + ("(" + tail);
      ReadPrintedWord(text, "(" + tail);
    case OPERATOR(op) =>
    case REGEX(text) =>
      hide ReadToken, Escaped;
      if WellFormedRegex(text, '[', ']') {
        ReadPrintedRegex(text, '[', ']', tail);
      } else {
        ReadPrintedRegex(text, '<', '>', tail);
      }
  }

  lemma BlankTurn(p: Parser, tail: string)
    requires p.rest == " " + tail
    ensures ReadRules(p) == ReadRules(p.(rest := tail))
  {
    ReadTurn(p);
    assert p.rest[1..] == tail;
  }

  /** The parser after the tokens of a definition. */
  function WithTokens(p: Parser, tokens: seq<PegToken>, tail: string): Parser
    requires Balance(tokens) >= 0
  {
    p.(rest := tail, rule := p.rule.(tokens := tokens), brackets := Balance(tokens), inOr := EndsInOr(tokens))
  }

  lemma PrintedTokenVisible(t: PegToken)
    requires WellFormedToken(t)
    ensures PrintToken(t) != "" && PrintToken(t)[0] != '#' && !IsSpace(PrintToken(t)[0])
  {
  }

  lemma DefinitionTurn(p: Parser)
    requires p.rest != [] && p.rest[0] != '#' && !IsSpace(p.rest[0]) && p.state == RULE_DEFINITION
    ensures Turn(p) == TurnDefinition(p)
  {
  }

  lemma TokenTurn(p: Parser, t: PegToken, tail: string)
    requires p.state == RULE_DEFINITION && WellFormedToken(t) && Gap(tail) && p.rest == PrintToken(t) + tail
    requires p.brackets == Balance(p.rule.tokens) && Balance(p.rule.tokens) + Opens(t) >= 0
    ensures Balance(p.rule.tokens + [t]) >= 0
    ensures ReadRules(p) == ReadRules(WithTokens(p, p.rule.tokens + [t], tail))
  {
    hide ReadToken, ReadRules, Turn, WellFormedToken, IsSpace, PrintToken, Balance, Gap;
    PrintedTokenVisible(t);
    ReadPrintedToken(t, tail);
    assert p.rest[0] == PrintToken(t)[0];
    DefinitionTurn(p);
    ReadTurn(p);
    assert p.rest[|PrintToken(t)|..] == tail;
    BalanceSnoc(p.rule.tokens, t);
  }

  lemma GapAfter(tokens: seq<PegToken>, tail: string)
    requires Gap(tail)
    ensures Gap(PrintTokens(tokens) + tail)
  {
  }

  lemma {:induction false} ReadPrintedTokens(p: Parser, tokens: seq<PegToken>, tail: string)
    requires p.state == RULE_DEFINITION && WellFormedTokens(tokens) && Gap(tail)
    requires p.rest == PrintTokens(tokens) + tail && NeverOverclosed(p.rule.tokens + tokens)
    requires p.brackets == Balance(p.rule.tokens) && p.inOr == EndsInOr(p.rule.tokens)
    ensures Balance(p.rule.tokens + tokens) >= 0
    ensures ReadRules(p) == ReadRules(WithTokens(p, p.rule.tokens + tokens, tail))
    decreases |tokens|
  {
    var was, now := p.rule.tokens, p.rule.tokens + tokens;
    hide ReadRules, Balance, WellFormedToken;
    if tokens == [] {
      assert now == was && p.rest == tail;
    } else {
      var t := tokens[0];
      var rest := PrintTokens(tokens[1..]) + tail;
      assert now == (was + [t]) + tokens[1..];
      assert now[..|was| + 1] == was + [t];
      BalanceSnoc(was, t);
      BlankTurn(p, PrintToken(t) + rest);
      GapAfter(tokens[1..], tail);
      TokenTurn(p.(rest := PrintToken(t) + rest), t, rest);
      ReadPrintedTokens(WithTokens(p, was + [t], rest), tokens[1..], tail);
    }
  }

  lemma BalanceSnoc(tokens: seq<PegToken>, t: PegToken)
    ensures Balance(tokens + [t]) == Balance(tokens) + Opens(t)
  {
    assert (tokens + [t])[..|tokens|] == tokens;
  }

  lemma ReadPrintedName(name: string, tail: string)
    requires WellFormedName(name) && EndsWord(tail)
    ensures ReadName(name + tail) == Ok((name, |name|))
  {
    hide Span;
    var s := name + tail;
    if name[0] == '%' {
      assert s[1..] == name[1..] + tail;
      SpanWord(name[1..], tail);
    } else {
      assert s[0..] == s;
      SpanWord(name, tail);
    }
    assert s[..|name|] == name;
  }

  lemma NameTurn(p: Parser, name: string, tail: string)
    requires p.state == RULE_NAME && WellFormedName(name) && EndsWord(tail) && p.rest == name + tail
    ensures ReadRules(p) == ReadRules(p.(rest := tail, name := name, rule := NO_RULE, state := RULE_SEPARATOR))
  {
    hide ReadName, ReadRules;
    ReadTurn(p);
    ReadPrintedName(name, tail);
    assert p.rest[|name|..] == tail;
    assert p.rest[0] == name[0];
  }

  lemma ReadPrintedParameter(parameter: string, tail: string)
    requires parameter != "" && AllAlphaNumeric(parameter)
    ensures ReadParameter("(" + (parameter + (")" + tail))) == Ok((parameter, |parameter| + 2))
  {
    hide Span;
    var s, word := "(" + (parameter + (")" + tail)), parameter + (")" + tail);
    SpanWord(parameter, ")" + tail);
    assert s[1..] == word;
    assert s[|parameter| + 1] == word[|parameter|] == ')';
    assert s[1..|parameter| + 1] == parameter;
  }

  lemma ParameterTurn(p: Parser, parameter: string, tail: string)
    requires p.state == RULE_SEPARATOR && p.rule.parameters == [] && parameter != "" && AllAlphaNumeric(parameter)
    requires p.rest == "(" + (parameter + (")" + tail))
    ensures ReadRules(p) == ReadRules(p.(rest := tail, rule := p.rule.(parameters := [parameter])))
  {
    hide ReadParameter, ReadRules;
    ReadTurn(p);
    ReadPrintedParameter(parameter, tail);
    assert p.rest[|parameter| + 2..] == tail;
  }

  lemma ArrowTurn(p: Parser, tail: string)
    requires p.state == RULE_SEPARATOR && p.rest == "<-" + tail
    ensures ReadRules(p) == ReadRules(p.(rest := tail, state := RULE_DEFINITION))
  {
    ReadTurn(p);
    assert p.rest[..2] == "<-" && p.rest[2..] == tail;
  }

  /** The name and the parameters of a printed rule. */
  lemma ReadPrintedHead(name: string, parameters: seq<string>, rules: Rules, arrow: string)
    requires WellFormedName(name) && WellFormedParameters(parameters) && arrow != "" && arrow[0] == ' '
    ensures ReadRules(Start(name + (PrintParameters(parameters) + arrow), rules))
         == ReadRules(Parser(arrow, RULE_SEPARATOR, name, Rule(parameters, []), 0, false, rules))
  {
    hide ReadRules, WellFormedName;
    var s := PrintParameters(parameters) + arrow;
    var p1 := Parser(s, RULE_SEPARATOR, name, NO_RULE, 0, false, rules);
    NameTurn(Start(name + s, rules), name, s);
    if parameters == [] {
      assert s == arrow;
    } else {
      assert s == "(" + (parameters[0] + (")" + arrow));
      ParameterTurn(p1, parameters[0], arrow);
      assert [parameters[0]] == parameters;
    }
  }

  lemma ReadPrintedArrow(p: Parser, definition: string)
    requires p.state == RULE_SEPARATOR && p.rest == " " + ("<-" + definition)
    ensures ReadRules(p) == ReadRules(p.(rest := definition, state := RULE_DEFINITION))
  {
    hide ReadRules;
    BlankTurn(p, "<-" + definition);
    ArrowTurn(p.(rest := "<-" + definition), definition);
  }

  lemma PrintedParts(name: string, rule: Rule, tail: string)
    ensures PrintRule(name, rule) + tail ==
              name + (PrintParameters(rule.parameters) + (" " + ("<-" + (PrintTokens(rule.tokens) + ("\n" + tail)))))
  {
    hide PrintTokens, PrintParameters;
    var definition := PrintTokens(rule.tokens) + ("\n" + tail);
    assert (PrintTokens(rule.tokens) + "\n") + tail == definition;
    assert (" <-" + (PrintTokens(rule.tokens) + "\n")) + tail == " " + ("<-" + definition);
  }

  /** A printed rule up to its last token. */
  lemma ReadPrintedRule(name: string, rule: Rule, rules: Rules, tail: string)
    requires WellFormedRule(name, rule)
    ensures Balance(rule.tokens) >= 0
    ensures ReadRules(Start(PrintRule(name, rule) + tail, rules))
         == ReadRules(Parser("\n" + tail, RULE_DEFINITION, name, rule, Balance(rule.tokens), EndsInOr(rule.tokens), rules))
  {
    hide ReadRules, WellFormedName, WellFormedParameters, WellFormedTokens, NeverOverclosed, Balance, EndsInOr, Start,
      PrintTokens, PrintParameters, PrintRule;
    var definition := PrintTokens(rule.tokens) + ("\n" + tail);
    PrintedParts(name, rule, tail);
    ReadPrintedHead(name, rule.parameters, rules, " " + ("<-" + definition));
    var p := Parser(" " + ("<-" + definition), RULE_SEPARATOR, name, Rule(rule.parameters, []), 0, false, rules);
    ReadPrintedArrow(p, definition);
    NothingOverclosed();
    NoTokens();
    assert [] + rule.tokens == rule.tokens;
    ReadPrintedTokens(p.(rest := definition, state := RULE_DEFINITION), rule.tokens, "\n" + tail);
  }

  lemma NoTokens()
    ensures !EndsInOr([])
  {
  }

  /** The newline ends a closed rule. */
  lemma ReadClosedRule(name: string, rule: Rule, rules: Rules, tail: string)
    requires WellFormedRule(name, rule) && Closed(rule.tokens) && name !in rules
    ensures ReadRules(Start(PrintRule(name, rule) + tail, rules)) == ReadRules(Start(tail, rules[name := rule]))
  {
    hide PrintRule, NeverOverclosed, Balance, ReadRules;
    ReadPrintedRule(name, rule, rules, tail);
    var p := Parser("\n" + tail, RULE_DEFINITION, name, rule, 0, false, rules);
    assert EndsRule(p) && p.rest[1..] == tail;
    ReadTurn(p);
  }

  /** The end of the text ends any rule. */
  lemma ReadLastRule(name: string, rule: Rule, rules: Rules)
    requires WellFormedRule(name, rule) && name !in rules
    ensures ReadRules(Start(PrintRule(name, rule), rules)) == Ok(rules[name := rule])
  {
    if Closed(rule.tokens) {
      ReadClosedRule(name, rule, rules, "");
      ReadEnd(Start("", rules[name := rule]));
      assert PrintRule(name, rule) + "" == PrintRule(name, rule);
    } else {
      hide PrintRule, NeverOverclosed, Balance, ReadRules;
      ReadPrintedRule(name, rule, rules, "");
      assert PrintRule(name, rule) + "" == PrintRule(name, rule);
      var p := Parser("\n", RULE_DEFINITION, name, rule, Balance(rule.tokens), EndsInOr(rule.tokens), rules);
      assert "\n" + "" == "\n" && p.rest[1..] == "";
      ReadTurn(p);
      ReadEnd(p.(rest := ""));
    }
  }

  /** The names are all different, and all but the last are those of closed rules. */
  ghost predicate PrintOrder(names: seq<string>, rules: Rules) {
    && (forall i, j :: 0 <= i < j < |names| ==> names[i] != names[j])
    && (forall name <- names :: name in rules && WellFormedRule(name, rules[name]))
    && (forall i :: 0 <= i < |names| - 1 ==> Closed(rules[names[i]].tokens))
  }

  lemma {:induction false} ReadPrintedRules(names: seq<string>, rules: Rules, before: Rules)
    requires PrintOrder(names, rules)
    requires forall name :: name in rules <==> name in before || name in names
    requires forall name <- before :: name !in names && before[name] == rules[name]
    ensures ReadRules(Start(PrintRules(names, rules), before)) == Ok(rules)
    decreases |names|
  {
    if names == [] {
      assert before == rules;
    } else {
      var name := names[0];
      var now := before[name := rules[name]];
      hide PrintRule, WellFormedRule, Closed, ReadRules, PrintOrder;
      PrintOrderRest(names, rules);
      if |names| == 1 {
        ReadLastRule(name, rules[name], before);
        assert now == rules;
        assert PrintRule(name, rules[name]) + "" == PrintRule(name, rules[name]);
      } else {
        ReadClosedRule(name, rules[name], before, PrintRules(names[1..], rules));
        ReadPrintedRules(names[1..], rules, now);
      }
    }
  }

  lemma PrintOrderRest(names: seq<string>, rules: Rules)
    requires PrintOrder(names, rules) && names != []
    ensures names[0] in rules && WellFormedRule(names[0], rules[names[0]])
    ensures PrintOrder(names[1..], rules)
    ensures names[0] !in names[1..] && forall name :: name in names <==> name == names[0] || name in names[1..]
    ensures |names| > 1 ==> Closed(rules[names[0]].tokens)
  {
    hide WellFormedRule, Closed;
    assert names == [names[0]] + names[1..];
    assert forall name <- names[1..] :: name in names;
    assert names[0] in names;
    forall i | 0 <= i < |names[1..]| - 1 ensures Closed(rules[names[1..][i]].tokens) {
      assert names[1..][i] == names[i + 1];
    }
  }

  lemma {:induction false} Ordered(names: set<string>) returns (order: seq<string>)
    ensures forall i, j :: 0 <= i < j < |order| ==> order[i] != order[j]
    ensures forall name :: name in order <==> name in names
  {
    if names == {} {
      order := [];
    } else {
      var name :| name in names;
      var rest := Ordered(names - {name});
      order := [name] + rest;
    }
  }

  lemma PrintOrderExists(rules: Rules) returns (names: seq<string>)
    requires WellFormedRules(rules)
    ensures PrintOrder(names, rules) && forall name :: name in rules <==> name in names
  {
    hide WellFormedRule, Closed;
    if last :| last in rules && !Closed(rules[last].tokens) {
      var others := Ordered(rules.Keys - {last});
      names := others + [last];
      forall i | 0 <= i < |names| - 1 ensures names[i] in rules && Closed(rules[names[i]].tokens) {
        assert names[i] == others[i] && others[i] in others;
      }
    } else {
      names := Ordered(rules.Keys);
      forall i | 0 <= i < |names| - 1 ensures names[i] in rules && Closed(rules[names[i]].tokens) {
        assert names[i] in names;
      }
    }
  }

  /** Some text defines exactly these rules if and only if they are well formed and at most one is left open. */
  lemma ReadExactly(rules: Rules)
    ensures (exists text :: ReadRules(Start(text, map[])) == Ok(rules)) <==> WellFormedRules(rules)
  {
    hide ReadRules, WellFormedRules, PrintOrder;
    if text :| ReadRules(Start(text, map[])) == Ok(rules) {
      StartIsHealthy(text);
      ReadIsWellFormed(Start(text, map[]));
    }
    if WellFormedRules(rules) {
      var names := PrintOrderExists(rules);
      ReadPrintedRules(names, rules, map[]);
    }
  }

  lemma StartIsHealthy(text: string)
    ensures Healthy(Start(text, map[]))
  {
    NothingOverclosed();
  }

  /** A rule that comes from a text never has half a choice put twice in a group: it is compiled exactly if its
      tokens are those of proper items. */
  lemma ReadThenParsed(text: string, rules: Rules, name: string, xs: seq<Item>)
    requires ReadRules(Start(text, map[])) == Ok(rules) && name in rules
    ensures Parse(rules[name].tokens) == Ok(xs)
       <==> AllProper(xs) && PrintItems(xs) == WithoutNots(rules[name].tokens)
  {
    StartIsHealthy(text);
    ReadIsWellFormed(Start(text, map[]));
    var tokens := rules[name].tokens;
    assert tokens[..|tokens|] == tokens;
    ParseExactly(tokens, xs);
  }
}
