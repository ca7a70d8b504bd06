/** The backtracking matcher of the PEG grammar: what Match and AddSuggestion compute, and the object code that
    computes it. Matchers are nodes of a graph that may be cyclic; a reference to a matcher is a node number. */
module PegMatcher {
  import opened Sequences

  /** The matchers that look at a single token. */
  datatype Leaf = Keyword(text: string) | Identifier(suggestion: nat) | StringLiteral | NumberLiteral | Operator

  datatype Matcher =
    | LeafMatcher(leaf: Leaf)
    | ListMatcher(matchers: seq<nat>)
    | OptionalMatcher(matcher: nat)
    | ChoiceMatcher(choices: seq<nat>)
    | RepeatMatcher(element: nat)

  /** A matcher graph, and which tokens each leaf accepts. */
  datatype Graph = Graph(nodes: seq<Matcher>, accepts: (Leaf, string) -> bool)

  predicate InGraph(g: Graph, ms: seq<nat>) {
    forall k :: 0 <= k < |ms| ==> ms[k] < |g.nodes|
  }

  /** The matchers a matcher refers to are in the graph. */
  predicate WellLinked(g: Graph, n: Matcher) {
    match n
    case LeafMatcher(_) => true
    case ListMatcher(ms) => InGraph(g, ms)
    case OptionalMatcher(c) => c < |g.nodes|
    case ChoiceMatcher(cs) => InGraph(g, cs)
    case RepeatMatcher(c) => c < |g.nodes|
  }

  predicate Closed(g: Graph) {
    forall m :: 0 <= m < |g.nodes| ==> WellLinked(g, g.nodes[m])
  }

  // ----- suggestions -----

  datatype SuggestionType = OPTIONAL | MANDATORY

  /** What AddSuggestion returns, the matchers it has visited, and what it pushed. */
  datatype Suggested = Suggested(kind: SuggestionType, added: set<nat>, log: seq<Leaf>)

  predicate Suggests(leaf: Leaf) {
    leaf.Keyword? || leaf.Identifier?
  }

  ghost function Below(n: nat): (s: set<nat>)
    ensures forall m: nat :: m in s <==> m < n
  {
    if n == 0 then {} else Below(n - 1) + {n - 1}
  }

  ghost function Unvisited(g: Graph, added: set<nat>): set<nat> {
    Below(|g.nodes|) - added
  }

  function Suggestion(g: Graph, m: nat, added: set<nat>): (s: Suggested)
    requires Closed(g) && m < |g.nodes|
    ensures added <= s.added
    decreases Unvisited(g, added), 0, 0
  {
    if m in added then
      Suggested(MANDATORY, added, [])
    else
      assert m in Unvisited(g, added) && m !in Unvisited(g, added + {m});
      SuggestionInternal(g, m, added + {m})
  }

  function SuggestionInternal(g: Graph, m: nat, added: set<nat>): (s: Suggested)
    requires Closed(g) && m < |g.nodes|
    ensures added <= s.added
    decreases Unvisited(g, added), 2, 0
  {
    match g.nodes[m]
    case LeafMatcher(leaf) => Suggested(MANDATORY, added, if Suggests(leaf) then [leaf] else [])
    case ListMatcher(ms) => ListSuggestion(g, ms, added)
    case OptionalMatcher(c) => Suggestion(g, c, added).(kind := OPTIONAL)
    case ChoiceMatcher(cs) => ChoiceSuggestion(g, cs, added)
    case RepeatMatcher(c) => Suggestion(g, c, added).(kind := MANDATORY)
  }

  /** The members of a list in turn, up to the first mandatory one. */
  function ListSuggestion(g: Graph, ms: seq<nat>, added: set<nat>): (s: Suggested)
    requires Closed(g) && InGraph(g, ms)
    ensures added <= s.added
    decreases Unvisited(g, added), 1, |ms|
  {
    if ms == [] then Suggested(OPTIONAL, added, []) else
    var first := Suggestion(g, ms[0], added);
    if first.kind == MANDATORY then first else
    assert Unvisited(g, first.added) <= Unvisited(g, added);
    var rest := ListSuggestion(g, ms[1..], first.added);
    Suggested(rest.kind, rest.added, first.log + rest.log)
  }

  /** Every alternative of a choice. */
  function ChoiceSuggestion(g: Graph, cs: seq<nat>, added: set<nat>): (s: Suggested)
    requires Closed(g) && InGraph(g, cs)
    ensures added <= s.added && s.kind == MANDATORY
    decreases Unvisited(g, added), 1, |cs|
  {
    if cs == [] then Suggested(MANDATORY, added, []) else
    var first := Suggestion(g, cs[0], added);
    assert Unvisited(g, first.added) <= Unvisited(g, added);
    var rest := ChoiceSuggestion(g, cs[1..], first.added);
    Suggested(MANDATORY, rest.added, first.log + rest.log)
  }

  // ----- matching -----

  /** A finished Match: whether it succeeded, the token index and visited matchers it leaves in the caller's state,
      and what it pushed; or no result within the given recursion depth. */
  datatype Outcome = Diverges | Done(ok: bool, index: nat, added: set<nat>, log: seq<Leaf>)

  function Logged(log: seq<Leaf>, o: Outcome): Outcome {
    if o.Done? then o.(log := log + o.log) else o
  }

  /** Match of matcher `m` at token `i`, with recursion no deeper than `fuel`. A matcher that is not a list is only
      ever run on a token. */
  function MatchOutcome(g: Graph, tokens: seq<string>, m: nat, i: nat, added: set<nat>, fuel: nat): (o: Outcome)
    requires Closed(g) && m < |g.nodes| && i <= |tokens|
    requires i < |tokens| || g.nodes[m].ListMatcher?
    ensures o.Done? ==> o.index <= |tokens| && (o.ok ==> i <= o.index)
    decreases fuel, 0
  {
    if fuel == 0 then Diverges else
    match g.nodes[m]
    case LeafMatcher(leaf) =>
      if g.accepts(leaf, tokens[i]) then Done(true, i + 1, added, []) else Done(false, i, added, [])
    case ListMatcher(ms) =>
      var o := ListOutcome(g, tokens, ms, i, i, {}, fuel - 1);
      if o.Done? then o.(added := added) else o
    case OptionalMatcher(c) =>
      var o := MatchOutcome(g, tokens, c, i, {}, fuel - 1);
      if o.Done? then Done(true, if o.ok then o.index else i, added, o.log) else o
    case ChoiceMatcher(cs) =>
      var o := ChoiceOutcome(g, tokens, cs, i, fuel - 1);
      if o.Done? then o.(added := added) else o
    case RepeatMatcher(c) =>
      var o := MatchOutcome(g, tokens, c, i, {}, fuel - 1);
      if o.Diverges? then o
      else if !o.ok then Done(false, i, added, o.log)
      else Logged(o.log, RepeatOutcome(g, tokens, c, o.index, o.added, added, fuel - 1))
  }

  /** The remaining members of a list that began at token `start` and has reached token `i`. */
  function ListOutcome(g: Graph, tokens: seq<string>, ms: seq<nat>, start: nat, i: nat, added: set<nat>,
                       fuel: nat): (o: Outcome)
    requires Closed(g) && InGraph(g, ms) && start <= i <= |tokens|
    ensures o.Done? ==> o.index <= |tokens| && (o.ok ==> i <= o.index)
    decreases fuel, 1, |ms|
  {
    if ms == [] then Done(true, i, added, [])
    else if i >= |tokens| then
      var s := ListSuggestion(g, ms, added);
      Done(s.kind == OPTIONAL, i, s.added, s.log)
    else
      var o := MatchOutcome(g, tokens, ms[0], i, added, fuel);
      if o.Diverges? then o
      else if !o.ok then o.(index := start)
      else Logged(o.log, ListOutcome(g, tokens, ms[1..], start, o.index, o.added, fuel))
  }

  function ChoiceOutcome(g: Graph, tokens: seq<string>, cs: seq<nat>, i: nat, fuel: nat): (o: Outcome)
    requires Closed(g) && InGraph(g, cs) && i < |tokens|
    ensures o.Done? ==> o.index <= |tokens| && (o.ok ==> i <= o.index)
    decreases fuel, 1, |cs|
  {
    if cs == [] then Done(false, i, {}, []) else
    var o := MatchOutcome(g, tokens, cs[0], i, {}, fuel);
    if o.Diverges? || o.ok then o
    else Logged(o.log, ChoiceOutcome(g, tokens, cs[1..], i, fuel))
  }

  /** The loop of a repeat that has matched up to token `i`: `repeated` belongs to the loop's own state,
      `added` to the caller's. */
  function RepeatOutcome(g: Graph, tokens: seq<string>, c: nat, i: nat, repeated: set<nat>, added: set<nat>,
                         fuel: nat): (o: Outcome)
    requires Closed(g) && c < |g.nodes| && i <= |tokens|
    ensures o.Done? ==> o.index <= |tokens| && o.ok && i <= o.index
    decreases fuel, 1
  {
    if i >= |tokens| then
      var s := Suggestion(g, c, added);
      Done(true, i, s.added, s.log)
    else if fuel == 0 then Diverges
    else
      var o := MatchOutcome(g, tokens, c, i, repeated, fuel - 1);
      if o.Diverges? then o
      else if !o.ok then Done(true, i, added, o.log)
      else Logged(o.log, RepeatOutcome(g, tokens, c, o.index, o.added, added, fuel - 1))
  }

  // ----- the object code -----

  class SuggestionLog {
    var items: seq<Leaf>

    constructor ()
      ensures items == []
    {
      items := [];
    }
  }

  /** Copies of a state share the tokens and the suggestions; the visited set starts out empty in each copy. */
  class MatchState {
    const tokens: seq<string>
    const suggestions: SuggestionLog
    var added: set<nat>
    var tokenIndex: nat

    constructor (tokens: seq<string>, suggestions: SuggestionLog)
      ensures this.tokens == tokens && this.suggestions == suggestions && added == {} && tokenIndex == 0
    {
      this.tokens, this.suggestions, added, tokenIndex := tokens, suggestions, {}, 0;
    }

    constructor Copy(state: MatchState)
      ensures tokens == state.tokens && suggestions == state.suggestions && added == {} && tokenIndex == state.tokenIndex
    {
      tokens, suggestions, added, tokenIndex := state.tokens, state.suggestions, {}, state.tokenIndex;
    }
  }

  method AddSuggestion(g: Graph, m: nat, state: MatchState) returns (kind: SuggestionType)
    requires Closed(g) && m < |g.nodes|
    modifies state`added, state.suggestions
    ensures var s := Suggestion(g, m, old(state.added));
            kind == s.kind && state.added == s.added && state.suggestions.items == old(state.suggestions.items) + s.log
    decreases Unvisited(g, state.added), 0, 0
  {
    if m in state.added {
      return MANDATORY;
    }
    assert m in Unvisited(g, state.added);
    state.added := state.added + {m};
    kind := AddSuggestionInternal(g, m, state);
  }

  method AddSuggestionInternal(g: Graph, m: nat, state: MatchState) returns (kind: SuggestionType)
    requires Closed(g) && m < |g.nodes|
    modifies state`added, state.suggestions
    ensures var s := SuggestionInternal(g, m, old(state.added));
            kind == s.kind && state.added == s.added && state.suggestions.items == old(state.suggestions.items) + s.log
    decreases Unvisited(g, state.added), 2, 0
  {
    match g.nodes[m]
    case LeafMatcher(leaf) =>
      if Suggests(leaf) {
        state.suggestions.items := state.suggestions.items + [leaf];
      }
      kind := MANDATORY;
    case ListMatcher(ms) =>
      kind := AddListSuggestions(g, ms, state);
    case OptionalMatcher(c) =>
      var _ := AddSuggestion(g, c, state);
      kind := OPTIONAL;
    case ChoiceMatcher(cs) =>
      kind := AddChoiceSuggestions(g, cs, state);
    case RepeatMatcher(c) =>
      var _ := AddSuggestion(g, c, state);
      kind := MANDATORY;
  }

  /** The state of a loop over the members: what is left to suggest is what the specification still has to do. */
  ghost predicate SuggestingFrom(whole: Suggested, rest: Suggested, log: seq<Leaf>, before: seq<Leaf>, now: seq<Leaf>)
  {
    && now == before + log
    && whole == Suggested(rest.kind, rest.added, log + rest.log)
  }

  /** ListSuggestion and ChoiceSuggestion at member `k`, unfolded once. */
  lemma SuggestionTurn(g: Graph, ms: seq<nat>, k: nat, added: set<nat>)
    requires Closed(g) && InGraph(g, ms) && k <= |ms|
    ensures ListSuggestion(g, ms[k..], added) ==
              if k == |ms| then Suggested(OPTIONAL, added, []) else
              var s := Suggestion(g, ms[k], added);
              if s.kind == MANDATORY then s else
              var rest := ListSuggestion(g, ms[k + 1..], s.added);
              Suggested(rest.kind, rest.added, s.log + rest.log)
    ensures ChoiceSuggestion(g, ms[k..], added) ==
              if k == |ms| then Suggested(MANDATORY, added, []) else
              var s := Suggestion(g, ms[k], added);
              var rest := ChoiceSuggestion(g, ms[k + 1..], s.added);
              Suggested(MANDATORY, rest.added, s.log + rest.log)
  {
    if k < |ms| {
      assert ms[k..][1..] == ms[k + 1..];
    }
  }

  lemma UnvisitedShrinks(g: Graph, added: set<nat>, added': set<nat>)
    requires added <= added'
    ensures Unvisited(g, added') <= Unvisited(g, added)
  {
  }

  method AddListSuggestions(g: Graph, ms: seq<nat>, state: MatchState) returns (kind: SuggestionType)
    requires Closed(g) && InGraph(g, ms)
    modifies state`added, state.suggestions
    ensures var s := ListSuggestion(g, ms, old(state.added));
            kind == s.kind && state.added == s.added && state.suggestions.items == old(state.suggestions.items) + s.log
    decreases Unvisited(g, state.added), 1, |ms|
  {
    hide Suggestion, ListSuggestion, Unvisited, Closed;
    ghost var whole, log := ListSuggestion(g, ms, state.added), [];
    assert ms[0..] == ms;
    for k := 0 to |ms|
      invariant old(state.added) <= state.added
      invariant SuggestingFrom(whole, ListSuggestion(g, ms[k..], state.added), log,
                                old(state.suggestions.items), state.suggestions.items)
    {
      UnvisitedShrinks(g, old(state.added), state.added);
      SuggestionTurn(g, ms, k, state.added);
      ghost var s := Suggestion(g, ms[k], state.added);
      var result := AddSuggestion(g, ms[k], state);
      log := log + s.log;
      if result == MANDATORY {
        return MANDATORY;
      }
    }
    SuggestionTurn(g, ms, |ms|, state.added);
    kind := OPTIONAL;
  }

  method AddChoiceSuggestions(g: Graph, cs: seq<nat>, state: MatchState) returns (kind: SuggestionType)
    requires Closed(g) && InGraph(g, cs)
    modifies state`added, state.suggestions
    ensures var s := ChoiceSuggestion(g, cs, old(state.added));
            kind == s.kind && state.added == s.added && state.suggestions.items == old(state.suggestions.items) + s.log
    decreases Unvisited(g, state.added), 1, |cs|
  {
    hide Suggestion, ChoiceSuggestion, Unvisited, Closed;
    ghost var whole, log := ChoiceSuggestion(g, cs, state.added), [];
    assert cs[0..] == cs;
    for k := 0 to |cs|
      invariant old(state.added) <= state.added
      invariant SuggestingFrom(whole, ChoiceSuggestion(g, cs[k..], state.added), log,
                                old(state.suggestions.items), state.suggestions.items)
    {
      UnvisitedShrinks(g, old(state.added), state.added);
      SuggestionTurn(g, cs, k, state.added);
      ghost var s := Suggestion(g, cs[k], state.added);
      var _ := AddSuggestion(g, cs[k], state);
      log := log + s.log;
    }
    SuggestionTurn(g, cs, |cs|, state.added);
    kind := MANDATORY;
  }

  datatype MatchResult = SUCCESS | FAIL

  /** A call has done what the specification says: returned `result`, and left the state and the log so. */
  ghost predicate Performs(o: Outcome, result: MatchResult, index: nat, added: set<nat>, before: seq<Leaf>,
                           now: seq<Leaf>) {
    o.Done? && o == Done(result == SUCCESS, index, added, o.log) && now == before + o.log
  }

  /** A loop has pushed `log` and still has to do `rest` to come to `whole`. */
  ghost predicate Performing(whole: Outcome, rest: Outcome, log: seq<Leaf>, before: seq<Leaf>, now: seq<Leaf>) {
    rest.Done? && whole == Logged(log, rest) && now == before + log
  }

  lemma PerformingIsDone(whole: Outcome, rest: Outcome, log: seq<Leaf>, before: seq<Leaf>, now: seq<Leaf>)
    requires Performing(whole, rest, log, before, now)
    ensures rest.Done?
  {
  }

  lemma PerformingStarts(whole: Outcome, before: seq<Leaf>)
    requires whole.Done?
    ensures Performing(whole, whole, [], before, before)
  {
    assert [] + whole.log == whole.log && before + [] == before;
  }

  lemma PerformingGoesOn(whole: Outcome, done: seq<Leaf>, rest: Outcome, log: seq<Leaf>, before: seq<Leaf>, now: seq<Leaf>,
                         after: seq<Leaf>)
    requires Performing(whole, Logged(done, rest), log, before, now) && after == now + done
    ensures Performing(whole, rest, log + done, before, after)
  {
    assert log + (done + rest.log) == log + done + rest.log;
    assert before + log + done == before + (log + done);
  }

  lemma PerformingEnds(whole: Outcome, rest: Outcome, log: seq<Leaf>, before: seq<Leaf>, now: seq<Leaf>, after: seq<Leaf>)
    requires Performing(whole, rest, log, before, now) && after == now + rest.log
    ensures whole == rest.(log := log + rest.log) && after == before + whole.log
  {
    assert before + log + rest.log == before + (log + rest.log);
  }

  /** Match, on every state on which it terminates: `fuel` bounds the recursion depth. */
  method Match(g: Graph, m: nat, state: MatchState, ghost fuel: nat) returns (result: MatchResult)
    requires Closed(g) && m < |g.nodes| && state.tokenIndex <= |state.tokens|
    requires state.tokenIndex < |state.tokens| || g.nodes[m].ListMatcher?
    requires MatchOutcome(g, state.tokens, m, state.tokenIndex, state.added, fuel).Done?
    modifies state, state.suggestions
    ensures Performs(old(MatchOutcome(g, state.tokens, m, state.tokenIndex, state.added, fuel)), result,
                     state.tokenIndex, state.added, old(state.suggestions.items), state.suggestions.items)
    decreases fuel, 0
  {
    match g.nodes[m]
    case LeafMatcher(leaf) =>
      if g.accepts(leaf, state.tokens[state.tokenIndex]) {
        state.tokenIndex := state.tokenIndex + 1;
        result := SUCCESS;
      } else {
        result := FAIL;
      }
    case ListMatcher(ms) =>
      result := MatchList(g, ms, state, fuel - 1);
    case OptionalMatcher(c) =>
      result := MatchOptional(g, c, state, fuel - 1);
    case ChoiceMatcher(cs) =>
      result := MatchChoice(g, cs, state, fuel - 1);
    case RepeatMatcher(c) =>
      result := MatchRepeat(g, c, state, fuel - 1);
  }

  method MatchOptional(g: Graph, c: nat, state: MatchState, ghost fuel: nat) returns (result: MatchResult)
    requires Closed(g) && c < |g.nodes| && state.tokenIndex < |state.tokens|
    requires MatchOutcome(g, state.tokens, c, state.tokenIndex, {}, fuel).Done?
    modifies state, state.suggestions
    ensures var child := old(MatchOutcome(g, state.tokens, c, state.tokenIndex, {}, fuel));
            Performs(Done(true, if child.ok then child.index else old(state.tokenIndex), old(state.added), child.log),
                     result, state.tokenIndex, state.added, old(state.suggestions.items), state.suggestions.items)
    decreases fuel, 1, 0
  {
    var childState := new MatchState.Copy(state);
    var childMatch := Match(g, c, childState, fuel);
    if childMatch == SUCCESS {
      state.tokenIndex := childState.tokenIndex;
    }
    result := SUCCESS;
  }

  /** ListOutcome at member `k`, unfolded once. */
  lemma ListTurn(g: Graph, tokens: seq<string>, ms: seq<nat>, k: nat, start: nat, i: nat, added: set<nat>, fuel: nat)
    requires Closed(g) && InGraph(g, ms) && k <= |ms| && start <= i <= |tokens|
    ensures ListOutcome(g, tokens, ms[k..], start, i, added, fuel) ==
              if k == |ms| then Done(true, i, added, [])
              else if i >= |tokens| then
                var s := ListSuggestion(g, ms[k..], added);
                Done(s.kind == OPTIONAL, i, s.added, s.log)
              else
                var o := MatchOutcome(g, tokens, ms[k], i, added, fuel);
                if o.Diverges? then o
                else if !o.ok then o.(index := start)
                else Logged(o.log, ListOutcome(g, tokens, ms[k + 1..], start, o.index, o.added, fuel))
  {
    if k < |ms| {
      assert ms[k..][1..] == ms[k + 1..];
    }
  }

  method MatchList(g: Graph, ms: seq<nat>, state: MatchState, ghost fuel: nat) returns (result: MatchResult)
    requires Closed(g) && InGraph(g, ms) && state.tokenIndex <= |state.tokens|
    requires ListOutcome(g, state.tokens, ms, state.tokenIndex, state.tokenIndex, {}, fuel).Done?
    modifies state, state.suggestions
    ensures Performs(old(ListOutcome(g, state.tokens, ms, state.tokenIndex, state.tokenIndex, {}, fuel)).(added := state.added),
                     result, state.tokenIndex, state.added, old(state.suggestions.items), state.suggestions.items)
    ensures state.added == old(state.added)
    decreases fuel, 1, 0
  {
    hide MatchOutcome, ListOutcome, ListSuggestion, Suggestion, Closed, Performing;
    var listState := new MatchState.Copy(state);
    ghost var start, log, before := state.tokenIndex, [], state.suggestions.items;
    ghost var whole := ListOutcome(g, state.tokens, ms, start, start, {}, fuel);
    assert ms[0..] == ms;
    PerformingStarts(whole, before);
    for k := 0 to |ms|
      invariant start <= listState.tokenIndex <= |state.tokens|
      invariant state.tokenIndex == start && state.added == old(state.added)
      invariant Performing(whole, ListOutcome(g, state.tokens, ms[k..], start, listState.tokenIndex, listState.added, fuel),
                           log, before, state.suggestions.items)
    {
      ghost var rest := ListOutcome(g, state.tokens, ms[k..], start, listState.tokenIndex, listState.added, fuel);
      ghost var now := state.suggestions.items;
      ListTurn(g, state.tokens, ms, k, start, listState.tokenIndex, listState.added, fuel);
      PerformingIsDone(whole, rest, log, before, now);
      if listState.tokenIndex >= |listState.tokens| {
        var suggestionType := AddListSuggestions(g, ms[k..], listState);
        state.tokenIndex := listState.tokenIndex;
        PerformingEnds(whole, rest, log, before, now, state.suggestions.items);
        return if suggestionType == OPTIONAL then SUCCESS else FAIL;
      }
      ghost var child := MatchOutcome(g, state.tokens, ms[k], listState.tokenIndex, listState.added, fuel);
      var matchResult := Match(g, ms[k], listState, fuel);
      if matchResult != SUCCESS {
        PerformingEnds(whole, rest, log, before, now, state.suggestions.items);
        return matchResult;
      }
      ghost var later := ListOutcome(g, state.tokens, ms[k + 1..], start, listState.tokenIndex, listState.added, fuel);
      PerformingGoesOn(whole, child.log, later, log, before, now, state.suggestions.items);
      log := log + child.log;
    }
    ListTurn(g, state.tokens, ms, |ms|, start, listState.tokenIndex, listState.added, fuel);
    assert before + log + [] == before + log;
    PerformingEnds(whole, Done(true, listState.tokenIndex, listState.added, []), log, before, state.suggestions.items,
                   state.suggestions.items);
    state.tokenIndex := listState.tokenIndex;
    result := SUCCESS;
  }

  /** ChoiceOutcome at alternative `k`, unfolded once. */
  lemma ChoiceTurn(g: Graph, tokens: seq<string>, cs: seq<nat>, k: nat, i: nat, fuel: nat)
    requires Closed(g) && InGraph(g, cs) && k <= |cs| && i < |tokens|
    ensures ChoiceOutcome(g, tokens, cs[k..], i, fuel) ==
              if k == |cs| then Done(false, i, {}, []) else
              var o := MatchOutcome(g, tokens, cs[k], i, {}, fuel);
              if o.Diverges? || o.ok then o else Logged(o.log, ChoiceOutcome(g, tokens, cs[k + 1..], i, fuel))
  {
    if k < |cs| {
      assert cs[k..][1..] == cs[k + 1..];
    }
  }

  method MatchChoice(g: Graph, cs: seq<nat>, state: MatchState, ghost fuel: nat) returns (result: MatchResult)
    requires Closed(g) && InGraph(g, cs) && state.tokenIndex < |state.tokens|
    requires ChoiceOutcome(g, state.tokens, cs, state.tokenIndex, fuel).Done?
    modifies state, state.suggestions
    ensures Performs(old(ChoiceOutcome(g, state.tokens, cs, state.tokenIndex, fuel)).(added := state.added),
                     result, state.tokenIndex, state.added, old(state.suggestions.items), state.suggestions.items)
    ensures state.added == old(state.added)
    decreases fuel, 1, 0
  {
    hide MatchOutcome, ChoiceOutcome, Performing;
    ghost var i, log, before := state.tokenIndex, [], state.suggestions.items;
    ghost var whole := ChoiceOutcome(g, state.tokens, cs, i, fuel);
    assert cs[0..] == cs;
    PerformingStarts(whole, before);
    for k := 0 to |cs|
      invariant state.tokenIndex == i && state.added == old(state.added)
      invariant Performing(whole, ChoiceOutcome(g, state.tokens, cs[k..], i, fuel), log, before, state.suggestions.items)
    {
      ghost var rest, now := ChoiceOutcome(g, state.tokens, cs[k..], i, fuel), state.suggestions.items;
      ChoiceTurn(g, state.tokens, cs, k, i, fuel);
      PerformingIsDone(whole, rest, log, before, now);
      var choiceState := new MatchState.Copy(state);
      ghost var child := MatchOutcome(g, state.tokens, cs[k], i, {}, fuel);
      var childResult := Match(g, cs[k], choiceState, fuel);
      if childResult != FAIL {
        state.tokenIndex := choiceState.tokenIndex;
        PerformingEnds(whole, rest, log, before, now, state.suggestions.items);
        return childResult;
      }
      PerformingGoesOn(whole, child.log, ChoiceOutcome(g, state.tokens, cs[k + 1..], i, fuel), log, before, now,
                       state.suggestions.items);
      log := log + child.log;
    }
    ChoiceTurn(g, state.tokens, cs, |cs|, i, fuel);
    assert before + log + [] == before + log;
    PerformingEnds(whole, Done(false, i, {}, []), log, before, state.suggestions.items, state.suggestions.items);
    result := FAIL;
  }

  method MatchRepeat(g: Graph, c: nat, state: MatchState, ghost fuel: nat) returns (result: MatchResult)
    requires Closed(g) && c < |g.nodes| && state.tokenIndex < |state.tokens|
    requires MatchOutcome(g, state.tokens, c, state.tokenIndex, {}, fuel).Done?
    requires var first := MatchOutcome(g, state.tokens, c, state.tokenIndex, {}, fuel);
             first.ok ==> RepeatOutcome(g, state.tokens, c, first.index, first.added, state.added, fuel).Done?
    modifies state, state.suggestions
    ensures var first := old(MatchOutcome(g, state.tokens, c, state.tokenIndex, {}, fuel));
            Performs(if first.ok
                     then Logged(first.log, RepeatOutcome(g, state.tokens, c, first.index, first.added, old(state.added), fuel))
                     else Done(false, old(state.tokenIndex), old(state.added), first.log),
                     result, state.tokenIndex, state.added, old(state.suggestions.items), state.suggestions.items)
    decreases fuel, 2, 0
  {
    hide MatchOutcome, RepeatOutcome;
    var repeatState := new MatchState.Copy(state);
    var childMatch := Match(g, c, repeatState, fuel);
    if childMatch != SUCCESS {
      return childMatch;
    }
    KeepRepeating(g, c, state, repeatState, fuel);
    result := SUCCESS;
  }

  /** RepeatOutcome, unfolded once. */
  lemma RepeatTurn(g: Graph, tokens: seq<string>, c: nat, i: nat, repeated: set<nat>, added: set<nat>, fuel: nat)
    requires Closed(g) && c < |g.nodes| && i <= |tokens|
    requires RepeatOutcome(g, tokens, c, i, repeated, added, fuel).Done?
    ensures i < |tokens| ==> fuel > 0
    ensures RepeatOutcome(g, tokens, c, i, repeated, added, fuel) ==
              if i >= |tokens| then
                var s := Suggestion(g, c, added);
                Done(true, i, s.added, s.log)
              else
                var o := MatchOutcome(g, tokens, c, i, repeated, fuel - 1);
                if o.Diverges? then o
                else if !o.ok then Done(true, i, added, o.log)
                else Logged(o.log, RepeatOutcome(g, tokens, c, o.index, o.added, added, fuel - 1))
  {
  }

  /** The loop of MatchRepeat, entered after the first match of the element. */
  method KeepRepeating(g: Graph, c: nat, state: MatchState, repeatState: MatchState, ghost fuel: nat)
    requires Closed(g) && c < |g.nodes| && repeatState.tokenIndex <= |state.tokens|
    requires state != repeatState && state.tokens == repeatState.tokens && state.suggestions == repeatState.suggestions
    requires RepeatOutcome(g, state.tokens, c, repeatState.tokenIndex, repeatState.added, state.added, fuel).Done?
    modifies state, repeatState, state.suggestions
    ensures Performs(old(RepeatOutcome(g, state.tokens, c, repeatState.tokenIndex, repeatState.added, state.added, fuel)),
                     SUCCESS, state.tokenIndex, state.added, old(state.suggestions.items), state.suggestions.items)
    decreases fuel, 1, 0
  {
    hide MatchOutcome, RepeatOutcome, Suggestion, Closed, Performing;
    ghost var log: seq<Leaf>, depth: nat := [], fuel;
    ghost var before := state.suggestions.items;
    ghost var whole := RepeatOutcome(g, state.tokens, c, repeatState.tokenIndex, repeatState.added, state.added, fuel);
    PerformingStarts(whole, before);
    while true
      invariant repeatState.tokenIndex <= |state.tokens|
      invariant state.added == old(state.added)
      invariant depth <= fuel
      invariant Performing(whole, RepeatOutcome(g, state.tokens, c, repeatState.tokenIndex, repeatState.added, state.added,
                                                depth), log, before, state.suggestions.items)
      decreases depth
    {
      ghost var rest := RepeatOutcome(g, state.tokens, c, repeatState.tokenIndex, repeatState.added, state.added, depth);
      ghost var now := state.suggestions.items;
      PerformingIsDone(whole, rest, log, before, now);
      RepeatTurn(g, state.tokens, c, repeatState.tokenIndex, repeatState.added, state.added, depth);
      state.tokenIndex := repeatState.tokenIndex;
      if repeatState.tokenIndex >= |state.tokens| {
        var _ := AddSuggestion(g, c, state);
        PerformingEnds(whole, rest, log, before, now, state.suggestions.items);
        return;
      }
      ghost var child := MatchOutcome(g, state.tokens, c, repeatState.tokenIndex, repeatState.added, depth - 1);
      var childMatch := Match(g, c, repeatState, depth - 1);
      if childMatch != SUCCESS {
        PerformingEnds(whole, rest, log, before, now, state.suggestions.items);
        return;
      }
      depth := depth - 1;
      ghost var later := RepeatOutcome(g, state.tokens, c, repeatState.tokenIndex, repeatState.added, state.added, depth);
      PerformingGoesOn(whole, child.log, later, log, before, now, state.suggestions.items);
      log := log + child.log;
    }
  }
}
