/** The factory of matchers: rules are looked up by name, read token by token through a stack of lists and choices,
    and remembered. */
module MatcherFactories {
  import opened Sequences
  import opened G = PegGrammar
  import opened PegCompiler
  import opened PegBuilding
  import M = PegMatcher

  /** What came of one token. */
  datatype TokenResult = Fine | Wrong(error: GrammarError) | Nested(cause: BuildError)

  /** The argument and the keywords of a rule are matchers. */
  ghost predicate ScopeBelow(scope: Scope, size: nat) {
    && ValidScope(scope) && (scope.argument.Some? ==> scope.argument.value < size)
    && (forall text :: scope.keywords(text).Some? ==> scope.keywords(text).value < size)
  }

  /** A matcher or an error, and the names that have matchers afterwards, are what building comes to. */
  predicate Comes(outcome: Outcome, r: BuildResult, names: set<string>) {
    outcome == if r.Ok? then Built(names) else Failed(r.error)
  }

  /** What reading a body comes to, from what came of its last token. */
  function BodyOutcome(r: TokenResult, rule: string, names: set<string>): Outcome {
    match r
    case Fine => Built(names)
    case Wrong(error) => Failed(BadBody(rule, error))
    case Nested(cause) => Failed(cause)
  }

  /** The names afterwards, or the error, are those of the rule that a token needs. */
  predicate NeededComes(r: TokenResult, outcome: Outcome, names: set<string>) {
    (r.Fine? ==> outcome == Built(names)) && (r.Nested? ==> outcome == Failed(r.cause))
  }

  // ----- the factory and the stack -----

  class MatcherFactory {
    var nodes: seq<M.Matcher>
    var matchers: map<string, nat>
    const keywordOverrides: string -> Option<nat>
    ghost const builtins: map<string, nat>
    ghost var made: seq<Maker>

    ghost function State(): Arena
      reads this
    {
      Arena(nodes, matchers, made)
    }

    /** The built-in matchers exist. */
    ghost predicate Ready()
      reads this
    {
      Sound(State(), builtins) && forall text :: keywordOverrides(text).Some? ==> keywordOverrides(text).value < |nodes|
    }

    /** A factory whose only matchers are built in. */
    constructor (leaves: seq<M.Leaf>, rules: map<string, nat>, keywords: string -> Option<nat>)
      requires forall name :: name in rules ==> rules[name] < |leaves|
      requires forall text :: keywords(text).Some? ==> keywords(text).value < |leaves|
      ensures Ready() && matchers == builtins == rules && keywordOverrides == keywords && |nodes| == |leaves|
      ensures made == seq(|leaves|, _ => Done)
      ensures forall k :: 0 <= k < |leaves| ==> nodes[k] == M.LeafMatcher(leaves[k])
    {
      nodes := seq(|leaves|, k requires 0 <= k < |leaves| => M.LeafMatcher(leaves[k]));
      matchers := rules;
      keywordOverrides := keywords;
      builtins := rules;
      made := seq(|leaves|, _ => Done);
    }

    method Allocate(node: M.Matcher, ghost maker: Maker) returns (n: nat)
      modifies this`nodes, this`made
      ensures n == old(|nodes|) && State() == Add(old(State()), node, maker)
    {
      n := |nodes|;
      nodes := nodes + [node];
      made := made + [maker];
    }

    /** A keyword that has no matcher of its own gets a new one each time. */
    method Keyword(text: string) returns (n: nat)
      modifies this`nodes, this`made
      ensures keywordOverrides(text).Some? ==> n == keywordOverrides(text).value && State() == old(State())
      ensures keywordOverrides(text).None? ==>
                n == old(|nodes|) && State() == Add(old(State()), M.LeafMatcher(M.Keyword(text)), Done)
    {
      if keywordOverrides(text).Some? {
        n := keywordOverrides(text).value;
      } else {
        n := Allocate(M.LeafMatcher(M.Keyword(text)), Done);
      }
    }

    /** Creates the matcher of a rule, or of a call of a rule with an argument. A rule without argument is created
        once; it can be found before its body is read, so that its body may refer to it. */
    method CreateMatcher(rules: Rules, name: string, argument: Option<nat>, ghost fuel: nat) returns (r: BuildResult)
      requires Ready() && (argument.Some? ==> argument.value < |nodes|)
      requires Build(rules, Site(matchers.Keys, name, argument.Some?), fuel) != Deeper
      modifies this
      ensures r.Ok? ==> Ready() && AllBuilt(old(State()), State(), rules, keywordOverrides, builtins)
      ensures r.Ok? ==> r.value < |nodes|
      ensures r.Ok? ==> if argument.None? then name in matchers && matchers[name] == r.value
                           else made[r.value] == Instance(name, argument)
      ensures r.Err? ==> Blames(rules, r.error)
      ensures Comes(Build(rules, Site(old(matchers).Keys, name, argument.Some?), fuel), r, matchers.Keys)
      decreases fuel, 0
    {
      ghost var site := Site(matchers.Keys, name, argument.Some?);
      if argument.None? && name in matchers {
        NothingBuilt(State(), rules, keywordOverrides, builtins);
        return Ok(matchers[name]);
      }
      if name !in rules {
        return Err(MissingRule(name));
      }
      ghost var base := State();
      var matcher := Allocate(M.ListMatcher([]), Instance(name, argument));
      if argument.None? {
        matchers := matchers[name := matcher];
      }
      var rule := rules[name];
      if |rule.parameters| > 1 {
        return Err(TooManyParameters(name));
      }
      var given := if argument.Some? then 1 else 0;
      if |rule.parameters| != given {
        return Err(ParameterCount(name, given));
      }
      StartSound(base, State(), name, argument, matcher, builtins);
      BodyEnds(rules, site, fuel);
      r := FillMatcher(rules, name, argument, matcher, base, fuel - 1);
    }

    /** Reads the body of a rule into its new matcher. */
    method FillMatcher(rules: Rules, name: string, argument: Option<nat>, matcher: nat, ghost base: Arena,
                       ghost fuel: nat)
      returns (r: BuildResult)
      requires Started(base, State(), name, argument, matcher, builtins) && Ready()
      requires argument.Some? ==> argument.value < |nodes|
      requires var site := Site(base.cache.Keys, name, argument.Some?);
               Opened(rules, site) && ReadBody(rules, site, |Tokens(rules, site)|, fuel) != Deeper
      modifies this
      ensures r.Ok? ==> Ready() && AllBuilt(base, State(), rules, keywordOverrides, builtins)
      ensures r.Ok? ==> r.value == matcher < |nodes| && made[matcher] == Instance(name, argument)
      ensures r.Ok? && argument.None? ==> name in matchers && matchers[name] == matcher
      ensures r.Err? ==> Blames(rules, r.error)
      ensures Comes(Build(rules, Site(base.cache.Keys, name, argument.Some?), fuel + 1), r, matchers.Keys)
      decreases fuel, 7
    {
      ghost var site := Site(base.cache.Keys, name, argument.Some?);
      StartedFacts(base, State(), name, argument, matcher, builtins);
      OpenedFacts(rules, site);
      hide *;
      var rule := rules[name];
      var list := new MatcherList(this, rules, Scope(rule.parameters, argument, keywordOverrides), matcher, base);
      StartReading(base, State(), rules, list.scope, builtins, matcher, name);
      var e := list.ReadTokens(rule.tokens, site, fuel);
      if !e.Fine? {
        BodyFails(rules, site, fuel, e, matchers.Keys);
      }
      if e.Wrong? {
        return Err(BadBody(name, e.error));
      }
      if e.Nested? {
        return Err(e.cause);
      }
      ghost var frames := G.Run(EMPTY_STACK, rule.tokens).value;
      KeptAcross(old(State()), State(), matcher);
      list.HoldsBasics(frames);
      BodyRead(rules, site, fuel, matchers.Keys, frames, matcher);
      if |list.matchers| != 1 {
        return Err(BadBody(name, UnclosedBracket));
      }
      ReadAll(base, list.Stack(), rules, list.scope, builtins, matcher, frames, name);
      r := Ok(matcher);
    }
  }

  lemma StartedFacts(base: Arena, a: Arena, name: string, argument: Option<nat>, matcher: nat, builtins: map<string, nat>)
    requires Started(base, a, name, argument, matcher, builtins)
    ensures ValidFrames(EMPTY_STACK) && matcher < |a.nodes| == |a.made| && a.made[matcher] == Instance(name, argument)
    ensures argument.None? ==> name in a.cache && a.cache[name] == matcher
    ensures a.cache.Keys == NamesInside(Site(base.cache.Keys, name, argument.Some?))
  {
  }

  lemma OpenedFacts(rules: Rules, s: Site)
    requires Opened(rules, s)
    ensures s.rule in rules && Tokens(rules, s) == rules[s.rule].tokens
    ensures |rules[s.rule].parameters| == if s.called then 1 else 0
  {
  }

  /** A body that is not read to its end. */
  lemma BodyFails(rules: Rules, s: Site, fuel: nat, e: TokenResult, names: set<string>)
    requires Opened(rules, s) && !e.Fine? && (e.Wrong? ==> G.Parse(Tokens(rules, s)) == Err(e.error))
    requires ReadBody(rules, s, |Tokens(rules, s)|, fuel) == BodyOutcome(e, s.rule, names)
    ensures var error := if e.Wrong? then BadBody(s.rule, e.error) else e.cause;
            Comes(Build(rules, s, fuel + 1), Err(error), names) && (e.Wrong? ==> Blames(rules, error))
  {
  }

  /** A body that is read to its end. */
  lemma BodyRead(rules: Rules, s: Site, fuel: nat, names: set<string>, frames: seq<Frame>, matcher: nat)
    requires Opened(rules, s) && ReadBody(rules, s, |Tokens(rules, s)|, fuel) == BodyOutcome(Fine, s.rule, names)
    requires G.Run(EMPTY_STACK, Tokens(rules, s)) == Ok(frames)
    ensures if |frames| == 1 then Comes(Build(rules, s, fuel + 1), Ok(matcher), names)
            else Comes(Build(rules, s, fuel + 1), Err(BadBody(s.rule, UnclosedBracket)), names)
                 && Blames(rules, BadBody(s.rule, UnclosedBracket))
  {
    var tokens := Tokens(rules, s);
    assert tokens[..|tokens|] == tokens;
  }

  /** The matcher of a rule has just been created. */
  ghost predicate Started(base: Arena, a: Arena, name: string, argument: Option<nat>, matcher: nat,
                          builtins: map<string, nat>) {
    && Sound(base, builtins) && matcher == |base.nodes| && (argument == None ==> name !in base.cache)
    && a == Add(base, M.ListMatcher([]), Instance(name, argument)).(
              cache := if argument == None then base.cache[name := matcher] else base.cache)
  }

  lemma StartReading(base: Arena, a: Arena, rules: Rules, scope: Scope, builtins: map<string, nat>, matcher: nat,
                     name: string)
    requires Started(base, a, name, scope.argument, matcher, builtins) && Sound(a, builtins)
    ensures Reading(base, Work(a, [MatcherListEntry(matcher, None)]), rules, scope, builtins, matcher, EMPTY_STACK)
  {
    var entries := [MatcherListEntry(matcher, None)];
    assert entries[..0] == [] && EMPTY_STACK[..0] == [];
    assert StackFits(a, scope, entries[..0], EMPTY_STACK[..0], None);
  }

  lemma StartSound(base: Arena, a: Arena, name: string, argument: Option<nat>, matcher: nat, builtins: map<string, nat>)
    requires Started(base, a, name, argument, matcher, builtins)
    ensures Sound(a, builtins)
  {
    Wider(base, M.ListMatcher([]));
  }

  lemma NothingBuilt(a: Arena, rules: Rules, keywords: string -> Option<nat>, builtins: map<string, nat>)
    requires Sound(a, builtins)
    ensures AllBuilt(a, a, rules, keywords, builtins)
  {
  }

  lemma KeptAcross(a: Arena, b: Arena, root: nat)
    requires Keeps(a, b, root) && root < |a.nodes| && a.made[root].Instance?
    ensures |b.made| == |b.nodes| >= |a.nodes| && b.made[root] == a.made[root]
    ensures forall name :: name in a.cache ==> name in b.cache && b.cache[name] == a.cache[name]
  {
  }

  /** The stack of one rule that is being read. */
  class MatcherList {
    const factory: MatcherFactory
    const rules: Rules
    const scope: Scope
    var matchers: seq<MatcherListEntry>
    ghost const base: Arena
    ghost const root: nat

    ghost function Stack(): Work
      reads this, factory
    {
      Work(factory.State(), matchers)
    }

    /** The stack represents the frames. */
    ghost predicate Holds(frames: seq<Frame>)
      reads this, factory
    {
      && scope.keywords == factory.keywordOverrides && ScopeBelow(scope, |factory.nodes|)
      && Reading(base, Stack(), rules, scope, factory.builtins, root, frames)
    }

    lemma HoldsBasics(frames: seq<Frame>)
      requires Holds(frames)
      ensures factory.Ready() && ValidFrames(frames) && Usable(Stack()) && |matchers| == |frames|
      ensures root < |factory.nodes| == |factory.made| && factory.made[root].Instance?
      ensures Reading(base, Stack(), rules, scope, factory.builtins, root, frames)
      ensures scope.keywords == factory.keywordOverrides
      ensures matchers[|matchers| - 1].functionName ==
                if frames[|frames| - 1].ListFrame? then frames[|frames| - 1].functionName else None
      ensures var node := factory.nodes[matchers[|matchers| - 1].matcher];
              if frames[|frames| - 1].ListFrame? then node.ListMatcher? && |node.matchers| == |frames[|frames| - 1].items|
              else node.ChoiceMatcher?
    {
      ReadingBasics(base, Stack(), rules, scope, factory.builtins, root, frames);
    }

    lemma StillHolds(a: Arena, frames: seq<Frame>)
      requires scope.keywords == factory.keywordOverrides && ScopeBelow(scope, |a.nodes|)
      requires Reading(base, Stack(), rules, scope, factory.builtins, root, frames) && Keeps(a, factory.State(), root)
      ensures Holds(frames)
    {
    }

    constructor (factory: MatcherFactory, rules: Rules, scope: Scope, root: nat, ghost base: Arena)
      ensures this.factory == factory && this.rules == rules && this.scope == scope
      ensures this.root == root && this.base == base && matchers == [MatcherListEntry(root, None)]
    {
      this.factory := factory;
      this.rules := rules;
      this.scope := scope;
      this.root := root;
      this.base := base;
      matchers := [MatcherListEntry(root, None)];
    }

    method AddMatcher(m: nat)
      requires Usable(Stack())
      modifies this, factory`nodes, factory`made
      ensures Stack() == AddTo(old(Stack()), m)
    {
      var n := matchers[|matchers| - 1].matcher;
      if factory.nodes[n].ListMatcher? {
        factory.nodes := factory.nodes[n := M.ListMatcher(factory.nodes[n].matchers + [m])];
      } else if factory.nodes[n].ChoiceMatcher? {
        factory.nodes := factory.nodes[n := M.ChoiceMatcher(factory.nodes[n].choices + [m])];
        factory.made := factory.made[n := Done];
        matchers := matchers[..|matchers| - 1];
      }
    }

    method BeginList(name: Option<string>)
      modifies this, factory`nodes, factory`made
      ensures Stack() == PushList(old(Stack()), name)
    {
      var n := factory.Allocate(M.ListMatcher([]), Open);
      matchers := matchers + [MatcherListEntry(n, name)];
    }

    method Pop()
      requires Usable(Stack())
      modifies this, factory`nodes, factory`made
      ensures Stack() == PopTop(old(Stack()))
    {
      factory.made := factory.made[matchers[|matchers| - 1].matcher := Done];
      matchers := matchers[..|matchers| - 1];
    }

    /** `?` and `*`. */
    method Wrap(star: bool) returns (e: Option<GrammarError>)
      requires Usable(Stack())
      modifies this, factory`nodes, factory`made
      ensures var node := old(factory.nodes[matchers[|matchers| - 1].matcher]);
              && (e == Some(NoListToRepeat) <==> !node.ListMatcher?)
              && (e == Some(NothingToRepeat) <==> node.ListMatcher? && node.matchers == [])
              && (e == None <==> LastOfTop(old(Stack())).Some?)
      ensures e == None ==> Stack() == WrapLastOf(old(Stack()), star)
    {
      var top := matchers[|matchers| - 1].matcher;
      if !factory.nodes[top].ListMatcher? {
        return Some(NoListToRepeat);
      }
      var kids := factory.nodes[top].matchers;
      if kids == [] {
        return Some(NothingToRepeat);
      }
      var final := kids[|kids| - 1];
      if star {
        final := factory.Allocate(M.RepeatMatcher(final), Done);
      }
      var replaced := factory.Allocate(M.OptionalMatcher(final), Done);
      factory.nodes := factory.nodes[top := M.ListMatcher(kids[..|kids| - 1] + [replaced])];
      e := None;
    }

    /** `/`. */
    method Or() returns (e: Option<GrammarError>)
      requires Usable(Stack())
      modifies this, factory`nodes, factory`made
      ensures var node := old(factory.nodes[matchers[|matchers| - 1].matcher]);
              && (e == Some(NoListToChoose) <==> !node.ListMatcher?)
              && (e == Some(NothingToChoose) <==> node.ListMatcher? && node.matchers == [])
              && (e == None <==> LastOfTop(old(Stack())).Some?)
      ensures e == None ==> Stack() == OpenChoiceOf(old(Stack()))
    {
      var top := matchers[|matchers| - 1].matcher;
      if !factory.nodes[top].ListMatcher? {
        return Some(NoListToChoose);
      }
      var kids := factory.nodes[top].matchers;
      if kids == [] {
        return Some(NothingToChoose);
      }
      var choice := factory.Allocate(M.ChoiceMatcher([kids[|kids| - 1]]), Open);
      factory.nodes := factory.nodes[top := M.ListMatcher(kids[..|kids| - 1] + [choice])];
      matchers := matchers + [MatcherListEntry(choice, None)];
      e := None;
    }

    /** A finished matcher for the next item. */
    method ReadMatcher(m: nat, ghost frames: seq<Frame>, ghost x: Item)
      requires Holds(frames) && m < |factory.nodes| && Fits(factory.State(), scope, m, x)
      modifies this, factory`nodes, factory`made
      ensures Holds(AddItem(frames, x)) && Keeps(old(factory.State()), factory.State(), root)
    {
      HoldsBasics(frames);
      ReadItem(base, Stack(), rules, scope, factory.builtins, root, frames, m, x);
      hide Reading, Keeps, AddTo, Usable, AddItem, ValidFrames, Fits;
      AddMatcher(m);
      StillHolds(old(factory.State()), AddItem(frames, x));
    }

    method ReadLiteral(text: string, ghost frames: seq<Frame>)
      requires Holds(frames)
      modifies this, factory`nodes, factory`made
      ensures Holds(AddItem(frames, Literal(text))) && Keeps(old(factory.State()), factory.State(), root)
    {
      HoldsBasics(frames);
      KeepsItself(Stack(), root);
      hide Reading, Keeps, AddItem, Sound, ScopeBelow;
      var m := factory.Keyword(text);
      if scope.keywords(text).None? {
        ReadNode(base, old(Stack()), rules, scope, factory.builtins, root, frames, M.LeafMatcher(M.Keyword(text)));
        StillHolds(old(factory.State()), frames);
      }
      KeywordFits(factory.State(), scope, m, text);
      ghost var a := factory.State();
      ReadMatcher(m, frames, Literal(text));
      KeepsTrans(old(factory.State()), a, factory.State(), root);
    }

    /** A reference is to the argument, or to the matcher of a rule. */
    method ReadReference(text: string, ghost frames: seq<Frame>, ghost fuel: nat) returns (r: TokenResult)
      requires Holds(frames)
      requires text !in scope.parameters ==> Build(rules, Site(factory.matchers.Keys, text, false), fuel) != Deeper
      modifies this, factory
      ensures r.Fine? ==> Holds(AddItem(frames, Reference(text))) && Keeps(old(factory.State()), factory.State(), root)
      ensures !r.Wrong? && (r.Nested? ==> Blames(rules, r.cause))
      ensures NeededComes(r, if text in scope.parameters then Built(old(factory.matchers).Keys)
                             else Build(rules, Site(old(factory.matchers).Keys, text, false), fuel),
                          factory.matchers.Keys)
      decreases fuel, 1
    {
      HoldsBasics(frames);
      hide Reading, Keeps, AddItem, Sound, AllBuilt, Build;
      if text in scope.parameters {
        ReadMatcher(scope.argument.value, frames, Reference(text));
        r := Fine;
      } else {
        var other := factory.CreateMatcher(rules, text, None, fuel);
        if other.Err? {
          return Nested(other.error);
        }
        ReadOther(base, old(Stack()), rules, scope, factory.builtins, root, frames, factory.State());
        StillHolds(old(factory.State()), frames);
        ghost var a := factory.State();
        ReadMatcher(other.value, frames, Reference(text));
        KeepsTrans(old(factory.State()), a, factory.State(), root);
        r := Fine;
      }
    }

    /** The argument of a call: the only member of its list, or a list of them all. */
    method PassArguments(ghost frames: seq<Frame>, parameters: seq<nat>) returns (parameter: nat)
      requires Holds(frames) && frames != [] && frames[|frames| - 1].ListFrame?
      requires |matchers| > 0 && matchers[|matchers| - 1].matcher < |factory.nodes|
      requires factory.nodes[matchers[|matchers| - 1].matcher] == M.ListMatcher(parameters)
      modifies factory`nodes, factory`made
      ensures Holds(frames) && Keeps(old(factory.State()), factory.State(), root) && parameter < |factory.nodes|
      ensures Argument(factory.State(), scope, parameter, frames[|frames| - 1].items)
    {
      HoldsBasics(frames);
      KeepsItself(Stack(), root);
      ParametersFit(base, Stack(), rules, scope, factory.builtins, root, frames);
      hide Reading, Keeps, Sound, ScopeBelow, AllFit, Fits;
      if |parameters| == 1 {
        parameter := parameters[0];
      } else {
        parameter := factory.Allocate(M.ListMatcher(parameters), Done);
        ReadNode(base, old(Stack()), rules, scope, factory.builtins, root, frames, M.ListMatcher(parameters));
        StillHolds(old(factory.State()), frames);
        AllFitKept(old(factory.State()), factory.State(), root, scope, parameters, frames[|frames| - 1].items);
      }
    }

    /** `)` that ends a call: the called rule is built for the argument. */
    method CloseCall(functionName: string, ghost frames: seq<Frame>, ghost fuel: nat) returns (r: TokenResult)
      requires Holds(frames) && Build(rules, Site(factory.matchers.Keys, functionName, true), fuel) != Deeper
      requires |frames| > 1 && frames[|frames| - 1].ListFrame? && frames[|frames| - 1].functionName == Some(functionName)
      modifies this, factory
      ensures r.Fine? ==> G.CloseBracket(frames).Ok? && Holds(G.CloseBracket(frames).value)
      ensures r.Fine? ==> Keeps(old(factory.State()), factory.State(), root)
      ensures !r.Wrong? && (r.Nested? ==> Blames(rules, r.cause))
      ensures NeededComes(r, Build(rules, Site(old(factory.matchers).Keys, functionName, true), fuel),
                          factory.matchers.Keys)
      decreases fuel, 1
    {
      HoldsBasics(frames);
      hide Reading, Keeps, Sound, AllBuilt, Build, Fits, Argument, PopTop, AddTo, Usable, ValidFrames;
      var parameters := factory.nodes[matchers[|matchers| - 1].matcher].matchers;
      var parameter := PassArguments(frames, parameters);
      HoldsBasics(frames);
      ghost var a := factory.State();
      var call := factory.CreateMatcher(rules, functionName, Some(parameter), fuel);
      if call.Err? {
        return Nested(call.error);
      }
      ghost var b := factory.State();
      ReadOther(base, Work(a, matchers), rules, scope, factory.builtins, root, frames, b);
      CallFits(a, b, root, scope, call.value, parameter, functionName, frames[|frames| - 1].items);
      ReadCloseCall(base, Stack(), rules, scope, factory.builtins, root, frames, call.value);
      Pop();
      AddMatcher(call.value);
      KeepsTrans(old(factory.State()), a, b, root);
      KeepsTrans(old(factory.State()), b, factory.State(), root);
      StillHolds(old(factory.State()), G.CloseBracket(frames).value);
      r := Fine;
    }

    /** `)` that ends no call. */
    method ClosePlain(ghost frames: seq<Frame>)
      requires Holds(frames) && |frames| > 1 && |matchers| > 1 && matchers[|matchers| - 1].functionName == None
      modifies this, factory`nodes, factory`made
      ensures G.CloseBracket(frames).Ok? && Holds(G.CloseBracket(frames).value)
      ensures Keeps(old(factory.State()), factory.State(), root)
    {
      HoldsBasics(frames);
      var top := matchers[|matchers| - 1];
      ReadClosePlain(base, Stack(), rules, scope, factory.builtins, root, frames);
      hide Reading, Keeps, Sound, Fits, Argument, PopTop, AddTo, Usable, ValidFrames;
      Pop();
      AddMatcher(top.matcher);
      StillHolds(old(factory.State()), G.CloseBracket(frames).value);
    }

    /** `)`. */
    method CloseBracket(ghost frames: seq<Frame>, ghost fuel: nat) returns (r: TokenResult)
      requires Holds(frames)
      requires BuildNeeded(rules, scope.parameters, frames, OPERATOR(')'), factory.matchers.Keys, fuel) != Deeper
      modifies this, factory
      ensures r.Fine? ==> G.CloseBracket(frames).Ok? && Holds(G.CloseBracket(frames).value)
      ensures r.Fine? ==> Keeps(old(factory.State()), factory.State(), root)
      ensures r.Wrong? ==> G.CloseBracket(frames) == Err(r.error)
      ensures r.Nested? ==> Blames(rules, r.cause)
      ensures NeededComes(r, BuildNeeded(rules, scope.parameters, frames, OPERATOR(')'), old(factory.matchers).Keys, fuel),
                          factory.matchers.Keys)
      decreases fuel, 2
    {
      HoldsBasics(frames);
      CloseNeeds(rules, scope.parameters, frames, factory.matchers.Keys, fuel);
      hide *;
      if |matchers| <= 1 {
        r := Wrong(CloseWithoutOpen);
        NothingComes(r, factory.matchers.Keys);
        return;
      }
      var top := matchers[|matchers| - 1];
      if top.functionName.Some? {
        r := CloseCall(top.functionName.value, frames, fuel);
      } else {
        ClosePlain(frames);
        r := Fine;
        NothingComes(r, factory.matchers.Keys);
      }
    }

    /** `?` and `*`. */
    method ReadPostfix(star: bool, ghost frames: seq<Frame>) returns (r: TokenResult)
      requires Holds(frames)
      modifies this, factory`nodes, factory`made
      ensures r.Fine? ==> G.Wrap(frames, star).Ok? && Holds(G.Wrap(frames, star).value)
      ensures r.Fine? ==> Keeps(old(factory.State()), factory.State(), root)
      ensures r.Wrong? ==> G.Wrap(frames, star) == Err(r.error)
      ensures !r.Nested?
    {
      HoldsBasics(frames);
      if G.Wrap(frames, star).Ok? {
        ReadWrap(base, Stack(), rules, scope, factory.builtins, root, frames, star);
      }
      hide Reading, Keeps, Sound, ScopeBelow, ValidFrames, WrapLastOf;
      var e := Wrap(star);
      if e.Some? {
        return Wrong(e.value);
      }
      StillHolds(old(factory.State()), G.Wrap(frames, star).value);
      r := Fine;
    }

    /** `/`. */
    method ReadChoice(ghost frames: seq<Frame>) returns (r: TokenResult)
      requires Holds(frames)
      modifies this, factory`nodes, factory`made
      ensures r.Fine? ==> G.OpenChoice(frames).Ok? && Holds(G.OpenChoice(frames).value)
      ensures r.Fine? ==> Keeps(old(factory.State()), factory.State(), root)
      ensures r.Wrong? ==> G.OpenChoice(frames) == Err(r.error)
      ensures !r.Nested?
    {
      HoldsBasics(frames);
      if G.OpenChoice(frames).Ok? {
        ReadOr(base, Stack(), rules, scope, factory.builtins, root, frames);
      }
      hide Reading, Keeps, Sound, ScopeBelow, ValidFrames, OpenChoiceOf;
      var e := Or();
      if e.Some? {
        return Wrong(e.value);
      }
      StillHolds(old(factory.State()), G.OpenChoice(frames).value);
      r := Fine;
    }

    /** A new list, for a bracket or for the arguments of a call. */
    method OpenBracket(name: Option<string>, ghost frames: seq<Frame>)
      requires Holds(frames)
      modifies this, factory`nodes, factory`made
      ensures Holds(frames + [ListFrame([], name)]) && Keeps(old(factory.State()), factory.State(), root)
    {
      HoldsBasics(frames);
      ReadOpen(base, Stack(), rules, scope, factory.builtins, root, frames, name);
      hide Reading, Keeps, Sound, ScopeBelow, ValidFrames, PushList;
      BeginList(name);
      StillHolds(old(factory.State()), frames + [ListFrame([], name)]);
    }

    method ReadOperator(op: char, ghost frames: seq<Frame>, ghost fuel: nat) returns (r: TokenResult)
      requires Holds(frames)
      requires BuildNeeded(rules, scope.parameters, frames, OPERATOR(op), factory.matchers.Keys, fuel) != Deeper
      modifies this, factory
      ensures var step := G.Step(frames, OPERATOR(op));
              && (r.Fine? ==> step.Ok? && Holds(step.value) && Keeps(old(factory.State()), factory.State(), root))
              && (r.Wrong? ==> step == Err(r.error))
      ensures r.Nested? ==> Blames(rules, r.cause)
      ensures NeededComes(r, BuildNeeded(rules, scope.parameters, frames, OPERATOR(op), old(factory.matchers).Keys, fuel),
                          factory.matchers.Keys)
      decreases fuel, 3
    {
      HoldsBasics(frames);
      KeepsItself(Stack(), root);
      assert Keeps(factory.State(), factory.State(), root);
      OperatorStep(frames, op);
      hide *;
      if op == '?' || op == '*' {
        r := ReadPostfix(op == '*', frames);
      } else if op == '/' {
        r := ReadChoice(frames);
      } else if op == '(' {
        OpenBracket(None, frames);
        r := Fine;
      } else if op == ')' {
        r := CloseBracket(frames, fuel);
      } else if op == '!' {
        r := Fine;
      } else {
        r := Wrong(UnknownOperator);
      }
      if op != ')' {
        NeedsNothing(rules, scope.parameters, frames, op, factory.matchers.Keys, fuel, r);
      }
    }

    /** One token of a rule. */
    method ReadToken(t: PegToken, ghost frames: seq<Frame>, ghost fuel: nat) returns (r: TokenResult)
      requires Holds(frames)
      requires BuildNeeded(rules, scope.parameters, frames, t, factory.matchers.Keys, fuel) != Deeper
      modifies this, factory
      ensures r.Fine? ==> G.Step(frames, t).Ok? && Holds(G.Step(frames, t).value)
      ensures r.Fine? ==> Keeps(old(factory.State()), factory.State(), root)
      ensures r.Wrong? ==> G.Step(frames, t) == Err(r.error)
      ensures r.Nested? ==> Blames(rules, r.cause)
      ensures NeededComes(r, BuildNeeded(rules, scope.parameters, frames, t, old(factory.matchers).Keys, fuel),
                          factory.matchers.Keys)
      decreases fuel, 4
    {
      HoldsBasics(frames);
      hide Reading, Keeps, Sound, ScopeBelow, ValidFrames, Holds, AddItem, Build;
      match t {
        case LITERAL(text) =>
          ReadLiteral(text, frames);
          r := Fine;
        case REFERENCE(text) =>
          r := ReadReference(text, frames, fuel);
        case FUNCTION_CALL(text) =>
          OpenBracket(Some(text), frames);
          r := Fine;
        case REGEX(_) =>
          r := Wrong(RegexUnsupported);
        case OPERATOR(op) =>
          r := ReadOperator(op, frames, fuel);
      }
    }

    /** The next token of a rule. */
    method ReadNext(tokens: seq<PegToken>, tokenIdx: nat, ghost site: Site, ghost frames: seq<Frame>, ghost fuel: nat)
      returns (r: TokenResult)
      requires Opened(rules, site) && tokens == Tokens(rules, site) && site.rule in rules && tokenIdx < |tokens|
      requires scope.parameters == rules[site.rule].parameters && ReadBody(rules, site, |tokens|, fuel) != Deeper
      requires Holds(frames) && G.Run(EMPTY_STACK, tokens[..tokenIdx]) == Ok(frames)
      requires ReadBody(rules, site, tokenIdx, fuel) == Built(factory.matchers.Keys)
      modifies this, factory
      ensures var step := G.Run(EMPTY_STACK, tokens[..tokenIdx + 1]);
              r.Fine? ==> step.Ok? && Holds(step.value) && Keeps(old(factory.State()), factory.State(), root)
      ensures r.Wrong? ==> G.Parse(tokens) == Err(r.error)
      ensures r.Nested? ==> Blames(rules, r.cause)
      ensures r.Fine? ==> ReadBody(rules, site, tokenIdx + 1, fuel) == Built(factory.matchers.Keys)
      ensures !r.Fine? ==> ReadBody(rules, site, |tokens|, fuel) == BodyOutcome(r, site.rule, factory.matchers.Keys)
      decreases fuel, 5
    {
      hide *;
      ghost var names := factory.matchers.Keys;
      HoldsBasics(frames);
      RunSoFar(tokens, tokenIdx, frames);
      NeededIsBuilt(rules, site, tokenIdx, fuel, names, frames);
      r := ReadToken(tokens[tokenIdx], frames, fuel);
      BodyGoesOn(rules, site, tokenIdx, fuel, r, names, frames, factory.matchers.Keys);
    }

    /** All tokens of a rule. */
    method ReadTokens(tokens: seq<PegToken>, ghost site: Site, ghost fuel: nat) returns (r: TokenResult)
      requires Holds(EMPTY_STACK) && factory.matchers.Keys == NamesInside(site)
      requires Opened(rules, site) && tokens == Tokens(rules, site) && site.rule in rules
      requires scope.parameters == rules[site.rule].parameters && ReadBody(rules, site, |tokens|, fuel) != Deeper
      modifies this, factory
      ensures r.Fine? ==> G.Run(EMPTY_STACK, tokens).Ok? && Holds(G.Run(EMPTY_STACK, tokens).value)
      ensures r.Fine? ==> Keeps(old(factory.State()), factory.State(), root)
      ensures r.Wrong? ==> G.Parse(tokens) == Err(r.error)
      ensures r.Nested? ==> Blames(rules, r.cause)
      ensures ReadBody(rules, site, |tokens|, fuel) == BodyOutcome(r, site.rule, factory.matchers.Keys)
      decreases fuel, 6
    {
      ghost var frames := EMPTY_STACK;
      var tokenIdx := 0;
      hide *;
      Starts(tokens, site, fuel);
      while tokenIdx < |tokens|
        invariant 0 <= tokenIdx <= |tokens|
        invariant Holds(frames) && G.Run(EMPTY_STACK, tokens[..tokenIdx]) == Ok(frames)
        invariant Keeps(old(factory.State()), factory.State(), root)
        invariant ReadBody(rules, site, tokenIdx, fuel) == Built(factory.matchers.Keys)
      {
        ghost var before := factory.State();
        r := ReadNext(tokens, tokenIdx, site, frames, fuel);
        if !r.Fine? {
          return;
        }
        KeepsTrans(old(factory.State()), before, factory.State(), root);
        frames := G.Run(EMPTY_STACK, tokens[..tokenIdx + 1]).value;
        tokenIdx := tokenIdx + 1;
      }
      assert tokens[..tokenIdx] == tokens;
      FineOutcome(site.rule, factory.matchers.Keys);
      r := Fine;
    }

    lemma Starts(tokens: seq<PegToken>, site: Site, fuel: nat)
      requires Holds(EMPTY_STACK) && Opened(rules, site)
      ensures Keeps(factory.State(), factory.State(), root) && G.Run(EMPTY_STACK, tokens[..0]) == Ok(EMPTY_STACK)
      ensures ReadBody(rules, site, 0, fuel) == Built(NamesInside(site))
    {
      HoldsBasics(EMPTY_STACK);
      KeepsItself(Stack(), root);
    }
  }

  /** What a closing bracket needs. */
  lemma CloseNeeds(rules: Rules, parameters: seq<string>, frames: seq<Frame>, names: set<string>, fuel: nat)
    requires ValidFrames(frames)
    ensures var top := frames[|frames| - 1];
            BuildNeeded(rules, parameters, frames, OPERATOR(')'), names, fuel) ==
              if |frames| > 1 && top.ListFrame? && top.functionName.Some?
              then Build(rules, Site(names, top.functionName.value, true), fuel) else Built(names)
    ensures |frames| <= 1 ==> G.CloseBracket(frames) == Err(CloseWithoutOpen)
  {
  }

  lemma NothingComes(r: TokenResult, names: set<string>)
    requires !r.Nested?
    ensures NeededComes(r, Built(names), names)
  {
  }

  lemma OperatorStep(frames: seq<Frame>, op: char)
    requires ValidFrames(frames)
    ensures G.Step(frames, OPERATOR(op)) ==
              if op == '?' then G.Wrap(frames, false)
              else if op == '*' then G.Wrap(frames, true)
              else if op == '/' then G.OpenChoice(frames)
              else if op == '(' then Ok(frames + [ListFrame([], None)])
              else if op == ')' then G.CloseBracket(frames)
              else if op == '!' then Ok(frames)
              else Err(UnknownOperator)
  {
  }

  lemma NeedsNothing(rules: Rules, parameters: seq<string>, frames: seq<Frame>, op: char, names: set<string>, fuel: nat,
                     r: TokenResult)
    requires ValidFrames(frames) && op != ')' && !r.Nested?
    ensures NeededComes(r, BuildNeeded(rules, parameters, frames, OPERATOR(op), names, fuel), names)
  {
  }

  lemma NeedsStep(parameters: seq<string>, frames: seq<Frame>, t: PegToken, names: set<string>)
    requires ValidFrames(frames)
    ensures Needs(parameters, frames, t, names).Some? ==> G.Step(frames, t).Ok?
  {
  }

  lemma NeededIsBuilt(rules: Rules, s: Site, k: nat, fuel: nat, names: set<string>, frames: seq<Frame>)
    requires Opened(rules, s) && k < |Tokens(rules, s)| && ReadBody(rules, s, k, fuel) == Built(names)
    requires ReadBody(rules, s, |Tokens(rules, s)|, fuel) != Deeper
    requires ValidFrames(frames) && G.Run(EMPTY_STACK, Tokens(rules, s)[..k]) == Ok(frames)
    ensures BuildNeeded(rules, rules[s.rule].parameters, frames, Tokens(rules, s)[k], names, fuel) != Deeper
  {
    BodyPrefix(rules, s, k + 1, |Tokens(rules, s)|, fuel);
    BodyTurn(rules, s, k, fuel, names, frames);
    NeedsStep(rules[s.rule].parameters, frames, Tokens(rules, s)[k], names);
    hide Build, ReadBody, G.Step, Needs;
  }

  lemma FineOutcome(rule: string, names: set<string>)
    ensures BodyOutcome(Fine, rule, names) == Built(names)
  {
  }

  /** What came of the next token: the body goes on, or this is what it comes to. */
  lemma BodyGoesOn(rules: Rules, s: Site, k: nat, fuel: nat, r: TokenResult, names: set<string>, frames: seq<Frame>,
                   after: set<string>)
    requires Opened(rules, s) && k < |Tokens(rules, s)| && ReadBody(rules, s, k, fuel) == Built(names)
    requires ValidFrames(frames) && G.Run(EMPTY_STACK, Tokens(rules, s)[..k]) == Ok(frames)
    requires var t := Tokens(rules, s)[k];
             && (r.Fine? ==> G.Step(frames, t).Ok?) && (r.Wrong? ==> G.Step(frames, t) == Err(r.error))
             && NeededComes(r, BuildNeeded(rules, rules[s.rule].parameters, frames, t, names, fuel), after)
    ensures r.Fine? ==> ReadBody(rules, s, k + 1, fuel) == Built(after)
    ensures !r.Fine? ==> ReadBody(rules, s, |Tokens(rules, s)|, fuel) == BodyOutcome(r, s.rule, after)
  {
    BodyTurn(rules, s, k, fuel, names, frames);
    NeedsStep(rules[s.rule].parameters, frames, Tokens(rules, s)[k], names);
    hide Build, ReadBody, G.Step, Needs;
    if !r.Fine? {
      BodyStops(rules, s, k + 1, |Tokens(rules, s)|, fuel);
    }
  }

  lemma KeepsItself(w: Work, root: nat)
    requires |w.arena.made| == |w.arena.nodes|
    ensures Keeps(w.arena, w.arena, root)
  {
  }

  lemma KeywordFits(a: Arena, scope: Scope, m: nat, text: string)
    requires if scope.keywords(text).Some? then m == scope.keywords(text).value
             else Finished(a, m) && a.nodes[m] == M.LeafMatcher(M.Keyword(text))
    ensures Fits(a, scope, m, Literal(text))
  {
  }

  lemma ParametersFit(base: Arena, w: Work, rules: Rules, scope: Scope, builtins: map<string, nat>, root: nat,
                      frames: seq<Frame>)
    requires Reading(base, w, rules, scope, builtins, root, frames) && frames[|frames| - 1].ListFrame?
    ensures var node := w.arena.nodes[w.entries[|w.entries| - 1].matcher]; var items := frames[|frames| - 1].items;
            && node.ListMatcher? && AllFit(w.arena, scope, node.matchers, items) && |node.matchers| == |items|
            && ChildrenBelow(node, |w.arena.nodes|)
            && (|items| == 1 ==> Fits(w.arena, scope, node.matchers[0], items[0]))
  {
    ReadingBasics(base, w, rules, scope, builtins, root, frames);
  }

  /** The matcher built for a call stands for the call. */
  lemma CallFits(a: Arena, b: Arena, root: nat, scope: Scope, m: nat, parameter: nat, name: string, items: seq<Item>)
    requires Keeps(a, b, root) && root < |a.nodes| && a.made[root].Instance? && Argument(a, scope, parameter, items)
    requires m < |b.nodes| && b.made[m] == Instance(name, Some(parameter))
    ensures Fits(b, scope, m, Call(name, items))
  {
    ArgumentKept(a, b, root, scope, parameter, items);
  }
}
