/** What the rules of a grammar mean, without matchers, and that compiling them preserves it. */
module PegMeaning {
  import opened Sequences
  import opened G = PegGrammar
  import opened PegCompiler
  import opened PegBuilding
  import opened MatcherFactories
  import M = PegMatcher
  import L = PegLanguage
  import C = CheckPegParser

  /** The built-in matchers: leaves, the rules and keywords that stand for one of them, and what leaves accept. */
  datatype Lexicon = Lexicon(leaves: seq<M.Leaf>, builtins: map<string, nat>, keywords: string -> Option<nat>,
                             accepts: (M.Leaf, string) -> bool)

  ghost predicate ValidLexicon(lex: Lexicon) {
    && (forall name :: name in lex.builtins ==> lex.builtins[name] < |lex.leaves|)
    && (forall text :: lex.keywords(text).Some? ==> lex.keywords(text).value < |lex.leaves|)
  }

  /** The argument a rule was called with, to be read where the call stands. */
  datatype Environment = NoArgument | WithArgument(arguments: seq<Item>, parameters: seq<string>, outer: Environment)

  // ----- the meaning of a grammar -----

  function Body(rules: Rules, name: string): seq<Item> {
    if name in rules && G.Parse(rules[name].tokens).Ok? then G.Parse(rules[name].tokens).value else []
  }

  /** Tree `t` is a derivation from an item. */
  ghost predicate Means(lex: Lexicon, rules: Rules, x: Item, parameters: seq<string>, env: Environment, t: L.Tree)
    requires ValidLexicon(lex)
    decreases t, env, 1
  {
    match x
    case Literal(text) =>
      var leaf := if lex.keywords(text).Some? then lex.leaves[lex.keywords(text).value] else M.Keyword(text);
      t.Token? && lex.accepts(leaf, t.text)
    case Reference(name) =>
      if name in parameters then
        env.WithArgument? && MeansArgument(lex, rules, env, t)
      else if name in lex.builtins then
        t.Token? && lex.accepts(lex.leaves[lex.builtins[name]], t.text)
      else
        t.Sequence? && MeansAll(lex, rules, Body(rules, name), [], NoArgument, t.parts)
    case Call(name, arguments) =>
      && t.Sequence? && name in rules
      && MeansAll(lex, rules, Body(rules, name), rules[name].parameters, WithArgument(arguments, parameters, env), t.parts)
    case Group(items) => t.Sequence? && MeansAll(lex, rules, items, parameters, env, t.parts)
    case Optional(item) => t == L.Absent || (t.Present? && Means(lex, rules, item, parameters, env, t.part))
    case Star(item) =>
      || t == L.Absent
      || (t.Present? && t.part.Repetition? && t.part.repeats != []
          && forall k :: 0 <= k < |t.part.repeats| ==> Means(lex, rules, item, parameters, env, t.part.repeats[k]))
    case Choice(first, second) =>
      && t.Alternative?
      && ((t.which == 0 && Means(lex, rules, first, parameters, env, t.chosen))
          || (t.which == 1 && second.Some? && Means(lex, rules, second.value, parameters, env, t.chosen)))
  }

  /** One argument stands for itself, several for their sequence. */
  ghost predicate MeansArgument(lex: Lexicon, rules: Rules, env: Environment, t: L.Tree)
    requires ValidLexicon(lex) && env.WithArgument?
    decreases t, env, 0
  {
    if |env.arguments| == 1 then Means(lex, rules, env.arguments[0], env.parameters, env.outer, t)
    else t.Sequence? && MeansAll(lex, rules, env.arguments, env.parameters, env.outer, t.parts)
  }

  ghost predicate MeansAll(lex: Lexicon, rules: Rules, xs: seq<Item>, parameters: seq<string>, env: Environment,
                           ts: seq<L.Tree>)
    requires ValidLexicon(lex)
    decreases ts, env, 2
  {
    |xs| == |ts| && forall k :: 0 <= k < |ts| ==> Means(lex, rules, xs[k], parameters, env, ts[k])
  }

  // ----- the compiled matchers -----

  /** Matchers in which every rule is complete, and whose first ones are the leaves. */
  ghost predicate Compiled(a: Arena, lex: Lexicon, rules: Rules) {
    && ValidLexicon(lex) && Sound(a, lex.builtins) && |lex.leaves| <= |a.nodes|
    && (forall n :: 0 <= n < |lex.leaves| ==> a.nodes[n] == M.LeafMatcher(lex.leaves[n]))
    && (forall n :: 0 <= n < |a.nodes| ==>
          a.made[n] != Open && (a.made[n].Instance? ==> Complete(a, rules, lex.keywords, n)))
  }

  function GraphOf(a: Arena, lex: Lexicon): M.Graph {
    M.Graph(a.nodes, lex.accepts)
  }

  lemma CompiledIsClosed(a: Arena, lex: Lexicon, rules: Rules)
    requires Compiled(a, lex, rules)
    ensures M.Closed(GraphOf(a, lex))
  {
    forall m | 0 <= m < |a.nodes| ensures M.WellLinked(GraphOf(a, lex), a.nodes[m]) {
      assert ChildrenBelow(a.nodes[m], |a.nodes|);
    }
  }

  /** The matcher passed to a rule stands for the argument of the environment. */
  ghost predicate ArgumentFits(a: Arena, lex: Lexicon, argument: Option<nat>, env: Environment)
    decreases env
  {
    match env
    case NoArgument => argument == None
    case WithArgument(arguments, parameters, outer) =>
      && argument.Some? && argument.value < |a.nodes|
      && exists o :: && ValidScope(Scope(parameters, o, lex.keywords)) && ArgumentFits(a, lex, o, outer)
                     && Argument(a, Scope(parameters, o, lex.keywords), argument.value, arguments)
  }

  function Depth(env: Environment): nat {
    match env
    case NoArgument => 0
    case WithArgument(_, _, outer) => Depth(outer) + 1
  }

  /** Compiling preserves meaning: the trees derived from a matcher are those of the item it stands for. */
  lemma {:induction false} MeaningPreserved(a: Arena, lex: Lexicon, rules: Rules, parameters: seq<string>,
                                            argument: Option<nat>, env: Environment, m: nat, x: Item, t: L.Tree)
    requires Compiled(a, lex, rules) && ValidScope(Scope(parameters, argument, lex.keywords))
    requires ArgumentFits(a, lex, argument, env)
    requires m < |a.nodes| && Fits(a, Scope(parameters, argument, lex.keywords), m, x)
    requires M.Closed(GraphOf(a, lex))
    ensures L.Derives(GraphOf(a, lex), m, t) <==> Means(lex, rules, x, parameters, env, t)
    decreases t, Depth(env), 1
  {
    assert ValidLexicon(lex) && M.WellLinked(GraphOf(a, lex), GraphOf(a, lex).nodes[m]);
    hide Complete, InRange, Compiled, ArgumentFits, M.Closed, Body;
    match x
    case Literal(_) => LiteralPreserved(a, lex, rules, parameters, argument, env, m, x, t);
    case Reference(name) => ReferencePreserved(a, lex, rules, parameters, argument, env, m, name, t);
    case Call(name, arguments) => CallPreserved(a, lex, rules, parameters, argument, env, m, name, arguments, t);
    case Group(items) =>
      if t.Sequence? {
        AllPreserved(a, lex, rules, parameters, argument, env, a.nodes[m].matchers, items, t.parts);
      }
    case Optional(item) =>
      if t.Present? {
        MeaningPreserved(a, lex, rules, parameters, argument, env, a.nodes[m].matcher, item, t.part);
      }
    case Star(item) => StarPreserved(a, lex, rules, parameters, argument, env, m, item, t);
    case Choice(first, second) =>
      if t.Alternative? && t.which == 0 {
        MeaningPreserved(a, lex, rules, parameters, argument, env, a.nodes[m].choices[0], first, t.chosen);
      } else if t.Alternative? && t.which == 1 && second.Some? {
        MeaningPreserved(a, lex, rules, parameters, argument, env, a.nodes[m].choices[1], second.value, t.chosen);
      }
  }

  lemma LiteralPreserved(a: Arena, lex: Lexicon, rules: Rules, parameters: seq<string>, argument: Option<nat>,
                         env: Environment, m: nat, x: Item, t: L.Tree)
    requires Compiled(a, lex, rules) && x.Literal? && M.Closed(GraphOf(a, lex))
    requires m < |a.nodes| && Fits(a, Scope(parameters, argument, lex.keywords), m, x)
    ensures L.Derives(GraphOf(a, lex), m, t) <==> Means(lex, rules, x, parameters, env, t)
  {
  }

  lemma {:induction false} StarPreserved(a: Arena, lex: Lexicon, rules: Rules, parameters: seq<string>,
                                         argument: Option<nat>, env: Environment, m: nat, item: Item, t: L.Tree)
    requires Compiled(a, lex, rules) && ValidScope(Scope(parameters, argument, lex.keywords))
    requires ArgumentFits(a, lex, argument, env) && M.Closed(GraphOf(a, lex))
    requires m < |a.nodes| && Fits(a, Scope(parameters, argument, lex.keywords), m, Star(item))
    ensures L.Derives(GraphOf(a, lex), m, t) <==> Means(lex, rules, Star(item), parameters, env, t)
    decreases t, Depth(env), 1, 0
  {
    assert ValidLexicon(lex) && M.WellLinked(GraphOf(a, lex), GraphOf(a, lex).nodes[m]);
    assert M.WellLinked(GraphOf(a, lex), GraphOf(a, lex).nodes[a.nodes[m].matcher]);
    hide Complete, InRange, Compiled, ArgumentFits, M.Closed, Body;
    if t.Present? && t.part.Repetition? {
      EachPreserved(a, lex, rules, parameters, argument, env, a.nodes[a.nodes[m].matcher].element, item, t.part.repeats);
    }
  }

  lemma {:induction false} ReferencePreserved(a: Arena, lex: Lexicon, rules: Rules, parameters: seq<string>,
                                              argument: Option<nat>, env: Environment, m: nat, name: string, t: L.Tree)
    requires Compiled(a, lex, rules) && ValidScope(Scope(parameters, argument, lex.keywords))
    requires ArgumentFits(a, lex, argument, env) && M.Closed(GraphOf(a, lex))
    requires m < |a.nodes| && Fits(a, Scope(parameters, argument, lex.keywords), m, Reference(name))
    ensures L.Derives(GraphOf(a, lex), m, t) <==> Means(lex, rules, Reference(name), parameters, env, t)
    decreases t, Depth(env), 1, 0
  {
    hide Complete, InRange;
    if name in parameters {
      ArgumentPreserved(a, lex, rules, argument, env, m, t);
    } else if name !in lex.builtins {
      RulePreserved(a, lex, rules, m, name, None, NoArgument, t);
    }
  }

  lemma {:induction false} CallPreserved(a: Arena, lex: Lexicon, rules: Rules, parameters: seq<string>,
                                         argument: Option<nat>, env: Environment, m: nat, name: string,
                                         arguments: seq<Item>, t: L.Tree)
    requires Compiled(a, lex, rules) && ValidScope(Scope(parameters, argument, lex.keywords))
    requires ArgumentFits(a, lex, argument, env) && M.Closed(GraphOf(a, lex))
    requires m < |a.nodes| && Fits(a, Scope(parameters, argument, lex.keywords), m, Call(name, arguments))
    ensures L.Derives(GraphOf(a, lex), m, t) <==> Means(lex, rules, Call(name, arguments), parameters, env, t)
    decreases t, Depth(env), 1, 0
  {
    if |arguments| == 1 {
      FitsInRange(a, lex, rules, parameters, argument, env, a.made[m].argument.value, arguments[0]);
    }
    assert ArgumentFits(a, lex, a.made[m].argument, WithArgument(arguments, parameters, env));
    hide Compiled, Fits, ArgumentFits, L.Derives, MeansAll;
    RulePreserved(a, lex, rules, m, name, a.made[m].argument, WithArgument(arguments, parameters, env), t);
  }

  lemma FitsInRange(a: Arena, lex: Lexicon, rules: Rules, parameters: seq<string>, argument: Option<nat>,
                    env: Environment, m: nat, x: Item)
    requires Compiled(a, lex, rules) && ArgumentFits(a, lex, argument, env)
    requires Fits(a, Scope(parameters, argument, lex.keywords), m, x)
    ensures m < |a.nodes|
  {
  }

  /** The matcher of a rule derives what the body of the rule means. */
  lemma {:induction false} RulePreserved(a: Arena, lex: Lexicon, rules: Rules, m: nat, name: string,
                                         argument: Option<nat>, env: Environment, t: L.Tree)
    requires Compiled(a, lex, rules) && M.Closed(GraphOf(a, lex))
    requires m < |a.nodes| && a.made[m] == Instance(name, argument) && ArgumentFits(a, lex, argument, env)
    ensures name in rules && (argument.None? ==> rules[name].parameters == [])
    ensures L.Derives(GraphOf(a, lex), m, t) <==>
              t.Sequence? && MeansAll(lex, rules, Body(rules, name), rules[name].parameters, env, t.parts)
    decreases t, 0, 0
  {
    assert Complete(a, rules, lex.keywords, m);
    if t.Sequence? {
      AllPreserved(a, lex, rules, rules[name].parameters, argument, env, a.nodes[m].matchers, Body(rules, name), t.parts);
    }
  }

  lemma {:induction false} ArgumentPreserved(a: Arena, lex: Lexicon, rules: Rules, argument: Option<nat>,
                                             env: Environment, m: nat, t: L.Tree)
    requires Compiled(a, lex, rules) && M.Closed(GraphOf(a, lex))
    requires argument == Some(m) && ArgumentFits(a, lex, argument, env)
    ensures m < |a.nodes| && env.WithArgument?
    ensures L.Derives(GraphOf(a, lex), m, t) <==> MeansArgument(lex, rules, env, t)
    decreases t, Depth(env), 0
  {
    var o :| && ValidScope(Scope(env.parameters, o, lex.keywords)) && ArgumentFits(a, lex, o, env.outer)
             && Argument(a, Scope(env.parameters, o, lex.keywords), m, env.arguments);
    if |env.arguments| == 1 {
      MeaningPreserved(a, lex, rules, env.parameters, o, env.outer, m, env.arguments[0], t);
    } else if t.Sequence? {
      AllPreserved(a, lex, rules, env.parameters, o, env.outer, a.nodes[m].matchers, env.arguments, t.parts);
    }
  }

  lemma {:induction false} AllPreserved(a: Arena, lex: Lexicon, rules: Rules, parameters: seq<string>,
                                        argument: Option<nat>, env: Environment, ms: seq<nat>, xs: seq<Item>,
                                        ts: seq<L.Tree>)
    requires Compiled(a, lex, rules) && ValidScope(Scope(parameters, argument, lex.keywords))
    requires ArgumentFits(a, lex, argument, env) && M.Closed(GraphOf(a, lex)) && M.InGraph(GraphOf(a, lex), ms)
    requires AllFit(a, Scope(parameters, argument, lex.keywords), ms, xs)
    ensures L.DerivesAll(GraphOf(a, lex), ms, ts) <==> MeansAll(lex, rules, xs, parameters, env, ts)
    decreases ts, Depth(env), 2
  {
    LengthOfFit(a, Scope(parameters, argument, lex.keywords), ms, xs);
    hide Complete, InRange, Fits;
    if |ms| == |ts| && ms != [] {
      FitTail(a, Scope(parameters, argument, lex.keywords), ms, xs);
      hide Compiled, Fits, AllFit, ArgumentFits, Means, L.Derives, M.Closed;
      MeaningPreserved(a, lex, rules, parameters, argument, env, ms[0], xs[0], ts[0]);
      AllPreserved(a, lex, rules, parameters, argument, env, ms[1..], xs[1..], ts[1..]);
      assert (forall k :: 0 <= k < |ts| ==> Means(lex, rules, xs[k], parameters, env, ts[k])) <==>
             (Means(lex, rules, xs[0], parameters, env, ts[0])
              && forall k :: 0 <= k < |ts[1..]| ==> Means(lex, rules, xs[1..][k], parameters, env, ts[1..][k])) by {
        assert forall k :: 0 < k < |ts| ==> ts[k] == ts[1..][k - 1] && xs[k] == xs[1..][k - 1];
      }
    }
  }

  lemma FitTail(a: Arena, scope: Scope, ms: seq<nat>, xs: seq<Item>)
    requires AllFit(a, scope, ms, xs) && ms != []
    ensures xs != [] && Fits(a, scope, ms[0], xs[0]) && AllFit(a, scope, ms[1..], xs[1..])
  {
  }

  lemma {:induction false} EachPreserved(a: Arena, lex: Lexicon, rules: Rules, parameters: seq<string>,
                                         argument: Option<nat>, env: Environment, m: nat, x: Item, ts: seq<L.Tree>)
    requires Compiled(a, lex, rules) && ValidScope(Scope(parameters, argument, lex.keywords))
    requires ArgumentFits(a, lex, argument, env) && M.Closed(GraphOf(a, lex))
    requires m < |a.nodes| && Fits(a, Scope(parameters, argument, lex.keywords), m, x)
    ensures L.DerivesEach(GraphOf(a, lex), m, ts) <==>
              (forall k :: 0 <= k < |ts| ==> Means(lex, rules, x, parameters, env, ts[k]))
    decreases ts, Depth(env), 2
  {
    if ts != [] {
      MeaningPreserved(a, lex, rules, parameters, argument, env, m, x, ts[0]);
      EachPreserved(a, lex, rules, parameters, argument, env, m, x, ts[1..]);
      assert forall k :: 0 < k < |ts| ==> ts[k] == ts[1..][k - 1];
    }
  }

  /** The graph is made of matchers in which every rule is complete, and its root stands for the root rule. */
  ghost predicate CompiledFrom(a: Arena, g: M.Graph, root: nat, lex: Lexicon, rules: Rules, rootRule: string) {
    && Compiled(a, lex, rules) && g == GraphOf(a, lex)
    && root < |a.nodes| && Fits(a, Scope([], None, lex.keywords), root, Reference(rootRule))
  }

  /** Compiles a grammar from its root rule into a matcher graph. */
  method CompileGrammar(lex: Lexicon, rules: Rules, rootRule: string) returns (g: M.Graph, r: BuildResult)
    requires ValidLexicon(lex) && !Loops(rules, Site(lex.builtins.Keys, rootRule, false))
    ensures r.Err? ==> Blames(rules, r.error)
    ensures match Build(rules, Site(lex.builtins.Keys, rootRule, false), Limit(rules))
            case Built(_) => r.Ok?
            case Failed(error) => r == Err(error)
            case Deeper => false
    ensures r.Ok? ==> M.Closed(g) && g.accepts == lex.accepts && r.value < |g.nodes|
    ensures r.Ok? ==>
              forall t :: L.Derives(g, r.value, t) <==> Means(lex, rules, Reference(rootRule), [], NoArgument, t)
    ensures r.Ok? ==> exists a :: CompiledFrom(a, g, r.value, lex, rules, rootRule)
  {
    var factory := new MatcherFactory(lex.leaves, lex.builtins, lex.keywords);
    ghost var base := factory.State();
    BuildingEndsExactly(rules, Site(lex.builtins.Keys, rootRule, false));
    hide Build, Loops, Limit;
    r := factory.CreateMatcher(rules, rootRule, None, Limit(rules));
    g := M.Graph(factory.nodes, lex.accepts);
    if r.Ok? {
      FactoryCompiled(base, factory.State(), lex, rules);
      CompiledIsClosed(factory.State(), lex, rules);
      forall t ensures L.Derives(g, r.value, t) <==> Means(lex, rules, Reference(rootRule), [], NoArgument, t) {
        MeaningPreserved(factory.State(), lex, rules, [], None, NoArgument, r.value, Reference(rootRule), t);
      }
      assert CompiledFrom(factory.State(), g, r.value, lex, rules, rootRule);
    }
  }

  lemma FactoryCompiled(base: Arena, a: Arena, lex: Lexicon, rules: Rules)
    requires ValidLexicon(lex) && AllBuilt(base, a, rules, lex.keywords, lex.builtins)
    requires |base.nodes| == |lex.leaves| == |base.made|
    requires forall n :: 0 <= n < |lex.leaves| ==> base.made[n] == Done && base.nodes[n] == M.LeafMatcher(lex.leaves[n])
    ensures Compiled(a, lex, rules)
  {
    hide Complete, Sound;
  }

  /** A statement that the matchers of a grammar accept is a statement of the grammar. */
  lemma AcceptedIsInGrammar(g: M.Graph, root: nat, lex: Lexicon, rules: Rules, rootRule: string, tokens: seq<string>)
    requires ValidLexicon(lex) && M.Closed(g) && root < |g.nodes| && tokens != [] && C.Accepts(g, root, tokens)
    requires forall t :: L.Derives(g, root, t) <==> Means(lex, rules, Reference(rootRule), [], NoArgument, t)
    ensures exists t :: Means(lex, rules, Reference(rootRule), [], NoArgument, t) && L.Yield(t) == tokens
  {
    var fuel :| C.Consumes(g, root, tokens, fuel);
    C.AcceptedIsDerivable(g, root, tokens, fuel);
    var t :| L.Derives(g, root, t) && L.Yield(t) == tokens;
    assert Means(lex, rules, Reference(rootRule), [], NoArgument, t);
  }
}
