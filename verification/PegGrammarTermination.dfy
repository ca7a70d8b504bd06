/** Left recursion in terms of the grammar: the compiled matchers terminate exactly if no chain of items that may come
    first is endless, and no star repeats what means no token. */
module PegGrammarTermination {
  import opened Sequences
  import opened G = PegGrammar
  import opened PegCompiler
  import opened MatcherFactories
  import opened PegMeaning
  import M = PegMatcher
  import L = PegLanguage
  import T = PegTermination
  import opened PegCertificate

  // ----- items where they stand -----

  /** An item of a rule that was called with an argument; or the repetition inside a star. */
  datatype Occurrence =
    | Occ(x: Item, parameters: seq<string>, env: Environment)
    | Again(x: Item, parameters: seq<string>, env: Environment)

  function ArgumentItem(arguments: seq<Item>): Item {
    if |arguments| == 1 then arguments[0] else Group(arguments)
  }

  /** A parameter stands for its argument, read where the call stands. */
  function Resolve(s: Occurrence): Occurrence
    decreases s.env
  {
    if s.Occ? && s.x.Reference? && s.x.name in s.parameters && s.env.WithArgument? then
      Resolve(Occ(ArgumentItem(s.env.arguments), s.env.parameters, s.env.outer))
    else s
  }

  function Occs(xs: seq<Item>, parameters: seq<string>, env: Environment): (ss: seq<Occurrence>)
    ensures |ss| == |xs| && forall k :: 0 <= k < |xs| ==> ss[k] == Occ(xs[k], parameters, env)
  {
    seq(|xs|, k requires 0 <= k < |xs| => Occ(xs[k], parameters, env))
  }

  /** What an item is made of. */
  datatype Shape =
    | LeafShape
    | ListShape(members: seq<Occurrence>)
    | OptionalShape(inner: Occurrence)
    | ChoiceShape(alternatives: seq<Occurrence>)
    | RepeatShape(element: Occurrence)

  function ShapeOf(lex: Lexicon, rules: Rules, s: Occurrence): Shape {
    match s
    case Again(x, p, e) => RepeatShape(Occ(x, p, e))
    case Occ(x, p, e) =>
      match x
      case Literal(_) => LeafShape
      case Reference(name) =>
        if name in lex.builtins then LeafShape else ListShape(Occs(Body(rules, name), [], NoArgument))
      case Call(name, arguments) =>
        ListShape(Occs(Body(rules, name), if name in rules then rules[name].parameters else [],
                       WithArgument(arguments, p, e)))
      case Group(items) => ListShape(Occs(items, p, e))
      case Optional(item) => OptionalShape(Occ(item, p, e))
      case Star(item) => OptionalShape(Again(item, p, e))
      case Choice(first, second) =>
        ChoiceShape([Occ(first, p, e)] + if second.Some? then [Occ(second.value, p, e)] else [])
  }

  /** An item that means no token. */
  ghost predicate EmptyItem(lex: Lexicon, rules: Rules, s: Occurrence)
    requires ValidLexicon(lex)
  {
    exists t :: Means(lex, rules, s.x, s.parameters, s.env, t) && L.Yield(t) == []
  }

  predicate ItemChild(lex: Lexicon, rules: Rules, s: Occurrence, c: Occurrence) {
    match ShapeOf(lex, rules, Resolve(s))
    case LeafShape => false
    case ListShape(ss) => c in ss
    case OptionalShape(x) => c == x
    case ChoiceShape(ss) => c in ss
    case RepeatShape(x) => c == x
  }

  /** An item that may come first in another one. */
  ghost predicate LeftItem(lex: Lexicon, rules: Rules, s: Occurrence, c: Occurrence)
    requires ValidLexicon(lex)
  {
    match ShapeOf(lex, rules, Resolve(s))
    case LeafShape => false
    case ListShape(ss) =>
      exists k :: 0 <= k < |ss| && ss[k] == c && forall j :: 0 <= j < k ==> EmptyItem(lex, rules, ss[j])
    case OptionalShape(x) => c == x
    case ChoiceShape(ss) => c in ss
    case RepeatShape(x) => c == x
  }

  predicate ItemPath(lex: Lexicon, rules: Rules, path: seq<Occurrence>) {
    path != [] && (|path| == 1 || (ItemChild(lex, rules, path[0], path[1]) && ItemPath(lex, rules, path[1..])))
  }

  ghost predicate LeftItems(lex: Lexicon, rules: Rules, path: seq<Occurrence>)
    requires ValidLexicon(lex)
  {
    path != [] && (|path| == 1 || (LeftItem(lex, rules, path[0], path[1]) && LeftItems(lex, rules, path[1..])))
  }

  ghost predicate Used(lex: Lexicon, rules: Rules, root: Occurrence, s: Occurrence) {
    exists path :: ItemPath(lex, rules, path) && path[0] == root && path[|path| - 1] == s
  }

  /** No chain of items that may come first is longer than `n`. */
  ghost predicate LeftBounded(lex: Lexicon, rules: Rules, root: Occurrence, n: nat)
    requires ValidLexicon(lex)
  {
    forall path :: LeftItems(lex, rules, path) && Used(lex, rules, root, path[0]) ==> |path| <= n
  }

  ghost predicate NoEmptyStar(lex: Lexicon, rules: Rules, root: Occurrence)
    requires ValidLexicon(lex)
  {
    forall s :: Used(lex, rules, root, s) && s.Again? ==> !EmptyItem(lex, rules, s)
  }

  // ----- the matchers of items -----

  ghost predicate ScopeFits(a: Arena, lex: Lexicon, parameters: seq<string>, env: Environment, argument: Option<nat>) {
    ValidScope(Scope(parameters, argument, lex.keywords)) && ArgumentFits(a, lex, argument, env)
  }

  /** A matcher that stands for an item in its place. */
  ghost predicate Stands(a: Arena, lex: Lexicon, m: nat, s: Occurrence) {
    && m < |a.nodes|
    && exists argument :: ScopeFits(a, lex, s.parameters, s.env, argument) && StandsIn(a, lex, m, s, argument)
  }

  predicate StandsIn(a: Arena, lex: Lexicon, m: nat, s: Occurrence, argument: Option<nat>)
    requires m < |a.nodes|
  {
    match s
    case Occ(x, p, _) => Fits(a, Scope(p, argument, lex.keywords), m, x)
    case Again(x, p, _) =>
      && a.nodes[m].RepeatMatcher? && a.nodes[m].element < |a.nodes|
      && Fits(a, Scope(p, argument, lex.keywords), a.nodes[m].element, x)
  }

  lemma {:induction false} ResolvedStands(a: Arena, lex: Lexicon, rules: Rules, m: nat, s: Occurrence)
    requires Compiled(a, lex, rules) && Stands(a, lex, m, s)
    ensures Stands(a, lex, m, Resolve(s))
    decreases s.env
  {
    if s.Occ? && s.x.Reference? && s.x.name in s.parameters && s.env.WithArgument? {
      var argument :| ScopeFits(a, lex, s.parameters, s.env, argument) && StandsIn(a, lex, m, s, argument);
      var e := s.env;
      var o :| && ValidScope(Scope(e.parameters, o, lex.keywords)) && ArgumentFits(a, lex, o, e.outer)
               && Argument(a, Scope(e.parameters, o, lex.keywords), argument.value, e.arguments);
      var next := Occ(ArgumentItem(e.arguments), e.parameters, e.outer);
      assert ScopeFits(a, lex, next.parameters, next.env, o) && StandsIn(a, lex, m, next, o);
      ResolvedStands(a, lex, rules, m, next);
    }
  }

  /** A matcher has the shape of its item, and its children stand for the parts. */
  ghost predicate Shaped(a: Arena, lex: Lexicon, n: M.Matcher, shape: Shape) {
    match (n, shape)
    case (LeafMatcher(_), LeafShape) => true
    case (ListMatcher(ms), ListShape(ss)) => StandEach(a, lex, ms, ss)
    case (OptionalMatcher(c), OptionalShape(s)) => Stands(a, lex, c, s)
    case (ChoiceMatcher(cs), ChoiceShape(ss)) => StandEach(a, lex, cs, ss)
    case (RepeatMatcher(c), RepeatShape(s)) => Stands(a, lex, c, s)
    case _ => false
  }

  ghost predicate StandEach(a: Arena, lex: Lexicon, ms: seq<nat>, ss: seq<Occurrence>) {
    |ms| == |ss| && forall k :: 0 <= k < |ss| ==> Stands(a, lex, ms[k], ss[k])
  }

  lemma EachStands(a: Arena, lex: Lexicon, rules: Rules, ms: seq<nat>, xs: seq<Item>, parameters: seq<string>,
                   env: Environment, argument: Option<nat>)
    requires Compiled(a, lex, rules) && ScopeFits(a, lex, parameters, env, argument)
    requires AllFit(a, Scope(parameters, argument, lex.keywords), ms, xs)
    ensures StandEach(a, lex, ms, Occs(xs, parameters, env))
  {
    forall k | 0 <= k < |xs| ensures Stands(a, lex, ms[k], Occs(xs, parameters, env)[k]) {
      FitsInRange(a, lex, rules, parameters, argument, env, ms[k], xs[k]);
      assert StandsIn(a, lex, ms[k], Occ(xs[k], parameters, env), argument);
    }
  }

  /** The matcher of a rule is the list of its body. */
  lemma RuleShape(a: Arena, lex: Lexicon, rules: Rules, m: nat, name: string, env: Environment, argument: Option<nat>)
    requires Compiled(a, lex, rules) && m < |a.nodes| && a.made[m] == Instance(name, argument)
    requires ArgumentFits(a, lex, argument, env)
    ensures name in rules && a.nodes[m].ListMatcher? && (argument.None? ==> rules[name].parameters == [])
    ensures StandEach(a, lex, a.nodes[m].matchers, Occs(Body(rules, name), rules[name].parameters, env))
  {
    assert Complete(a, rules, lex.keywords, m);
    EachStands(a, lex, rules, a.nodes[m].matchers, Body(rules, name), rules[name].parameters, env, argument);
  }

  lemma OneStands(a: Arena, lex: Lexicon, rules: Rules, m: nat, x: Item, parameters: seq<string>, env: Environment,
                  argument: Option<nat>)
    requires Compiled(a, lex, rules) && ScopeFits(a, lex, parameters, env, argument)
    requires Fits(a, Scope(parameters, argument, lex.keywords), m, x)
    ensures Stands(a, lex, m, Occ(x, parameters, env))
  {
    FitsInRange(a, lex, rules, parameters, argument, env, m, x);
    assert StandsIn(a, lex, m, Occ(x, parameters, env), argument);
  }

  lemma ReferenceShape(a: Arena, lex: Lexicon, rules: Rules, m: nat, s: Occurrence, argument: Option<nat>)
    requires Compiled(a, lex, rules) && s.Occ? && s.x.Reference? && Resolve(s) == s
    requires m < |a.nodes| && ScopeFits(a, lex, s.parameters, s.env, argument) && StandsIn(a, lex, m, s, argument)
    ensures Shaped(a, lex, a.nodes[m], ShapeOf(lex, rules, s))
  {
    var name := s.x.name;
    NotItself(s);
    assert name !in s.parameters;
    if name !in lex.builtins {
      RuleShape(a, lex, rules, m, name, NoArgument, None);
    }
  }

  function Nesting(env: Environment): nat {
    if env.NoArgument? then 0 else Nesting(env.outer) + 1
  }

  lemma {:induction false} ResolveUnwinds(s: Occurrence)
    ensures Nesting(Resolve(s).env) <= Nesting(s.env)
    decreases s.env
  {
    if s.Occ? && s.x.Reference? && s.x.name in s.parameters && s.env.WithArgument? {
      ResolveUnwinds(Occ(ArgumentItem(s.env.arguments), s.env.parameters, s.env.outer));
    }
  }

  /** An item that is resolved is no parameter with an argument. */
  lemma NotItself(s: Occurrence)
    requires Resolve(s) == s
    ensures !(s.Occ? && s.x.Reference? && s.x.name in s.parameters && s.env.WithArgument?)
  {
    if s.Occ? && s.x.Reference? && s.x.name in s.parameters && s.env.WithArgument? {
      ResolveUnwinds(Occ(ArgumentItem(s.env.arguments), s.env.parameters, s.env.outer));
    }
  }

  lemma {:induction false} ResolvedTwice(s: Occurrence)
    ensures Resolve(Resolve(s)) == Resolve(s)
    decreases s.env
  {
    if s.Occ? && s.x.Reference? && s.x.name in s.parameters && s.env.WithArgument? {
      ResolvedTwice(Occ(ArgumentItem(s.env.arguments), s.env.parameters, s.env.outer));
    }
  }

  lemma StandsShaped(a: Arena, lex: Lexicon, rules: Rules, m: nat, s: Occurrence)
    requires Compiled(a, lex, rules) && Stands(a, lex, m, s) && Resolve(s) == s
    ensures Shaped(a, lex, a.nodes[m], ShapeOf(lex, rules, s))
  {
    var argument :| ScopeFits(a, lex, s.parameters, s.env, argument) && StandsIn(a, lex, m, s, argument);
    var p, e := s.parameters, s.env;
    match s
    case Again(x, _, _) => OneStands(a, lex, rules, a.nodes[m].element, x, p, e, argument);
    case Occ(x, _, _) =>
      match x
      case Literal(_) =>
      case Reference(name) => ReferenceShape(a, lex, rules, m, s, argument);
      case Call(name, arguments) => CallShape(a, lex, rules, m, s, argument);
      case Group(items) => EachStands(a, lex, rules, a.nodes[m].matchers, items, p, e, argument);
      case Optional(item) => OneStands(a, lex, rules, a.nodes[m].matcher, item, p, e, argument);
      case Star(item) => StarShape(a, lex, rules, m, s, argument);
      case Choice(first, second) => ChoiceOf(a, lex, rules, m, s, argument);
  }

  lemma StarShape(a: Arena, lex: Lexicon, rules: Rules, m: nat, s: Occurrence, argument: Option<nat>)
    requires Compiled(a, lex, rules) && s.Occ? && s.x.Star?
    requires m < |a.nodes| && ScopeFits(a, lex, s.parameters, s.env, argument) && StandsIn(a, lex, m, s, argument)
    ensures Shaped(a, lex, a.nodes[m], ShapeOf(lex, rules, s))
  {
    var c := a.nodes[m].matcher;
    FitsInRange(a, lex, rules, s.parameters, argument, s.env, a.nodes[c].element, s.x.item);
    assert StandsIn(a, lex, c, Again(s.x.item, s.parameters, s.env), argument);
  }

  lemma ChoiceOf(a: Arena, lex: Lexicon, rules: Rules, m: nat, s: Occurrence, argument: Option<nat>)
    requires Compiled(a, lex, rules) && s.Occ? && s.x.Choice?
    requires m < |a.nodes| && ScopeFits(a, lex, s.parameters, s.env, argument) && StandsIn(a, lex, m, s, argument)
    ensures Shaped(a, lex, a.nodes[m], ShapeOf(lex, rules, s))
  {
    OneStands(a, lex, rules, a.nodes[m].choices[0], s.x.first, s.parameters, s.env, argument);
    if s.x.second.Some? {
      OneStands(a, lex, rules, a.nodes[m].choices[1], s.x.second.value, s.parameters, s.env, argument);
    }
  }

  lemma CallShape(a: Arena, lex: Lexicon, rules: Rules, m: nat, s: Occurrence, argument: Option<nat>)
    requires Compiled(a, lex, rules) && s.Occ? && s.x.Call?
    requires m < |a.nodes| && ScopeFits(a, lex, s.parameters, s.env, argument) && StandsIn(a, lex, m, s, argument)
    ensures Shaped(a, lex, a.nodes[m], ShapeOf(lex, rules, s))
  {
    var arguments, env := s.x.arguments, WithArgument(s.x.arguments, s.parameters, s.env);
    var q := a.made[m].argument;
    assert s.x == Call(s.x.name, arguments);
    assert Argument(a, Scope(s.parameters, argument, lex.keywords), q.value, arguments);
    if |arguments| == 1 {
      FitsInRange(a, lex, rules, s.parameters, argument, s.env, q.value, arguments[0]);
    }
    assert ArgumentFits(a, lex, q, env);
    RuleShape(a, lex, rules, m, s.x.name, env, q);
  }

  // ----- following calls on both sides -----

  /** Items and their matchers mean no token together. */
  lemma EmptyTogether(a: Arena, lex: Lexicon, rules: Rules, m: nat, s: Occurrence)
    requires Compiled(a, lex, rules) && M.Closed(GraphOf(a, lex)) && Stands(a, lex, m, s)
    ensures Empty(GraphOf(a, lex), m) <==> EmptyItem(lex, rules, s)
  {
    var g := GraphOf(a, lex);
    var argument :| ScopeFits(a, lex, s.parameters, s.env, argument) && StandsIn(a, lex, m, s, argument);
    var n := if s.Occ? then m else a.nodes[m].element;
    FitsInRange(a, lex, rules, s.parameters, argument, s.env, n, s.x);
    forall t ensures L.Derives(g, n, t) <==> Means(lex, rules, s.x, s.parameters, s.env, t) {
      MeaningPreserved(a, lex, rules, s.parameters, argument, s.env, n, s.x, t);
    }
    hide Means, Compiled, Fits, ArgumentFits;
    if s.Again? {
      RepeatEmpty(g, m);
    }
  }

  /** A repeat derives no token exactly if its element does. */
  lemma RepeatEmpty(g: M.Graph, m: nat)
    requires M.Closed(g) && m < |g.nodes| && g.nodes[m].RepeatMatcher?
    ensures M.WellLinked(g, g.nodes[m]) && (Empty(g, m) <==> Empty(g, g.nodes[m].element))
  {
    assert M.WellLinked(g, g.nodes[m]);
    var c := g.nodes[m].element;
    if Empty(g, m) {
      var t :| L.Derives(g, m, t) && L.Yield(t) == [];
      assert t.Repetition? && t.repeats != [] && L.DerivesEach(g, c, t.repeats);
      assert L.Yield(t) == L.Yield(t.repeats[0]) + L.YieldAll(t.repeats[1..]);
      assert L.Derives(g, c, t.repeats[0]) && L.Yield(t.repeats[0]) == [];
    }
    if Empty(g, c) {
      var t :| L.Derives(g, c, t) && L.Yield(t) == [];
      assert [t][1..] == [] && L.DerivesEach(g, c, [t]);
      assert L.YieldAll([t]) == L.Yield(t) + L.YieldAll([]);
      assert L.Derives(g, m, L.Repetition([t])) && L.Yield(L.Repetition([t])) == [];
    }
  }

  lemma ResolvedShape(a: Arena, lex: Lexicon, rules: Rules, m: nat, s: Occurrence)
    requires Compiled(a, lex, rules) && Stands(a, lex, m, s)
    ensures Shaped(a, lex, a.nodes[m], ShapeOf(lex, rules, Resolve(s)))
  {
    ResolvedStands(a, lex, rules, m, s);
    ResolvedTwice(s);
    StandsShaped(a, lex, rules, m, Resolve(s));
  }

  /** A matcher called first stands for an item that comes first. */
  lemma CallIsItem(a: Arena, lex: Lexicon, rules: Rules, m: nat, s: Occurrence, c: nat) returns (next: Occurrence)
    requires Compiled(a, lex, rules) && M.Closed(GraphOf(a, lex)) && Stands(a, lex, m, s)
    requires LeftCall(GraphOf(a, lex), m, c)
    ensures LeftItem(lex, rules, s, next) && Stands(a, lex, c, next)
  {
    var g, shape := GraphOf(a, lex), ShapeOf(lex, rules, Resolve(s));
    ResolvedShape(a, lex, rules, m, s);
    hide Compiled, Stands, Empty, EmptyItem, ShapeOf, Resolve;
    match shape
    case ListShape(ss) =>
      var ms := g.nodes[m].matchers;
      assert M.WellLinked(g, g.nodes[m]);
      var k :| 0 <= k < |ms| && ms[k] == c && forall j :: 0 <= j < k ==> Empty(g, ms[j]);
      next := ss[k];
      forall j | 0 <= j < k ensures EmptyItem(lex, rules, ss[j]) {
        EmptyTogether(a, lex, rules, ms[j], ss[j]);
      }
    case OptionalShape(x) => next := x;
    case ChoiceShape(ss) =>
      var k :| 0 <= k < |ss| && g.nodes[m].choices[k] == c;
      next := ss[k];
    case RepeatShape(x) => next := x;
    case LeafShape => assert false;
  }

  /** And conversely. */
  lemma ItemIsCall(a: Arena, lex: Lexicon, rules: Rules, m: nat, s: Occurrence, next: Occurrence) returns (c: nat)
    requires Compiled(a, lex, rules) && M.Closed(GraphOf(a, lex)) && Stands(a, lex, m, s)
    requires LeftItem(lex, rules, s, next)
    ensures LeftCall(GraphOf(a, lex), m, c) && Stands(a, lex, c, next)
  {
    var g, shape := GraphOf(a, lex), ShapeOf(lex, rules, Resolve(s));
    ResolvedShape(a, lex, rules, m, s);
    assert m < |g.nodes|;
    hide Compiled, Stands, Empty, EmptyItem, ShapeOf, Resolve;
    match shape
    case ListShape(ss) =>
      var ms := g.nodes[m].matchers;
      assert M.WellLinked(g, g.nodes[m]);
      var k :| 0 <= k < |ss| && ss[k] == next && forall j :: 0 <= j < k ==> EmptyItem(lex, rules, ss[j]);
      c := ms[k];
      forall j | 0 <= j < k ensures Empty(g, ms[j]) {
        EmptyTogether(a, lex, rules, ms[j], ss[j]);
      }
    case OptionalShape(x) => c := g.nodes[m].matcher;
    case ChoiceShape(ss) =>
      var k :| 0 <= k < |ss| && ss[k] == next;
      c := g.nodes[m].choices[k];
    case RepeatShape(x) => c := g.nodes[m].element;
    case LeafShape => assert false;
  }

  lemma ChildIsItem(a: Arena, lex: Lexicon, rules: Rules, m: nat, s: Occurrence, c: nat) returns (next: Occurrence)
    requires Compiled(a, lex, rules) && Stands(a, lex, m, s) && Child(a.nodes[m], c)
    ensures ItemChild(lex, rules, s, next) && Stands(a, lex, c, next)
  {
    var shape := ShapeOf(lex, rules, Resolve(s));
    ResolvedShape(a, lex, rules, m, s);
    hide Compiled, Stands, ShapeOf, Resolve;
    match shape
    case ListShape(ss) =>
      var k :| 0 <= k < |ss| && a.nodes[m].matchers[k] == c;
      next := ss[k];
    case OptionalShape(x) => next := x;
    case ChoiceShape(ss) =>
      var k :| 0 <= k < |ss| && a.nodes[m].choices[k] == c;
      next := ss[k];
    case RepeatShape(x) => next := x;
    case LeafShape => assert false;
  }

  lemma ItemIsChild(a: Arena, lex: Lexicon, rules: Rules, m: nat, s: Occurrence, next: Occurrence) returns (c: nat)
    requires Compiled(a, lex, rules) && Stands(a, lex, m, s) && ItemChild(lex, rules, s, next)
    ensures m < |a.nodes| && Child(a.nodes[m], c) && Stands(a, lex, c, next)
  {
    var shape := ShapeOf(lex, rules, Resolve(s));
    ResolvedShape(a, lex, rules, m, s);
    assert m < |a.nodes|;
    hide Compiled, Stands, ShapeOf, Resolve;
    match shape
    case ListShape(ss) =>
      var k :| 0 <= k < |ss| && ss[k] == next;
      c := a.nodes[m].matchers[k];
    case OptionalShape(x) => c := a.nodes[m].matcher;
    case ChoiceShape(ss) =>
      var k :| 0 <= k < |ss| && ss[k] == next;
      c := a.nodes[m].choices[k];
    case RepeatShape(x) => c := a.nodes[m].element;
    case LeafShape => assert false;
  }

  // ----- paths on both sides -----

  lemma {:induction false} CallsAreItems(a: Arena, lex: Lexicon, rules: Rules, path: seq<nat>, s: Occurrence)
    returns (items: seq<Occurrence>)
    requires Compiled(a, lex, rules) && M.Closed(GraphOf(a, lex)) && LeftPath(GraphOf(a, lex), path)
    requires Stands(a, lex, path[0], s)
    ensures LeftItems(lex, rules, items) && items[0] == s && |items| == |path|
    decreases |path|
  {
    hide Compiled, Stands, LeftItem, LeftCall;
    items := [s];
    if |path| > 1 {
      var next := CallIsItem(a, lex, rules, path[0], s, path[1]);
      var rest := CallsAreItems(a, lex, rules, path[1..], next);
      items := [s] + rest;
      assert items[1..] == rest;
    }
  }

  lemma {:induction false} ItemsAreCalls(a: Arena, lex: Lexicon, rules: Rules, m: nat, items: seq<Occurrence>)
    returns (path: seq<nat>)
    requires Compiled(a, lex, rules) && M.Closed(GraphOf(a, lex)) && LeftItems(lex, rules, items)
    requires Stands(a, lex, m, items[0])
    ensures LeftPath(GraphOf(a, lex), path) && path[0] == m && |path| == |items|
    decreases |items|
  {
    assert m < |a.nodes|;
    hide Compiled, Stands, LeftItem, LeftCall;
    path := [m];
    if |items| > 1 {
      var c := ItemIsCall(a, lex, rules, m, items[0], items[1]);
      var rest := ItemsAreCalls(a, lex, rules, c, items[1..]);
      path := [m] + rest;
      assert path[1..] == rest;
    }
  }

  lemma {:induction false} ChildrenAreItems(a: Arena, lex: Lexicon, rules: Rules, path: seq<nat>, s: Occurrence)
    returns (items: seq<Occurrence>)
    requires Compiled(a, lex, rules) && ChildPath(GraphOf(a, lex), path) && Stands(a, lex, path[0], s)
    ensures ItemPath(lex, rules, items) && items[0] == s && Stands(a, lex, path[|path| - 1], items[|items| - 1])
    decreases |path|
  {
    hide Compiled, Stands, ItemChild;
    items := [s];
    if |path| > 1 {
      var next := ChildIsItem(a, lex, rules, path[0], s, path[1]);
      var rest := ChildrenAreItems(a, lex, rules, path[1..], next);
      items := [s] + rest;
      assert items[1..] == rest;
    }
  }

  lemma {:induction false} ItemsAreChildren(a: Arena, lex: Lexicon, rules: Rules, m: nat, items: seq<Occurrence>)
    returns (path: seq<nat>)
    requires Compiled(a, lex, rules) && ItemPath(lex, rules, items) && Stands(a, lex, m, items[0])
    ensures ChildPath(GraphOf(a, lex), path) && path[0] == m
    ensures Stands(a, lex, path[|path| - 1], items[|items| - 1])
    decreases |items|
  {
    assert m < |a.nodes|;
    hide Compiled, Stands, ItemChild;
    path := [m];
    if |items| > 1 {
      var c := ItemIsChild(a, lex, rules, m, items[0], items[1]);
      var rest := ItemsAreChildren(a, lex, rules, c, items[1..]);
      path := [m] + rest;
      assert path[1..] == rest;
    }
  }

  /** Along left calls the rank falls by one at least. */
  lemma {:induction false} PathIsShort(g: M.Graph, cert: T.Certificate, path: seq<nat>)
    requires T.Certified(g, cert) && LeftPath(g, path) && path[0] in cert.live
    ensures |path| <= cert.rank[path[0]] + 1 <= cert.bound
    decreases |path|
  {
    assert T.NodeCertified(g, cert, path[0]);
    if |path| > 1 {
      LeftCallIsRanked(g, cert, path[0], path[1]);
      PathIsShort(g, cert, path[1..]);
    }
  }

  lemma {:induction false} PathJoin(g: M.Graph, p: seq<nat>, q: seq<nat>)
    requires M.Closed(g) && LeftPath(g, p) && LeftPath(g, q) && p[|p| - 1] == q[0]
    ensures LeftPath(g, p + q[1..])
    decreases |p|
  {
    hide LeftCall;
    if |p| == 1 {
      assert p + q[1..] == q;
    } else {
      assert (p + q[1..])[1..] == p[1..] + q[1..];
      PathJoin(g, p[1..], q);
    }
  }

  /** A matcher that runs itself does so again and again. */
  lemma {:induction false} RunsAgain(g: M.Graph, m: nat, n: nat) returns (path: seq<nat>)
    requires M.Closed(g) && LeftReached(g, m, m)
    ensures LeftPath(g, path) && path[0] == m && path[|path| - 1] == m && |path| > n
    decreases n
  {
    var cycle :| LeftPath(g, cycle) && |cycle| > 1 && cycle[0] == m && cycle[|cycle| - 1] == m;
    path := cycle;
    if n > 1 {
      var shorter := RunsAgain(g, m, n - 1);
      PathJoin(g, shorter, cycle);
      path := shorter + cycle[1..];
    }
  }

  // ----- the grammar terminates -----

  function RootOf(rootRule: string): Occurrence {
    Occ(Reference(rootRule), [], NoArgument)
  }

  lemma RootStands(a: Arena, g: M.Graph, root: nat, lex: Lexicon, rules: Rules, rootRule: string)
    requires CompiledFrom(a, g, root, lex, rules, rootRule)
    ensures Stands(a, lex, root, RootOf(rootRule)) && M.Closed(GraphOf(a, lex)) && g == GraphOf(a, lex)
  {
    CompiledIsClosed(a, lex, rules);
    assert ScopeFits(a, lex, [], NoArgument, None) && StandsIn(a, lex, root, RootOf(rootRule), None);
  }

  lemma UsedIsReached(a: Arena, lex: Lexicon, rules: Rules, root: nat, top: Occurrence, s: Occurrence) returns (m: nat)
    requires Compiled(a, lex, rules) && Stands(a, lex, root, top) && Used(lex, rules, top, s)
    ensures Reached(GraphOf(a, lex), root, m) && Stands(a, lex, m, s)
  {
    hide Compiled, Stands;
    var items :| ItemPath(lex, rules, items) && items[0] == top && items[|items| - 1] == s;
    var path := ItemsAreChildren(a, lex, rules, root, items);
    m := path[|path| - 1];
  }

  lemma ReachedIsUsed(a: Arena, lex: Lexicon, rules: Rules, root: nat, top: Occurrence, m: nat) returns (s: Occurrence)
    requires Compiled(a, lex, rules) && Stands(a, lex, root, top) && Reached(GraphOf(a, lex), root, m)
    ensures Used(lex, rules, top, s) && Stands(a, lex, m, s)
  {
    hide Compiled, Stands;
    var path :| ChildPath(GraphOf(a, lex), path) && path[0] == root && path[|path| - 1] == m;
    var items := ChildrenAreItems(a, lex, rules, path, top);
    s := items[|items| - 1];
  }

  lemma {:induction false} OccStaysOcc(s: Occurrence)
    ensures s.Occ? ==> Resolve(s).Occ?
    decreases s.env
  {
    if s.Occ? && s.x.Reference? && s.x.name in s.parameters && s.env.WithArgument? {
      OccStaysOcc(Occ(ArgumentItem(s.env.arguments), s.env.parameters, s.env.outer));
    }
  }

  /** A repeat is the matcher of the repetition inside a star, and of nothing else. */
  lemma RepeatIsAgain(a: Arena, lex: Lexicon, rules: Rules, m: nat, s: Occurrence)
    requires Compiled(a, lex, rules) && Stands(a, lex, m, s)
    ensures a.nodes[m].RepeatMatcher? <==> s.Again?
  {
    ResolvedShape(a, lex, rules, m, s);
    OccStaysOcc(s);
    hide Compiled, Stands;
  }

  lemma BoundedByCertificate(a: Arena, lex: Lexicon, rules: Rules, root: nat, top: Occurrence, cert: T.Certificate)
    requires Compiled(a, lex, rules) && M.Closed(GraphOf(a, lex)) && Stands(a, lex, root, top)
    requires T.Certified(GraphOf(a, lex), cert) && root in cert.live
    ensures LeftBounded(lex, rules, top, cert.bound)
  {
    assert ValidLexicon(lex);
    hide Compiled, Stands, LeftItem, LeftCall;
    forall items | LeftItems(lex, rules, items) && Used(lex, rules, top, items[0]) ensures |items| <= cert.bound {
      var m := UsedIsReached(a, lex, rules, root, top, items[0]);
      var path := ItemsAreCalls(a, lex, rules, m, items);
      var down :| ChildPath(GraphOf(a, lex), down) && down[0] == root && down[|down| - 1] == m;
      PathIsLive(GraphOf(a, lex), cert, down);
      PathIsShort(GraphOf(a, lex), cert, path);
    }
  }

  lemma StarsAreRepeats(a: Arena, lex: Lexicon, rules: Rules, root: nat, top: Occurrence)
    requires Compiled(a, lex, rules) && M.Closed(GraphOf(a, lex)) && Stands(a, lex, root, top)
    ensures NoEmptyStar(lex, rules, top) <==> NoEmptyRepeat(GraphOf(a, lex), root)
  {
    var g := GraphOf(a, lex);
    assert ValidLexicon(lex);
    hide Compiled, Stands, Used, Reached, Empty, EmptyItem;
    if NoEmptyRepeat(g, root) {
      forall s | Used(lex, rules, top, s) && s.Again? ensures !EmptyItem(lex, rules, s) {
        var m := UsedIsReached(a, lex, rules, root, top, s);
        StandsInGraph(a, lex, m, s);
        RepeatIsAgain(a, lex, rules, m, s);
        EmptyTogether(a, lex, rules, m, s);
        RepeatEmpty(g, m);
      }
    }
    if NoEmptyStar(lex, rules, top) {
      forall m: nat | Reached(g, root, m) && m < |g.nodes| && g.nodes[m].RepeatMatcher?
        ensures M.WellLinked(g, g.nodes[m]) && !Empty(g, g.nodes[m].element)
      {
        var s := ReachedIsUsed(a, lex, rules, root, top, m);
        RepeatIsAgain(a, lex, rules, m, s);
        EmptyTogether(a, lex, rules, m, s);
        RepeatEmpty(g, m);
      }
    }
  }

  lemma StandsInGraph(a: Arena, lex: Lexicon, m: nat, s: Occurrence)
    requires Stands(a, lex, m, s)
    ensures m < |a.nodes|
  {
  }

  lemma BoundedHasNoLeftRecursion(a: Arena, lex: Lexicon, rules: Rules, root: nat, top: Occurrence, n: nat)
    requires Compiled(a, lex, rules) && M.Closed(GraphOf(a, lex)) && Stands(a, lex, root, top)
    requires LeftBounded(lex, rules, top, n)
    ensures NoLeftRecursion(GraphOf(a, lex), root)
  {
    var g := GraphOf(a, lex);
    assert ValidLexicon(lex);
    hide Compiled, Stands, Used, Reached, LeftItem, LeftCall, LeftReached;
    forall m: nat | Reached(g, root, m) ensures !LeftReached(g, m, m) {
      if LeftReached(g, m, m) {
        var s := ReachedIsUsed(a, lex, rules, root, top, m);
        var path := RunsAgain(g, m, n);
        var items := CallsAreItems(a, lex, rules, path, s);
      }
    }
  }

  /** The matchers compiled from a grammar are certified to terminate exactly if the chains of items that may come first
      in one another are bounded, and no star that the root uses repeats what means no token. */
  lemma GrammarTerminatesExactly(a: Arena, g: M.Graph, root: nat, lex: Lexicon, rules: Rules, rootRule: string)
    requires CompiledFrom(a, g, root, lex, rules, rootRule)
    ensures M.Closed(g)
    ensures (exists cert :: T.Certified(g, cert) && root in cert.live) <==>
              (exists n: nat :: LeftBounded(lex, rules, RootOf(rootRule), n)) && NoEmptyStar(lex, rules, RootOf(rootRule))
  {
    var top := RootOf(rootRule);
    RootStands(a, g, root, lex, rules, rootRule);
    StandsInGraph(a, lex, root, top);
    hide Stands, LeftBounded, NoEmptyStar, NoEmptyRepeat, NoLeftRecursion, T.Certified, M.Closed;
    StarsAreRepeats(a, lex, rules, root, top);
    CertificateExactly(g, root);
    if cert :| T.Certified(g, cert) && root in cert.live {
      BoundedByCertificate(a, lex, rules, root, top, cert);
    }
    if n: nat :| LeftBounded(lex, rules, top, n) {
      BoundedHasNoLeftRecursion(a, lex, rules, root, top, n);
    }
  }
}
