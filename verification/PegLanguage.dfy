/** The language of a matcher graph, as parse trees, and what a match means in it. */
module PegLanguage {
  import opened Sequences
  import opened PegMatcher

  // ----- parse trees -----

  /** A parse tree. Trees are finite even where the graph is cyclic. */
  datatype Tree =
    | Token(text: string)
    | Sequence(parts: seq<Tree>)
    | Absent
    | Present(part: Tree)
    | Alternative(which: nat, chosen: Tree)
    | Repetition(repeats: seq<Tree>)

  /** The tokens at the leaves of a tree, left to right. */
  function Yield(t: Tree): seq<string> {
    match t
    case Token(text) => [text]
    case Sequence(ts) => YieldAll(ts)
    case Absent => []
    case Present(t') => Yield(t')
    case Alternative(_, t') => Yield(t')
    case Repetition(ts) => YieldAll(ts)
  }

  function YieldAll(ts: seq<Tree>): seq<string> {
    if ts == [] then [] else Yield(ts[0]) + YieldAll(ts[1..])
  }

  /** `t` is a derivation from matcher `m`. */
  predicate Derives(g: Graph, m: nat, t: Tree)
    requires Closed(g) && m < |g.nodes|
    decreases t
  {
    match (g.nodes[m], t)
    case (LeafMatcher(leaf), Token(text)) => g.accepts(leaf, text)
    case (ListMatcher(ms), Sequence(ts)) => DerivesAll(g, ms, ts)
    case (OptionalMatcher(c), Absent) => true
    case (OptionalMatcher(c), Present(t')) => Derives(g, c, t')
    case (ChoiceMatcher(cs), Alternative(k, t')) => k < |cs| && Derives(g, cs[k], t')
    case (RepeatMatcher(c), Repetition(ts)) => ts != [] && DerivesEach(g, c, ts)
    case _ => false
  }

  predicate DerivesAll(g: Graph, ms: seq<nat>, ts: seq<Tree>)
    requires Closed(g) && InGraph(g, ms)
    decreases ts
  {
    |ms| == |ts| && (ms == [] || (Derives(g, ms[0], ts[0]) && DerivesAll(g, ms[1..], ts[1..])))
  }

  predicate DerivesEach(g: Graph, c: nat, ts: seq<Tree>)
    requires Closed(g) && c < |g.nodes|
    decreases ts
  {
    ts == [] || (Derives(g, c, ts[0]) && DerivesEach(g, c, ts[1..]))
  }

  /** The token sequences a matcher derives. */
  ghost predicate InLanguage(g: Graph, m: nat, tokens: seq<string>)
    requires Closed(g) && m < |g.nodes|
  {
    exists t :: Derives(g, m, t) && Yield(t) == tokens
  }

  // ----- suggestions and the empty sequence -----

  /** A matcher whose suggestion is optional derives the empty token sequence. */
  lemma {:induction false} OptionalIsNullable(g: Graph, m: nat, added: set<nat>) returns (t: Tree)
    requires Closed(g) && m < |g.nodes|
    requires Suggestion(g, m, added).kind == OPTIONAL
    ensures Derives(g, m, t) && Yield(t) == []
    decreases Unvisited(g, added), 0, 0
  {
    assert m in Unvisited(g, added) && m !in Unvisited(g, added + {m});
    match g.nodes[m]
    case ListMatcher(ms) =>
      var ts := OptionalListIsNullable(g, ms, added + {m});
      t := Sequence(ts);
    case OptionalMatcher(c) =>
      t := Absent;
  }

  lemma {:induction false} OptionalListIsNullable(g: Graph, ms: seq<nat>, added: set<nat>) returns (ts: seq<Tree>)
    requires Closed(g) && InGraph(g, ms)
    requires ListSuggestion(g, ms, added).kind == OPTIONAL
    ensures DerivesAll(g, ms, ts) && YieldAll(ts) == []
    decreases Unvisited(g, added), 1, |ms|
  {
    if ms == [] {
      ts := [];
    } else {
      var first := Suggestion(g, ms[0], added);
      var t := OptionalIsNullable(g, ms[0], added);
      UnvisitedShrinks(g, added, first.added);
      var rest := OptionalListIsNullable(g, ms[1..], first.added);
      ts := [t] + rest;
    }
  }

  // ----- soundness -----

  /** A successful match from token i to token k has a parse tree for exactly tokens[i..k), on every graph. */
  lemma {:induction false} MatchIsSound(g: Graph, tokens: seq<string>, m: nat, i: nat, added: set<nat>, fuel: nat)
    returns (t: Tree)
    requires Closed(g) && m < |g.nodes| && i <= |tokens| && (i < |tokens| || g.nodes[m].ListMatcher?)
    requires MatchOutcome(g, tokens, m, i, added, fuel).Done? && MatchOutcome(g, tokens, m, i, added, fuel).ok
    ensures Derives(g, m, t) && Yield(t) == tokens[i..MatchOutcome(g, tokens, m, i, added, fuel).index]
    decreases fuel, 0
  {
    match g.nodes[m]
    case LeafMatcher(leaf) =>
      t := Token(tokens[i]);
    case ListMatcher(ms) =>
      var ts := ListIsSound(g, tokens, ms, i, i, {}, fuel - 1);
      t := Sequence(ts);
    case OptionalMatcher(c) =>
      if MatchOutcome(g, tokens, c, i, {}, fuel - 1).ok {
        var child := MatchIsSound(g, tokens, c, i, {}, fuel - 1);
        t := Present(child);
      } else {
        t := Absent;
      }
    case ChoiceMatcher(cs) =>
      var k, child := ChoiceIsSound(g, tokens, cs, i, fuel - 1);
      t := Alternative(k, child);
    case RepeatMatcher(c) =>
      var first := MatchOutcome(g, tokens, c, i, {}, fuel - 1);
      var child := MatchIsSound(g, tokens, c, i, {}, fuel - 1);
      var rest := RepeatIsSound(g, tokens, c, first.index, first.added, added, fuel - 1);
      t := Repetition([child] + rest);
      Adjacent(tokens, i, first.index, RepeatOutcome(g, tokens, c, first.index, first.added, added, fuel - 1).index);
  }

  lemma Adjacent<T>(s: seq<T>, i: nat, j: nat, k: nat)
    requires i <= j <= k <= |s|
    ensures s[i..j] + s[j..k] == s[i..k]
  {
  }

  lemma {:induction false} ListIsSound(g: Graph, tokens: seq<string>, ms: seq<nat>, start: nat, i: nat,
                                       added: set<nat>, fuel: nat)
    returns (ts: seq<Tree>)
    requires Closed(g) && InGraph(g, ms) && start <= i <= |tokens|
    requires ListOutcome(g, tokens, ms, start, i, added, fuel).Done? && ListOutcome(g, tokens, ms, start, i, added, fuel).ok
    ensures DerivesAll(g, ms, ts) && YieldAll(ts) == tokens[i..ListOutcome(g, tokens, ms, start, i, added, fuel).index]
    decreases fuel, 1, |ms|
  {
    if ms == [] {
      ts := [];
    } else if i >= |tokens| {
      ts := OptionalListIsNullable(g, ms, added);
    } else {
      var o := MatchOutcome(g, tokens, ms[0], i, added, fuel);
      var t := MatchIsSound(g, tokens, ms[0], i, added, fuel);
      var rest := ListIsSound(g, tokens, ms[1..], start, o.index, o.added, fuel);
      ts := [t] + rest;
      Adjacent(tokens, i, o.index, ListOutcome(g, tokens, ms[1..], start, o.index, o.added, fuel).index);
    }
  }

  lemma {:induction false} ChoiceIsSound(g: Graph, tokens: seq<string>, cs: seq<nat>, i: nat, fuel: nat)
    returns (k: nat, t: Tree)
    requires Closed(g) && InGraph(g, cs) && i < |tokens|
    requires ChoiceOutcome(g, tokens, cs, i, fuel).Done? && ChoiceOutcome(g, tokens, cs, i, fuel).ok
    ensures k < |cs| && Derives(g, cs[k], t) && Yield(t) == tokens[i..ChoiceOutcome(g, tokens, cs, i, fuel).index]
    decreases fuel, 1, |cs|
  {
    if MatchOutcome(g, tokens, cs[0], i, {}, fuel).ok {
      k := 0;
      t := MatchIsSound(g, tokens, cs[0], i, {}, fuel);
    } else {
      var k';
      k', t := ChoiceIsSound(g, tokens, cs[1..], i, fuel);
      k := k' + 1;
    }
  }

  lemma {:induction false} RepeatIsSound(g: Graph, tokens: seq<string>, c: nat, i: nat, repeated: set<nat>,
                                         added: set<nat>, fuel: nat)
    returns (ts: seq<Tree>)
    requires Closed(g) && c < |g.nodes| && i <= |tokens|
    requires RepeatOutcome(g, tokens, c, i, repeated, added, fuel).Done?
    ensures DerivesEach(g, c, ts) && YieldAll(ts) == tokens[i..RepeatOutcome(g, tokens, c, i, repeated, added, fuel).index]
    decreases fuel, 1
  {
    ts := [];
    if i < |tokens| {
      var o := MatchOutcome(g, tokens, c, i, repeated, fuel - 1);
      if o.ok {
        var t := MatchIsSound(g, tokens, c, i, repeated, fuel - 1);
        var rest := RepeatIsSound(g, tokens, c, o.index, o.added, added, fuel - 1);
        ts := [t] + rest;
        Adjacent(tokens, i, o.index, RepeatOutcome(g, tokens, c, o.index, o.added, added, fuel - 1).index);
      }
    }
  }
}
