/** What a match suggests: the suggestions of all it has tried, in order, each made where the tokens ran out. */
module PegPushes {
  import opened Sequences
  import opened PegMatcher
  import opened PegLanguage
  import opened PegShortcut
  import opened PegTermination
  import opened PegSpans

  // ----- what the evidence says -----

  /** The matchers that the parts of the evidence belong to. */
  function PartMatchers(g: Graph, m: nat, n: nat): (ms: seq<nat>)
    requires Closed(g) && m < |g.nodes|
    ensures InGraph(g, ms)
  {
    assert WellLinked(g, g.nodes[m]);
    match g.nodes[m]
    case LeafMatcher(_) => []
    case OptionalMatcher(c) => [c]
    case ChoiceMatcher(cs) => cs
    case RepeatMatcher(c) => Copies(c, n)
    case ListMatcher(ms) => ms
  }

  /** What a list pushes itself: what may come instead of the members left when the tokens have run out. */
  function PushedByList(g: Graph, ms: seq<nat>, parts: seq<Evidence>): seq<Leaf>
    requires Closed(g) && InGraph(g, ms)
  {
    var n := |parts|;
    if n < |ms| && !LastFails(parts) then ListSuggestion(g, ms[n..], VisitedBefore(g, ms, n)).log else []
  }

  /** What a repeat pushes itself: what may come next in it when the tokens have run out. */
  function PushedByRepeat(g: Graph, c: nat, parts: seq<Evidence>): seq<Leaf>
    requires Closed(g) && c < |g.nodes|
  {
    if parts != [] && !LastFails(parts) then Suggestion(g, c, {}).log else []
  }

  /** What a match pushes: first what its parts push, whether they match or not, and then what it pushes itself. */
  function Pushed(g: Graph, m: nat, e: Evidence): seq<Leaf>
    requires Closed(g) && m < |g.nodes|
    decreases e, 1
  {
    assert WellLinked(g, g.nodes[m]);
    PushedFrom(g, PartMatchers(g, m, |e.parts|), e, 0)
    + match g.nodes[m]
      case RepeatMatcher(c) => PushedByRepeat(g, c, e.parts)
      case ListMatcher(ms) => PushedByList(g, ms, e.parts)
      case _ => []
  }

  function PushedFrom(g: Graph, ms: seq<nat>, e: Evidence, j: nat): seq<Leaf>
    requires Closed(g) && InGraph(g, ms)
    decreases e, 0, |e.parts| - j
  {
    if j >= |e.parts| || j >= |ms| then [] else Pushed(g, ms[j], e.parts[j]) + PushedFrom(g, ms, e, j + 1)
  }

  lemma PushedTurn(g: Graph, ms: seq<nat>, e: Evidence, j: nat)
    requires Closed(g) && InGraph(g, ms) && |e.parts| <= |ms| && j <= |e.parts|
    ensures PushedFrom(g, ms, e, j)
            == if j == |e.parts| then [] else Pushed(g, ms[j], e.parts[j]) + PushedFrom(g, ms, e, j + 1)
    ensures j + 1 == |e.parts| ==> PushedFrom(g, ms, e, j) == Pushed(g, ms[j], e.parts[j])
  {
    hide Pushed;
    assert j + 1 == |e.parts| ==> PushedFrom(g, ms, e, j + 1) == [];
  }

  // ----- what the match pushes -----

  /** A match that ends does so where its evidence says. */
  lemma Agrees(g: Graph, tokens: seq<string>, m: nat, i: nat, added: set<nat>, e: Evidence, fuel: nat)
    requires Closed(g) && m < |g.nodes| && i <= |tokens| && (i < |tokens| || g.nodes[m].ListMatcher?)
    requires Shows(g, tokens, m, i, e) && MatchOutcome(g, tokens, m, i, added, fuel).Done?
    ensures var o := MatchOutcome(g, tokens, m, i, added, fuel); EndOf(o) == e.end
    ensures var o := MatchOutcome(g, tokens, m, i, added, fuel);
            o.added == AddedAfter(g, m, added, o.ok && o.index == |tokens|)
  {
    hide MatchOutcome, Shows, Suggestion;
    var f := EvidenceRuns(g, tokens, m, i, added, e);
    MatchDeeper(g, tokens, m, i, added, fuel, Max(fuel, f));
    MatchDeeper(g, tokens, m, i, added, f, Max(fuel, f));
    MatchAdds(g, tokens, m, i, added, fuel);
  }

  lemma NothingAdded(g: Graph, m: nat, added: set<nat>)
    requires Closed(g) && m < |g.nodes|
    ensures AddedAfter(g, m, added, false) == added
  {
  }

  /** A match that nothing has been suggested before pushes exactly what its evidence says. */
  lemma {:induction false} MatchPushes(g: Graph, tokens: seq<string>, m: nat, i: nat, e: Evidence, fuel: nat)
    requires Closed(g) && m < |g.nodes| && i <= |tokens| && (i < |tokens| || g.nodes[m].ListMatcher?)
    requires Shows(g, tokens, m, i, e) && MatchOutcome(g, tokens, m, i, {}, fuel).Done?
    ensures MatchOutcome(g, tokens, m, i, {}, fuel).log == Pushed(g, m, e)
    decreases fuel, 0
  {
    assert WellLinked(g, g.nodes[m]);
    match g.nodes[m]
    case LeafMatcher(_) =>
    case OptionalMatcher(c) =>
      MatchPushes(g, tokens, c, i, e.parts[0], fuel - 1);
      PushedTurn(g, [c], e, 0);
    case ChoiceMatcher(cs) =>
      assert cs[0..] == cs;
      ChoicePushes(g, tokens, cs, i, e, 0, fuel - 1);
    case RepeatMatcher(c) => RepeatPushes(g, tokens, c, i, e, fuel - 1);
    case ListMatcher(ms) =>
      assert ms[0..] == ms;
      ListPushes(g, tokens, ms, i, e, 0, {}, fuel - 1);
  }

  lemma {:induction false} ChoicePushes(g: Graph, tokens: seq<string>, cs: seq<nat>, i: nat, e: Evidence, j: nat, fuel: nat)
    requires Closed(g) && InGraph(g, cs) && i < |tokens| && ShowsChoice(g, tokens, cs, i, e) && j <= |e.parts|
    requires j == |e.parts| ==> j == |cs|
    requires ChoiceOutcome(g, tokens, cs[j..], i, fuel).Done?
    ensures ChoiceOutcome(g, tokens, cs[j..], i, fuel).log == PushedFrom(g, cs, e, j)
    decreases fuel, 1, |e.parts| - j
  {
    hide Shows, MatchOutcome, Pushed, PushedFrom;
    PushedTurn(g, cs, e, j);
    if j < |e.parts| {
      assert cs[j..][0] == cs[j] && cs[j..][1..] == cs[j + 1..];
      Agrees(g, tokens, cs[j], i, {}, e.parts[j], fuel);
      MatchPushes(g, tokens, cs[j], i, e.parts[j], fuel);
      if e.parts[j].end.None? {
        ChoicePushes(g, tokens, cs, i, e, j + 1, fuel);
      }
    }
  }

  lemma {:induction false} ListPushes(g: Graph, tokens: seq<string>, ms: seq<nat>, i: nat, e: Evidence, j: nat,
                                      added: set<nat>, fuel: nat)
    requires Closed(g) && InGraph(g, ms) && i <= |tokens| && ShowsList(g, tokens, ms, i, e) && j <= |e.parts| <= |ms|
    requires i <= From(i, e.parts, j) <= |tokens| && (j > 0 ==> e.parts[j - 1].end.Some?)
    requires added == if From(i, e.parts, j) == |tokens| then VisitedBefore(g, ms, j) else {}
    requires ListOutcome(g, tokens, ms[j..], i, From(i, e.parts, j), added, fuel).Done?
    ensures ListOutcome(g, tokens, ms[j..], i, From(i, e.parts, j), added, fuel).log
            == PushedFrom(g, ms, e, j) + PushedByList(g, ms, e.parts)
    decreases fuel, 1, |e.parts| - j
  {
    hide Shows, MatchOutcome, ListOutcome, InTurn, VisitedBefore, LeftOut, Suggestion, ListSuggestion, From, Pushed,
      PushedFrom;
    var now := From(i, e.parts, j);
    TurnsMatch(g, tokens, ms, i, e.parts);
    ListMoves(g, tokens, ms, j, i, now, added, fuel);
    PushedTurn(g, ms, e, j);
    if j < |e.parts| {
      TurnAt(g, tokens, ms, i, e.parts, j);
      var o := MatchOutcome(g, tokens, ms[j], now, {}, fuel);
      Agrees(g, tokens, ms[j], now, {}, e.parts[j], fuel);
      MatchPushes(g, tokens, ms[j], now, e.parts[j], fuel);
      if o.ok {
        FromNext(i, e.parts, j);
        VisitedBehind(g, ms, j, o.index == |tokens|);
        ListPushes(g, tokens, ms, i, e, j + 1, o.added, fuel);
      }
    }
  }

  /** The first match of a repeat, and its loop. */
  lemma {:induction false} RepeatPushes(g: Graph, tokens: seq<string>, c: nat, i: nat, e: Evidence, fuel: nat)
    requires Closed(g) && c < |g.nodes| && i < |tokens| && ShowsRepeat(g, tokens, c, i, e)
    requires var o := MatchOutcome(g, tokens, c, i, {}, fuel);
             o.Done? && (o.ok ==> RepeatOutcome(g, tokens, c, o.index, o.added, {}, fuel).Done?)
    ensures var o := MatchOutcome(g, tokens, c, i, {}, fuel);
            o.log + (if o.ok then RepeatOutcome(g, tokens, c, o.index, o.added, {}, fuel).log else [])
            == PushedFrom(g, Copies(c, |e.parts|), e, 0) + PushedByRepeat(g, c, e.parts)
    decreases fuel, 2
  {
    hide Shows, MatchOutcome, RepeatOutcome, InTurn, Suggestion, Pushed, PushedFrom, Copies;
    var cs := Copies(c, |e.parts|);
    TurnAt(g, tokens, cs, i, e.parts, 0);
    TurnsMatch(g, tokens, cs, i, e.parts);
    PushedTurn(g, cs, e, 0);
    Agrees(g, tokens, c, i, {}, e.parts[0], fuel);
    MatchPushes(g, tokens, c, i, e.parts[0], fuel);
    var o := MatchOutcome(g, tokens, c, i, {}, fuel);
    if o.ok {
      NothingAdded(g, c, {});
      LoopPushes(g, tokens, c, i, e, 1, o.added, fuel);
    }
  }

  lemma {:induction false} LoopPushes(g: Graph, tokens: seq<string>, c: nat, i: nat, e: Evidence, j: nat,
                                      repeated: set<nat>, fuel: nat)
    requires Closed(g) && c < |g.nodes| && i < |tokens| && ShowsRepeat(g, tokens, c, i, e)
    requires 0 < j <= |e.parts| && e.parts[j - 1].end.Some? && From(i, e.parts, j) <= |tokens|
    requires From(i, e.parts, j) < |tokens| ==> repeated == {}
    requires RepeatOutcome(g, tokens, c, From(i, e.parts, j), repeated, {}, fuel).Done?
    ensures RepeatOutcome(g, tokens, c, From(i, e.parts, j), repeated, {}, fuel).log
            == PushedFrom(g, Copies(c, |e.parts|), e, j) + PushedByRepeat(g, c, e.parts)
    decreases fuel, 1
  {
    hide Shows, MatchOutcome, RepeatOutcome, InTurn, From, Suggestion, Pushed, PushedFrom, Copies;
    var cs, now := Copies(c, |e.parts|), From(i, e.parts, j);
    TurnsMatch(g, tokens, cs, i, e.parts);
    RepeatMoves(g, tokens, c, now, repeated, {}, fuel);
    PushedTurn(g, cs, e, j);
    if j < |e.parts| {
      TurnAt(g, tokens, cs, i, e.parts, j);
      Agrees(g, tokens, c, now, {}, e.parts[j], fuel - 1);
      MatchPushes(g, tokens, c, now, e.parts[j], fuel - 1);
      var o := MatchOutcome(g, tokens, c, now, {}, fuel - 1);
      if o.ok {
        FromNext(i, e.parts, j);
        NothingAdded(g, c, {});
        LoopPushes(g, tokens, c, i, e, j + 1, o.added, fuel - 1);
      }
    }
  }
}
