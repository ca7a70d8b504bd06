/** What a matcher matches, without running it: evidence that a matcher takes the tokens from one position to another,
    or that it does not match there. Alternatives and repetitions are ordered and greedy, as in every PEG. */
module PegSpans {
  import opened Sequences
  import opened PegMatcher
  import opened PegLanguage
  import opened PegShortcut
  import opened PegTermination

  // ----- the relation -----

  /** Evidence for what becomes of a matcher at a position: where its match ends, if it has one; and the evidence for
      its members, or for what it has tried, in order. */
  datatype Evidence = Evidence(end: Option<nat>, parts: seq<Evidence>)

  /** Where part `j` begins, if all parts in front of it match. */
  function From(i: nat, parts: seq<Evidence>, j: nat): nat
    requires j <= |parts|
  {
    if j == 0 || parts[j - 1].end.None? then i else parts[j - 1].end.value
  }

  predicate LastFails(parts: seq<Evidence>) {
    parts != [] && parts[|parts| - 1].end.None?
  }

  /** What a repeat in front of the members left has visited when it ran out of tokens. */
  function VisitedBefore(g: Graph, ms: seq<nat>, j: nat): set<nat>
    requires Closed(g) && InGraph(g, ms) && j <= |ms|
  {
    if j > 0 && g.nodes[ms[j - 1]].RepeatMatcher? then
      assert WellLinked(g, g.nodes[ms[j - 1]]);
      Suggestion(g, g.nodes[ms[j - 1]].element, {}).added
    else {}
  }

  /** What becomes of a matcher at a position: a leaf takes one token that it accepts; an optional matcher takes what
      its child takes, and nothing only if the child does not match. */
  ghost predicate Shows(g: Graph, tokens: seq<string>, m: nat, i: nat, e: Evidence)
    requires Closed(g) && m < |g.nodes| && i <= |tokens| && (i < |tokens| || g.nodes[m].ListMatcher?)
    decreases e, 1
  {
    assert WellLinked(g, g.nodes[m]);
    match g.nodes[m]
    case LeafMatcher(leaf) => e.parts == [] && e.end == if g.accepts(leaf, tokens[i]) then Some(i + 1) else None
    case OptionalMatcher(c) =>
      |e.parts| == 1 && Shows(g, tokens, c, i, e.parts[0]) && e.end == Some(From(i, e.parts, 1))
    case ChoiceMatcher(cs) => ShowsChoice(g, tokens, cs, i, e)
    case RepeatMatcher(c) => ShowsRepeat(g, tokens, c, i, e)
    case ListMatcher(ms) => ShowsList(g, tokens, ms, i, e)
  }

  /** A choice takes what the first alternative takes that matches. */
  ghost predicate ShowsChoice(g: Graph, tokens: seq<string>, cs: seq<nat>, i: nat, e: Evidence)
    requires Closed(g) && InGraph(g, cs) && i < |tokens|
    decreases e, 0
  {
    && |e.parts| <= |cs|
    && (forall j :: 0 <= j < |e.parts| ==> Shows(g, tokens, cs[j], i, e.parts[j]))
    && (forall j :: 0 <= j < |e.parts| - 1 ==> e.parts[j].end.None?)
    && if e.parts == [] || LastFails(e.parts) then |e.parts| == |cs| && e.end == None
       else e.end == e.parts[|e.parts| - 1].end
  }

  /** The parts belong to these matchers, one behind the other: each begins on a token, where the one before it ended,
      and all match but for the last one perhaps. */
  ghost predicate InTurn(g: Graph, tokens: seq<string>, ms: seq<nat>, i: nat, parts: seq<Evidence>)
    requires Closed(g) && InGraph(g, ms)
    decreases parts, 0
  {
    && |parts| <= |ms| && (forall j :: 0 <= j < |parts| - 1 ==> parts[j].end.Some?)
    && forall j :: 0 <= j < |parts| ==>
         From(i, parts, j) < |tokens| && Shows(g, tokens, ms[j], From(i, parts, j), parts[j])
  }

  function Copies(c: nat, n: nat): (cs: seq<nat>)
    ensures |cs| == n && forall j :: 0 <= j < n ==> cs[j] == c
  {
    seq(n, _ => c)
  }

  /** A repeat matches at least once, and goes on until its element does not match or the tokens run out. */
  ghost predicate ShowsRepeat(g: Graph, tokens: seq<string>, c: nat, i: nat, e: Evidence)
    requires Closed(g) && c < |g.nodes| && i < |tokens|
    decreases e, 0
  {
    var n := |e.parts|;
    && n > 0 && InTurn(g, tokens, Copies(c, n), i, e.parts)
    && if LastFails(e.parts) then e.end == if n == 1 then None else Some(From(i, e.parts, n - 1))
       else e.end == Some(|tokens|) && From(i, e.parts, n) == |tokens|
  }

  /** The members of a list follow one another; those left when the tokens run out have to be such that they can be
      left out. */
  ghost predicate ShowsList(g: Graph, tokens: seq<string>, ms: seq<nat>, i: nat, e: Evidence)
    requires Closed(g) && InGraph(g, ms) && i <= |tokens|
    decreases e, 0
  {
    var n := |e.parts|;
    && InTurn(g, tokens, ms, i, e.parts)
    && if LastFails(e.parts) then e.end == None
       else if n == |ms| then e.end == Some(From(i, e.parts, n))
       else && From(i, e.parts, n) == |tokens|
            && e.end == if LeftOut(g, ms[n..], VisitedBefore(g, ms, n)) then Some(|tokens|) else None
  }

  /** Where the token index is left: a match moves it to its end, and a list that runs out of tokens in front of a
      member that may not be left out moves it behind the last token. */
  function Left(g: Graph, tokens: seq<string>, m: nat, i: nat, e: Evidence): nat
    requires m < |g.nodes|
  {
    if e.end.Some? then e.end.value
    else if g.nodes[m].ListMatcher? && !LastFails(e.parts) then |tokens|
    else i
  }

  // ----- parts in turn -----

  lemma TurnAt(g: Graph, tokens: seq<string>, ms: seq<nat>, i: nat, parts: seq<Evidence>, j: nat)
    requires Closed(g) && InGraph(g, ms) && InTurn(g, tokens, ms, i, parts) && j < |parts|
    ensures j < |ms| && ms[j] < |g.nodes| && From(i, parts, j) < |tokens|
    ensures Shows(g, tokens, ms[j], From(i, parts, j), parts[j])
  {
  }

  lemma TurnsMatch(g: Graph, tokens: seq<string>, ms: seq<nat>, i: nat, parts: seq<Evidence>)
    requires Closed(g) && InGraph(g, ms) && InTurn(g, tokens, ms, i, parts)
    ensures |parts| <= |ms| && forall j :: 0 <= j < |parts| - 1 ==> parts[j].end.Some?
    ensures forall j :: 0 <= j < |parts| ==> From(i, parts, j) < |tokens|
  {
    hide Shows;
  }

  // ----- what a match leaves behind -----

  /** Only a repeat that has run out of tokens has visited matchers that its caller has not. */
  function AddedAfter(g: Graph, m: nat, added: set<nat>, atEnd: bool): set<nat>
    requires Closed(g) && m < |g.nodes|
  {
    if atEnd && g.nodes[m].RepeatMatcher? then
      assert WellLinked(g, g.nodes[m]);
      Suggestion(g, g.nodes[m].element, added).added
    else added
  }

  lemma MatchAdds(g: Graph, tokens: seq<string>, m: nat, i: nat, added: set<nat>, fuel: nat)
    requires Closed(g) && m < |g.nodes| && i <= |tokens| && (i < |tokens| || g.nodes[m].ListMatcher?)
    requires MatchOutcome(g, tokens, m, i, added, fuel).Done?
    ensures var o := MatchOutcome(g, tokens, m, i, added, fuel);
            o.added == AddedAfter(g, m, added, o.ok && o.index == |tokens|)
  {
    assert WellLinked(g, g.nodes[m]);
    if g.nodes[m].RepeatMatcher? {
      var c := g.nodes[m].element;
      var o := MatchOutcome(g, tokens, c, i, {}, fuel - 1);
      if o.ok {
        RepeatAdds(g, tokens, c, o.index, o.added, added, fuel - 1);
      }
    }
  }

  lemma {:induction false} RepeatAdds(g: Graph, tokens: seq<string>, c: nat, i: nat, repeated: set<nat>,
                                      added: set<nat>, fuel: nat)
    requires Closed(g) && c < |g.nodes| && i <= |tokens|
    requires RepeatOutcome(g, tokens, c, i, repeated, added, fuel).Done?
    ensures var o := RepeatOutcome(g, tokens, c, i, repeated, added, fuel);
            o.added == if o.index == |tokens| then Suggestion(g, c, added).added else added
    decreases fuel
  {
    hide Suggestion, MatchOutcome;
    if i < |tokens| {
      var o := MatchOutcome(g, tokens, c, i, repeated, fuel - 1);
      if o.ok {
        RepeatAdds(g, tokens, c, o.index, o.added, added, fuel - 1);
      }
    }
  }

  // ----- every match has evidence -----

  function EndOf(o: Outcome): Option<nat>
    requires o.Done?
  {
    if o.ok then Some(o.index) else None
  }

  lemma {:induction false} MatchHasEvidence(g: Graph, tokens: seq<string>, m: nat, i: nat, added: set<nat>, fuel: nat)
    returns (e: Evidence)
    requires Closed(g) && m < |g.nodes| && i <= |tokens| && (i < |tokens| || g.nodes[m].ListMatcher?)
    requires MatchOutcome(g, tokens, m, i, added, fuel).Done?
    ensures var o := MatchOutcome(g, tokens, m, i, added, fuel);
            Shows(g, tokens, m, i, e) && e.end == EndOf(o) && Left(g, tokens, m, i, e) == o.index
    decreases fuel, 0
  {
    assert WellLinked(g, g.nodes[m]);
    var o := MatchOutcome(g, tokens, m, i, added, fuel);
    match g.nodes[m]
    case LeafMatcher(_) => e := Evidence(EndOf(o), []);
    case OptionalMatcher(c) =>
      var child := MatchHasEvidence(g, tokens, c, i, {}, fuel - 1);
      e := Evidence(EndOf(o), [child]);
    case ChoiceMatcher(cs) => e := ChoiceHasEvidence(g, tokens, cs, [], i, fuel - 1);
    case RepeatMatcher(c) =>
      var first := MatchOutcome(g, tokens, c, i, {}, fuel - 1);
      var child := MatchHasEvidence(g, tokens, c, i, {}, fuel - 1);
      if first.ok {
        e := RepeatHasEvidence(g, tokens, c, i, [child], first.added, added, fuel - 1);
      } else {
        e := Evidence(None, [child]);
      }
    case ListMatcher(ms) =>
      assert ms[0..] == ms;
      e := ListHasEvidence(g, tokens, ms, i, [], {}, fuel - 1);
  }

  lemma {:induction false} ChoiceHasEvidence(g: Graph, tokens: seq<string>, cs: seq<nat>, parts: seq<Evidence>, i: nat,
                                             fuel: nat)
    returns (e: Evidence)
    requires Closed(g) && InGraph(g, cs) && i < |tokens| && |parts| <= |cs|
    requires forall j :: 0 <= j < |parts| ==> parts[j].end.None? && Shows(g, tokens, cs[j], i, parts[j])
    requires ChoiceOutcome(g, tokens, cs[|parts|..], i, fuel).Done?
    ensures var o := ChoiceOutcome(g, tokens, cs[|parts|..], i, fuel);
            ShowsChoice(g, tokens, cs, i, e) && e.end == EndOf(o) && (e.end.None? ==> o.index == i)
    decreases fuel, 1, |cs| - |parts|
  {
    var n := |parts|;
    if n == |cs| {
      e := Evidence(None, parts);
    } else {
      hide Shows, MatchOutcome;
      assert cs[n..][0] == cs[n] && cs[n..][1..] == cs[n + 1..];
      var child := MatchHasEvidence(g, tokens, cs[n], i, {}, fuel);
      if child.end.Some? {
        e := Evidence(child.end, parts + [child]);
      } else {
        e := ChoiceHasEvidence(g, tokens, cs, parts + [child], i, fuel);
      }
    }
  }

  /** All parts match. */
  ghost predicate SoFar(g: Graph, tokens: seq<string>, ms: seq<nat>, i: nat, parts: seq<Evidence>)
    requires Closed(g) && InGraph(g, ms)
  {
    InTurn(g, tokens, ms, i, parts) && !LastFails(parts)
  }

  lemma NextPart(g: Graph, tokens: seq<string>, ms: seq<nat>, i: nat, parts: seq<Evidence>, e: Evidence)
    requires Closed(g) && InGraph(g, ms) && |parts| < |ms| && SoFar(g, tokens, ms, i, parts)
    requires From(i, parts, |parts|) < |tokens| && Shows(g, tokens, ms[|parts|], From(i, parts, |parts|), e)
    ensures InTurn(g, tokens, ms, i, parts + [e]) && (LastFails(parts + [e]) <==> e.end.None?)
    ensures e.end.Some? ==> SoFar(g, tokens, ms, i, parts + [e]) && From(i, parts + [e], |parts| + 1) == e.end.value
    ensures From(i, parts + [e], |parts|) == From(i, parts, |parts|)
  {
    hide Shows, InTurn, From, LastFails, SoFar;
    var all := parts + [e];
    PartsMatch(g, tokens, ms, i, parts);
    forall j | 0 <= j < |all|
      ensures From(i, all, j) < |tokens| && Shows(g, tokens, ms[j], From(i, all, j), all[j])
    {
      FromInFront(i, parts, e, j);
      if j < |parts| {
        TurnAt(g, tokens, ms, i, parts, j);
      }
    }
    FromInFront(i, parts, e, |parts|);
    PartsInTurn(g, tokens, ms, i, parts, e);
  }

  lemma PartsMatch(g: Graph, tokens: seq<string>, ms: seq<nat>, i: nat, parts: seq<Evidence>)
    requires Closed(g) && InGraph(g, ms) && SoFar(g, tokens, ms, i, parts)
    ensures InTurn(g, tokens, ms, i, parts) && |parts| <= |ms| && forall j :: 0 <= j < |parts| ==> parts[j].end.Some?
  {
    hide Shows;
  }

  lemma PartsInTurn(g: Graph, tokens: seq<string>, ms: seq<nat>, i: nat, parts: seq<Evidence>, e: Evidence)
    requires Closed(g) && InGraph(g, ms) && |parts| < |ms| && forall j :: 0 <= j < |parts| ==> parts[j].end.Some?
    requires forall j :: 0 <= j <= |parts| ==>
               && From(i, parts + [e], j) < |tokens|
               && Shows(g, tokens, ms[j], From(i, parts + [e], j), (parts + [e])[j])
    ensures InTurn(g, tokens, ms, i, parts + [e]) && (LastFails(parts + [e]) <==> e.end.None?)
    ensures e.end.Some? ==> SoFar(g, tokens, ms, i, parts + [e])
  {
    hide Shows, From;
  }

  lemma FromInFront(i: nat, parts: seq<Evidence>, e: Evidence, j: nat)
    requires j <= |parts|
    ensures From(i, parts + [e], j) == From(i, parts, j)
    ensures e.end.Some? ==> From(i, parts + [e], |parts| + 1) == e.end.value
  {
  }

  lemma {:induction false} ListHasEvidence(g: Graph, tokens: seq<string>, ms: seq<nat>, start: nat, parts: seq<Evidence>,
                                           added: set<nat>, fuel: nat)
    returns (e: Evidence)
    requires Closed(g) && InGraph(g, ms) && |parts| <= |ms| && SoFar(g, tokens, ms, start, parts)
    requires start <= From(start, parts, |parts|) <= |tokens|
    requires added == if From(start, parts, |parts|) == |tokens| then VisitedBefore(g, ms, |parts|) else {}
    requires ListOutcome(g, tokens, ms[|parts|..], start, From(start, parts, |parts|), added, fuel).Done?
    ensures var o := ListOutcome(g, tokens, ms[|parts|..], start, From(start, parts, |parts|), added, fuel);
            && ShowsList(g, tokens, ms, start, e) && e.end == EndOf(o)
            && (e.end.None? ==> o.index == if LastFails(e.parts) then start else |tokens|)
    decreases fuel, 1, |ms| - |parts|
  {
    hide Shows, MatchOutcome, ListOutcome, VisitedBefore, LeftOut, Suggestion, InTurn, From;
    var n, i := |parts|, From(start, parts, |parts|);
    var o := ListOutcome(g, tokens, ms[n..], start, i, added, fuel);
    ListMoves(g, tokens, ms, n, start, i, added, fuel);
    if n == |ms| || i == |tokens| {
      e := Evidence(EndOf(o), parts);
    } else {
      var child := MatchHasEvidence(g, tokens, ms[n], i, {}, fuel);
      NextPart(g, tokens, ms, start, parts, child);
      if child.end.Some? {
        MatchAdds(g, tokens, ms[n], i, {}, fuel);
        VisitedBehind(g, ms, n, child.end.value == |tokens|);
        e := ListHasEvidence(g, tokens, ms, start, parts + [child], MatchOutcome(g, tokens, ms[n], i, {}, fuel).added, fuel);
      } else {
        e := Evidence(None, parts + [child]);
      }
    }
  }

  lemma VisitedBehind(g: Graph, ms: seq<nat>, n: nat, atEnd: bool)
    requires Closed(g) && InGraph(g, ms) && n < |ms|
    ensures AddedAfter(g, ms[n], {}, atEnd) == if atEnd then VisitedBefore(g, ms, n + 1) else {}
  {
  }

  lemma MoreCopies(g: Graph, tokens: seq<string>, c: nat, i: nat, parts: seq<Evidence>)
    requires Closed(g) && c < |g.nodes| && SoFar(g, tokens, Copies(c, |parts|), i, parts)
    ensures SoFar(g, tokens, Copies(c, |parts| + 1), i, parts)
  {
    hide Shows;
  }

  /** RepeatOutcome, unfolded once. */
  lemma RepeatMoves(g: Graph, tokens: seq<string>, c: nat, i: nat, repeated: set<nat>, added: set<nat>, fuel: nat)
    requires Closed(g) && c < |g.nodes| && i <= |tokens|
    ensures var whole := RepeatOutcome(g, tokens, c, i, repeated, added, fuel);
            if i == |tokens| then whole.Done? && EndOf(whole) == Some(i) && whole.log == Suggestion(g, c, added).log
            else if fuel == 0 then whole.Diverges?
            else
              var o := MatchOutcome(g, tokens, c, i, repeated, fuel - 1);
              if o.Diverges? then whole.Diverges?
              else if !o.ok then whole.Done? && EndOf(whole) == Some(i) && whole.log == o.log
              else
                var rest := RepeatOutcome(g, tokens, c, o.index, o.added, added, fuel - 1);
                && (whole.Done? <==> rest.Done?)
                && (whole.Done? ==> EndOf(whole) == EndOf(rest) && whole.log == o.log + rest.log)
  {
    hide MatchOutcome, Suggestion;
  }

  lemma {:induction false} RepeatHasEvidence(g: Graph, tokens: seq<string>, c: nat, start: nat, parts: seq<Evidence>,
                                             repeated: set<nat>, added: set<nat>, fuel: nat)
    returns (e: Evidence)
    requires Closed(g) && c < |g.nodes| && start < |tokens| && parts != []
    requires SoFar(g, tokens, Copies(c, |parts|), start, parts) && From(start, parts, |parts|) <= |tokens|
    requires RepeatOutcome(g, tokens, c, From(start, parts, |parts|), repeated, added, fuel).Done?
    ensures ShowsRepeat(g, tokens, c, start, e)
    ensures e.end == EndOf(RepeatOutcome(g, tokens, c, From(start, parts, |parts|), repeated, added, fuel))
    decreases fuel, 1
  {
    hide Shows, MatchOutcome, InTurn, RepeatOutcome, From;
    var i := From(start, parts, |parts|);
    RepeatMoves(g, tokens, c, i, repeated, added, fuel);
    if i == |tokens| {
      e := Evidence(Some(i), parts);
    } else {
      MoreCopies(g, tokens, c, start, parts);
      var child := MatchHasEvidence(g, tokens, c, i, repeated, fuel - 1);
      NextPart(g, tokens, Copies(c, |parts| + 1), start, parts, child);
      if child.end.Some? {
        var o := MatchOutcome(g, tokens, c, i, repeated, fuel - 1);
        e := RepeatHasEvidence(g, tokens, c, start, parts + [child], o.added, added, fuel - 1);
      } else {
        e := Evidence(Some(i), parts + [child]);
      }
    }
  }

  // ----- evidence can be run -----

  lemma {:induction false} EvidenceRuns(g: Graph, tokens: seq<string>, m: nat, i: nat, added: set<nat>, e: Evidence)
    returns (fuel: nat)
    requires Closed(g) && m < |g.nodes| && i <= |tokens| && (i < |tokens| || g.nodes[m].ListMatcher?)
    requires Shows(g, tokens, m, i, e)
    ensures var o := MatchOutcome(g, tokens, m, i, added, fuel);
            o.Done? && EndOf(o) == e.end && o.index == Left(g, tokens, m, i, e)
    decreases e, 1
  {
    assert WellLinked(g, g.nodes[m]);
    match g.nodes[m]
    case LeafMatcher(_) => fuel := 1;
    case OptionalMatcher(c) =>
      var f := EvidenceRuns(g, tokens, c, i, {}, e.parts[0]);
      fuel := f + 1;
    case ChoiceMatcher(cs) =>
      assert cs[0..] == cs;
      var f := ChoiceRuns(g, tokens, cs, i, e, 0);
      fuel := f + 1;
    case RepeatMatcher(c) =>
      var f := FirstRuns(g, tokens, c, i, added, e);
      fuel := f + 1;
    case ListMatcher(ms) =>
      assert ms[0..] == ms;
      var f := ListRuns(g, tokens, ms, i, e, 0, {});
      fuel := f + 1;
  }

  lemma {:induction false} ChoiceRuns(g: Graph, tokens: seq<string>, cs: seq<nat>, i: nat, e: Evidence, j: nat)
    returns (fuel: nat)
    requires Closed(g) && InGraph(g, cs) && i < |tokens| && ShowsChoice(g, tokens, cs, i, e) && j <= |e.parts|
    requires j == |e.parts| ==> e.end == None
    ensures var o := ChoiceOutcome(g, tokens, cs[j..], i, fuel);
            o.Done? && EndOf(o) == e.end && (e.end.None? ==> o.index == i)
    decreases e, 0, |e.parts| - j
  {
    if j == |e.parts| {
      fuel := 0;
    } else {
      hide Shows, MatchOutcome;
      assert cs[j..][0] == cs[j] && cs[j..][1..] == cs[j + 1..];
      fuel := EvidenceRuns(g, tokens, cs[j], i, {}, e.parts[j]);
      if e.parts[j].end.None? {
        var f := ChoiceRuns(g, tokens, cs, i, e, j + 1);
        var most := Max(fuel, f);
        MatchDeeper(g, tokens, cs[j], i, {}, fuel, most);
        ChoiceDeeper(g, tokens, cs[j + 1..], i, f, most);
        fuel := most;
      }
    }
  }

  /** The first match of a repeat, and its loop. */
  lemma {:induction false} FirstRuns(g: Graph, tokens: seq<string>, c: nat, i: nat, added: set<nat>, e: Evidence)
    returns (fuel: nat)
    requires Closed(g) && c < |g.nodes| && i < |tokens| && ShowsRepeat(g, tokens, c, i, e)
    ensures var o := MatchOutcome(g, tokens, c, i, {}, fuel);
            && o.Done?
            && if !o.ok then e.end == None
               else var rest := RepeatOutcome(g, tokens, c, o.index, o.added, added, fuel); rest.Done? && EndOf(rest) == e.end
    decreases e, 0, |e.parts| + 1
  {
    TurnAt(g, tokens, Copies(c, |e.parts|), i, e.parts, 0);
    TurnsMatch(g, tokens, Copies(c, |e.parts|), i, e.parts);
    hide Shows, MatchOutcome, RepeatOutcome, InTurn;
    fuel := EvidenceRuns(g, tokens, c, i, {}, e.parts[0]);
    var o := MatchOutcome(g, tokens, c, i, {}, fuel);
    if o.ok {
      var f := RepeatRuns(g, tokens, c, i, e, 1, o.added, added);
      var most := Max(fuel, f);
      MatchDeeper(g, tokens, c, i, {}, fuel, most);
      RepeatDeeper(g, tokens, c, o.index, o.added, added, f, most);
      fuel := most;
    }
  }

  lemma {:induction false} RepeatRuns(g: Graph, tokens: seq<string>, c: nat, i: nat, e: Evidence, j: nat,
                                      repeated: set<nat>, added: set<nat>)
    returns (fuel: nat)
    requires Closed(g) && c < |g.nodes| && i < |tokens| && ShowsRepeat(g, tokens, c, i, e)
    requires 0 < j <= |e.parts| && e.parts[j - 1].end.Some? && From(i, e.parts, j) <= |tokens|
    ensures var o := RepeatOutcome(g, tokens, c, From(i, e.parts, j), repeated, added, fuel); o.Done? && EndOf(o) == e.end
    decreases e, 0, |e.parts| - j
  {
    hide Shows, MatchOutcome, RepeatOutcome, InTurn, From;
    var now := From(i, e.parts, j);
    if j == |e.parts| {
      fuel := 0;
      RepeatMoves(g, tokens, c, now, repeated, added, 0);
    } else {
      TurnAt(g, tokens, Copies(c, |e.parts|), i, e.parts, j);
      TurnsMatch(g, tokens, Copies(c, |e.parts|), i, e.parts);
      var f := EvidenceRuns(g, tokens, c, now, repeated, e.parts[j]);
      var o := MatchOutcome(g, tokens, c, now, repeated, f);
      fuel := f + 1;
      if o.ok {
        FromNext(i, e.parts, j);
        var f' := RepeatRuns(g, tokens, c, i, e, j + 1, o.added, added);
        var most := Max(f, f');
        MatchDeeper(g, tokens, c, now, repeated, f, most);
        RepeatDeeper(g, tokens, c, o.index, o.added, added, f', most);
        fuel := most + 1;
      }
      RepeatMoves(g, tokens, c, now, repeated, added, fuel);
    }
  }

  lemma FromNext(i: nat, parts: seq<Evidence>, j: nat)
    requires j < |parts| && parts[j].end.Some?
    ensures From(i, parts, j + 1) == parts[j].end.value
  {
  }

  /** ListOutcome, unfolded once. */
  lemma ListMoves(g: Graph, tokens: seq<string>, ms: seq<nat>, j: nat, start: nat, i: nat, added: set<nat>, fuel: nat)
    requires Closed(g) && InGraph(g, ms) && j <= |ms| && start <= i <= |tokens|
    ensures var whole := ListOutcome(g, tokens, ms[j..], start, i, added, fuel);
            if j == |ms| then whole.Done? && EndOf(whole) == Some(i) && whole.log == []
            else if i == |tokens| then
              && whole.Done? && whole.index == i && whole.log == ListSuggestion(g, ms[j..], added).log
              && EndOf(whole) == if LeftOut(g, ms[j..], added) then Some(i) else None
            else
              var o := MatchOutcome(g, tokens, ms[j], i, added, fuel);
              if o.Diverges? then whole.Diverges?
              else if !o.ok then whole.Done? && EndOf(whole) == None && whole.index == start && whole.log == o.log
              else
                var rest := ListOutcome(g, tokens, ms[j + 1..], start, o.index, o.added, fuel);
                && (whole.Done? <==> rest.Done?)
                && (whole.Done? ==>
                      EndOf(whole) == EndOf(rest) && whole.index == rest.index && whole.log == o.log + rest.log)
  {
    ShortcutExactly(g, ms[j..], added);
    hide MatchOutcome, Suggestion, ListSuggestion, LeftOut;
    if j < |ms| {
      assert ms[j..][0] == ms[j] && ms[j..][1..] == ms[j + 1..];
    }
  }

  lemma {:induction false} ListRuns(g: Graph, tokens: seq<string>, ms: seq<nat>, i: nat, e: Evidence, j: nat,
                                    added: set<nat>)
    returns (fuel: nat)
    requires Closed(g) && InGraph(g, ms) && i <= |tokens| && ShowsList(g, tokens, ms, i, e) && j <= |e.parts|
    requires j <= |ms| && i <= From(i, e.parts, j) <= |tokens| && (j > 0 ==> e.parts[j - 1].end.Some?)
    requires added == if From(i, e.parts, j) == |tokens| then VisitedBefore(g, ms, j) else {}
    ensures var o := ListOutcome(g, tokens, ms[j..], i, From(i, e.parts, j), added, fuel);
            && o.Done? && EndOf(o) == e.end
            && (e.end.None? ==> o.index == if LastFails(e.parts) then i else |tokens|)
    decreases e, 0, |e.parts| - j
  {
    hide Shows, MatchOutcome, ListOutcome, InTurn, VisitedBefore, LeftOut, Suggestion, From;
    TurnsMatch(g, tokens, ms, i, e.parts);
    var now := From(i, e.parts, j);
    if j == |e.parts| {
      fuel := 0;
    } else {
      TurnAt(g, tokens, ms, i, e.parts, j);
      fuel := EvidenceRuns(g, tokens, ms[j], now, {}, e.parts[j]);
      var o := MatchOutcome(g, tokens, ms[j], now, {}, fuel);
      if o.ok {
        FromNext(i, e.parts, j);
        MatchAdds(g, tokens, ms[j], now, {}, fuel);
        VisitedBehind(g, ms, j, o.index == |tokens|);
        var f := ListRuns(g, tokens, ms, i, e, j + 1, o.added);
        var most := Max(fuel, f);
        MatchDeeper(g, tokens, ms[j], now, {}, fuel, most);
        ListDeeper(g, tokens, ms[j + 1..], i, o.index, o.added, f, most);
        fuel := most;
      }
    }
    ListMoves(g, tokens, ms, j, i, now, added, fuel);
  }

  // ----- matching is exactly that relation -----

  /** There is evidence for this end, which leaves the token index there. */
  ghost predicate Ends(g: Graph, tokens: seq<string>, m: nat, i: nat, end: Option<nat>, index: nat)
    requires Closed(g) && m < |g.nodes| && i <= |tokens| && (i < |tokens| || g.nodes[m].ListMatcher?)
  {
    exists e :: Shows(g, tokens, m, i, e) && e.end == end && Left(g, tokens, m, i, e) == index
  }

  ghost predicate Matches(g: Graph, tokens: seq<string>, m: nat, i: nat, added: set<nat>, end: Option<nat>, index: nat)
    requires Closed(g) && m < |g.nodes| && i <= |tokens| && (i < |tokens| || g.nodes[m].ListMatcher?)
  {
    exists fuel: nat ::
      var o := MatchOutcome(g, tokens, m, i, added, fuel); o.Done? && EndOf(o) == end && o.index == index
  }

  /** A match takes the tokens up to a position, or fails, exactly if there is evidence for that, and leaves the token
      index where the evidence says. */
  lemma MatchIsExactly(g: Graph, tokens: seq<string>, m: nat, i: nat, added: set<nat>, end: Option<nat>, index: nat)
    requires Closed(g) && m < |g.nodes| && i <= |tokens| && (i < |tokens| || g.nodes[m].ListMatcher?)
    ensures Matches(g, tokens, m, i, added, end, index) <==> Ends(g, tokens, m, i, end, index)
  {
    hide MatchOutcome, Shows;
    if Matches(g, tokens, m, i, added, end, index) {
      var fuel: nat :|
        var o := MatchOutcome(g, tokens, m, i, added, fuel); o.Done? && EndOf(o) == end && o.index == index;
      var e := MatchHasEvidence(g, tokens, m, i, added, fuel);
    }
    if e :| Shows(g, tokens, m, i, e) && e.end == end && Left(g, tokens, m, i, e) == index {
      var fuel := EvidenceRuns(g, tokens, m, i, added, e);
    }
  }

  /** There is evidence for at most one end. */
  lemma OneEnd(g: Graph, tokens: seq<string>, m: nat, i: nat, end: Option<nat>, index: nat, end': Option<nat>, index': nat)
    requires Closed(g) && m < |g.nodes| && i <= |tokens| && (i < |tokens| || g.nodes[m].ListMatcher?)
    requires Ends(g, tokens, m, i, end, index) && Ends(g, tokens, m, i, end', index')
    ensures end == end' && index == index'
  {
    hide MatchOutcome, Shows;
    var e :| Shows(g, tokens, m, i, e) && e.end == end && Left(g, tokens, m, i, e) == index;
    var e' :| Shows(g, tokens, m, i, e') && e'.end == end' && Left(g, tokens, m, i, e') == index';
    var fuel := EvidenceRuns(g, tokens, m, i, {}, e);
    var fuel' := EvidenceRuns(g, tokens, m, i, {}, e');
    MatchDeeper(g, tokens, m, i, {}, fuel, Max(fuel, fuel'));
    MatchDeeper(g, tokens, m, i, {}, fuel', Max(fuel, fuel'));
  }
}
