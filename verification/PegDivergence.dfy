/** When a match does not end: exactly if there is a chain of calls that never stops. */
module PegDivergence {
  import opened PegMatcher
  import opened PegTermination

  /** A run of a matcher at a token, or the loop of a repeat whose element has matched up to a token. */
  datatype Activation =
    | Run(m: nat, at: nat, added: set<nat>)
    | Loop(element: nat, at: nat, repeated: set<nat>, added: set<nat>)

  ghost predicate Proper(g: Graph, tokens: seq<string>, a: Activation)
    requires Closed(g)
  {
    match a
    case Run(m, i, _) => m < |g.nodes| && i <= |tokens| && (i < |tokens| || g.nodes[m].ListMatcher?)
    case Loop(c, i, _, _) => c < |g.nodes| && i <= |tokens|
  }

  ghost predicate Ends(g: Graph, tokens: seq<string>, a: Activation)
    requires Closed(g) && Proper(g, tokens, a)
  {
    exists fuel: nat :: OutcomeOf(g, tokens, a, fuel).Done?
  }

  function OutcomeOf(g: Graph, tokens: seq<string>, a: Activation, fuel: nat): Outcome
    requires Closed(g) && Proper(g, tokens, a)
  {
    match a
    case Run(m, i, added) => MatchOutcome(g, tokens, m, i, added, fuel)
    case Loop(c, i, repeated, added) => RepeatOutcome(g, tokens, c, i, repeated, added, fuel)
  }

  /** What a run comes to, if it ends. */
  ghost predicate EndsWith(g: Graph, tokens: seq<string>, m: nat, i: nat, added: set<nat>, ok: bool, j: nat, after: set<nat>)
    requires Closed(g) && m < |g.nodes| && i < |tokens|
  {
    exists fuel: nat :: Finishes(MatchOutcome(g, tokens, m, i, added, fuel), ok, j, after)
  }

  predicate Finishes(o: Outcome, ok: bool, j: nat, after: set<nat>) {
    o.Done? && o.ok == ok && o.index == j && o.added == after
  }

  /** The first `k` members of a list match up to token `j`. */
  ghost predicate MembersReach(g: Graph, tokens: seq<string>, ms: seq<nat>, k: nat, start: nat, i: nat, added: set<nat>,
                               j: nat, after: set<nat>)
    requires Closed(g) && InGraph(g, ms) && start <= i <= |tokens| && k <= |ms|
  {
    exists fuel: nat :: Finishes(ListOutcome(g, tokens, ms[..k], start, i, added, fuel), true, j, after)
  }

  /** The first `k` alternatives of a choice fail. */
  ghost predicate AlternativesFail(g: Graph, tokens: seq<string>, cs: seq<nat>, k: nat, i: nat)
    requires Closed(g) && InGraph(g, cs) && i < |tokens| && k <= |cs|
  {
    exists fuel: nat :: AllFail(ChoiceOutcome(g, tokens, cs[..k], i, fuel))
  }

  predicate AllFail(o: Outcome) {
    o.Done? && !o.ok
  }

  /** One activation makes the other one, on its way through its members, alternatives or repetitions. */
  ghost predicate Makes(g: Graph, tokens: seq<string>, a: Activation, b: Activation)
    requires Closed(g) && Proper(g, tokens, a)
  {
    match a
    case Run(m, i, added) =>
      assert WellLinked(g, g.nodes[m]);
      (match g.nodes[m]
       case LeafMatcher(_) => false
       case ListMatcher(ms) =>
         exists k: nat, j: nat, after ::
           k < |ms| && j < |tokens| && MembersReach(g, tokens, ms, k, i, i, {}, j, after) && b == Run(ms[k], j, after)
       case OptionalMatcher(c) => b == Run(c, i, {})
       case ChoiceMatcher(cs) =>
         exists k: nat :: k < |cs| && AlternativesFail(g, tokens, cs, k, i) && b == Run(cs[k], i, {})
       case RepeatMatcher(c) =>
         || b == Run(c, i, {})
         || exists j: nat, after ::
              j <= |tokens| && EndsWith(g, tokens, c, i, {}, true, j, after) && b == Loop(c, j, after, added))
    case Loop(c, i, repeated, added) =>
      && i < |tokens|
      && (|| b == Run(c, i, repeated)
          || exists j: nat, after ::
               j <= |tokens| && EndsWith(g, tokens, c, i, repeated, true, j, after) && b == Loop(c, j, after, added))
  }

  /** Every activation makes another one: none of them ever ends. */
  ghost predicate Stuck(g: Graph, tokens: seq<string>, chain: iset<Activation>)
    requires Closed(g)
  {
    forall a :: a in chain ==> Proper(g, tokens, a) && exists b :: b in chain && Makes(g, tokens, a, b)
  }

  // ----- outcomes with any depth -----

  lemma SameRun(g: Graph, tokens: seq<string>, m: nat, i: nat, added: set<nat>, f: nat, f': nat)
    requires Closed(g) && m < |g.nodes| && i < |tokens|
    requires MatchOutcome(g, tokens, m, i, added, f).Done? && MatchOutcome(g, tokens, m, i, added, f').Done?
    ensures MatchOutcome(g, tokens, m, i, added, f) == MatchOutcome(g, tokens, m, i, added, f')
  {
    MatchDeeper(g, tokens, m, i, added, f, Max(f, f'));
    MatchDeeper(g, tokens, m, i, added, f', Max(f, f'));
  }

  lemma ListTurnAt(g: Graph, tokens: seq<string>, ms: seq<nat>, start: nat, i: nat, added: set<nat>, fuel: nat)
    requires Closed(g) && InGraph(g, ms) && start <= i <= |tokens|
    ensures ms == [] ==> ListOutcome(g, tokens, ms, start, i, added, fuel) == Done(true, i, added, [])
    ensures ms != [] && i >= |tokens| ==> ListOutcome(g, tokens, ms, start, i, added, fuel).Done?
    ensures ms != [] && i >= |tokens| ==> ListOutcome(g, tokens, ms, start, i, added, fuel).index == i
    ensures ms != [] && i < |tokens| ==>
              var o := MatchOutcome(g, tokens, ms[0], i, added, fuel);
              ListOutcome(g, tokens, ms, start, i, added, fuel)
                == if o.Diverges? then o
                   else if !o.ok then o.(index := start)
                   else Logged(o.log, ListOutcome(g, tokens, ms[1..], start, o.index, o.added, fuel))
  {
  }

  /** A list that ends has run every member that is come to. */
  lemma {:induction false} ListRuns(g: Graph, tokens: seq<string>, ms: seq<nat>, k: nat, start: nat, i: nat,
                                    added: set<nat>, j: nat, after: set<nat>, f: nat, fuel: nat)
    requires Closed(g) && InGraph(g, ms) && start <= i <= |tokens| && k < |ms| && j < |tokens|
    requires Finishes(ListOutcome(g, tokens, ms[..k], start, i, added, f), true, j, after)
    requires ListOutcome(g, tokens, ms, start, i, added, fuel).Done?
    ensures MatchOutcome(g, tokens, ms[k], j, after, fuel).Done?
    decreases k
  {
    hide MatchOutcome, ListOutcome;
    ListTurnAt(g, tokens, ms[..k], start, i, added, f);
    ListTurnAt(g, tokens, ms, start, i, added, fuel);
    if k > 0 {
      assert ms[..k][1..] == ms[1..][..k - 1];
      SameRun(g, tokens, ms[0], i, added, f, fuel);
      var o := MatchOutcome(g, tokens, ms[0], i, added, f);
      ListRuns(g, tokens, ms[1..], k - 1, start, o.index, o.added, j, after, f, fuel);
    }
  }

  /** A list that does not end has a member that is come to and does not end. */
  lemma {:induction false} ListStays(g: Graph, tokens: seq<string>, ms: seq<nat>, start: nat, i: nat, added: set<nat>)
    returns (k: nat, j: nat, after: set<nat>)
    requires Closed(g) && InGraph(g, ms) && start <= i <= |tokens|
    requires forall fuel: nat :: !ListOutcome(g, tokens, ms, start, i, added, fuel).Done?
    ensures k < |ms| && j < |tokens| && MembersReach(g, tokens, ms, k, start, i, added, j, after)
    ensures !Ends(g, tokens, Run(ms[k], j, after))
    decreases |ms|
  {
    hide MatchOutcome, ListOutcome;
    ListTurnAt(g, tokens, ms, start, i, added, 0);
    assert !ListOutcome(g, tokens, ms, start, i, added, 0).Done?;
    if !Ends(g, tokens, Run(ms[0], i, added)) {
      k, j, after := 0, i, added;
      assert ms[..0] == [];
      ListTurnAt(g, tokens, [], start, i, added, 0);
      assert Finishes(ListOutcome(g, tokens, ms[..0], start, i, added, 0), true, i, added);
    } else {
      var f: nat :| OutcomeOf(g, tokens, Run(ms[0], i, added), f).Done?;
      var o := MatchOutcome(g, tokens, ms[0], i, added, f);
      ListTurnAt(g, tokens, ms, start, i, added, f);
      assert !ListOutcome(g, tokens, ms, start, i, added, f).Done?;
      forall fuel: nat ensures !ListOutcome(g, tokens, ms[1..], start, o.index, o.added, fuel).Done? {
        if ListOutcome(g, tokens, ms[1..], start, o.index, o.added, fuel).Done? {
          var both := Max(f, fuel);
          assert !ListOutcome(g, tokens, ms, start, i, added, both).Done?;
          MatchDeeper(g, tokens, ms[0], i, added, f, both);
          ListDeeper(g, tokens, ms[1..], start, o.index, o.added, fuel, both);
          ListTurnAt(g, tokens, ms, start, i, added, both);
        }
      }
      var k';
      k', j, after := ListStays(g, tokens, ms[1..], start, o.index, o.added);
      k := k' + 1;
      var f': nat :| Finishes(ListOutcome(g, tokens, ms[1..][..k'], start, o.index, o.added, f'), true, j, after);
      var both := Max(f, f');
      MatchDeeper(g, tokens, ms[0], i, added, f, both);
      ListDeeper(g, tokens, ms[1..][..k'], start, o.index, o.added, f', both);
      assert ms[..k][1..] == ms[1..][..k'];
      ListTurnAt(g, tokens, ms[..k], start, i, added, both);
      assert Finishes(ListOutcome(g, tokens, ms[..k], start, i, added, both), true, j, after);
    }
  }

  lemma ChoiceTurnAt(g: Graph, tokens: seq<string>, cs: seq<nat>, i: nat, fuel: nat)
    requires Closed(g) && InGraph(g, cs) && i < |tokens|
    ensures cs == [] ==> ChoiceOutcome(g, tokens, cs, i, fuel) == Done(false, i, {}, [])
    ensures cs != [] ==>
              var o := MatchOutcome(g, tokens, cs[0], i, {}, fuel);
              ChoiceOutcome(g, tokens, cs, i, fuel)
                == if o.Diverges? || o.ok then o else Logged(o.log, ChoiceOutcome(g, tokens, cs[1..], i, fuel))
  {
  }

  lemma {:induction false} ChoiceRuns(g: Graph, tokens: seq<string>, cs: seq<nat>, k: nat, i: nat, f: nat, fuel: nat)
    requires Closed(g) && InGraph(g, cs) && i < |tokens| && k < |cs|
    requires AllFail(ChoiceOutcome(g, tokens, cs[..k], i, f)) && ChoiceOutcome(g, tokens, cs, i, fuel).Done?
    ensures MatchOutcome(g, tokens, cs[k], i, {}, fuel).Done?
    decreases k
  {
    hide MatchOutcome, ChoiceOutcome;
    ChoiceTurnAt(g, tokens, cs[..k], i, f);
    ChoiceTurnAt(g, tokens, cs, i, fuel);
    if k > 0 {
      assert cs[..k][1..] == cs[1..][..k - 1];
      SameRun(g, tokens, cs[0], i, {}, f, fuel);
      ChoiceRuns(g, tokens, cs[1..], k - 1, i, f, fuel);
    }
  }

  lemma {:induction false} ChoiceStays(g: Graph, tokens: seq<string>, cs: seq<nat>, i: nat) returns (k: nat)
    requires Closed(g) && InGraph(g, cs) && i < |tokens|
    requires forall fuel: nat :: !ChoiceOutcome(g, tokens, cs, i, fuel).Done?
    ensures k < |cs| && AlternativesFail(g, tokens, cs, k, i) && !Ends(g, tokens, Run(cs[k], i, {}))
    decreases |cs|
  {
    hide MatchOutcome, ChoiceOutcome;
    ChoiceTurnAt(g, tokens, cs, i, 0);
    assert !ChoiceOutcome(g, tokens, cs, i, 0).Done?;
    if !Ends(g, tokens, Run(cs[0], i, {})) {
      k := 0;
      assert cs[..0] == [];
      ChoiceTurnAt(g, tokens, [], i, 0);
      assert AllFail(ChoiceOutcome(g, tokens, cs[..0], i, 0));
    } else {
      var f: nat :| OutcomeOf(g, tokens, Run(cs[0], i, {}), f).Done?;
      ChoiceTurnAt(g, tokens, cs, i, f);
      assert !ChoiceOutcome(g, tokens, cs, i, f).Done?;
      forall fuel: nat ensures !ChoiceOutcome(g, tokens, cs[1..], i, fuel).Done? {
        if ChoiceOutcome(g, tokens, cs[1..], i, fuel).Done? {
          var both := Max(f, fuel);
          assert !ChoiceOutcome(g, tokens, cs, i, both).Done?;
          MatchDeeper(g, tokens, cs[0], i, {}, f, both);
          ChoiceDeeper(g, tokens, cs[1..], i, fuel, both);
          ChoiceTurnAt(g, tokens, cs, i, both);
        }
      }
      var k' := ChoiceStays(g, tokens, cs[1..], i);
      k := k' + 1;
      var f': nat :| AllFail(ChoiceOutcome(g, tokens, cs[1..][..k'], i, f'));
      var both := Max(f, f');
      MatchDeeper(g, tokens, cs[0], i, {}, f, both);
      ChoiceDeeper(g, tokens, cs[1..][..k'], i, f', both);
      assert cs[..k][1..] == cs[1..][..k'];
      ChoiceTurnAt(g, tokens, cs[..k], i, both);
      assert AllFail(ChoiceOutcome(g, tokens, cs[..k], i, both));
    }
  }

  lemma RepeatTurnAt(g: Graph, tokens: seq<string>, c: nat, i: nat, repeated: set<nat>, added: set<nat>, fuel: nat)
    requires Closed(g) && c < |g.nodes| && i <= |tokens|
    ensures i >= |tokens| ==> RepeatOutcome(g, tokens, c, i, repeated, added, fuel).Done?
    ensures i < |tokens| && fuel == 0 ==> RepeatOutcome(g, tokens, c, i, repeated, added, fuel).Diverges?
    ensures i < |tokens| && fuel > 0 ==>
              var o := MatchOutcome(g, tokens, c, i, repeated, fuel - 1);
              RepeatOutcome(g, tokens, c, i, repeated, added, fuel)
                == if o.Diverges? then o
                   else if !o.ok then Done(true, i, added, o.log)
                   else Logged(o.log, RepeatOutcome(g, tokens, c, o.index, o.added, added, fuel - 1))
  {
  }

  lemma MatchTurnAt(g: Graph, tokens: seq<string>, m: nat, i: nat, added: set<nat>, fuel: nat)
    requires Closed(g) && Proper(g, tokens, Run(m, i, added)) && fuel > 0
    ensures WellLinked(g, g.nodes[m])
    ensures g.nodes[m].LeafMatcher? ==> MatchOutcome(g, tokens, m, i, added, fuel).Done?
    ensures g.nodes[m].ListMatcher? ==>
              (MatchOutcome(g, tokens, m, i, added, fuel).Done? <==>
               ListOutcome(g, tokens, g.nodes[m].matchers, i, i, {}, fuel - 1).Done?)
    ensures g.nodes[m].OptionalMatcher? ==>
              (MatchOutcome(g, tokens, m, i, added, fuel).Done? <==>
               MatchOutcome(g, tokens, g.nodes[m].matcher, i, {}, fuel - 1).Done?)
    ensures g.nodes[m].ChoiceMatcher? ==>
              (MatchOutcome(g, tokens, m, i, added, fuel).Done? <==>
               ChoiceOutcome(g, tokens, g.nodes[m].choices, i, fuel - 1).Done?)
    ensures g.nodes[m].RepeatMatcher? ==>
              var c := g.nodes[m].element;
              var o := MatchOutcome(g, tokens, c, i, {}, fuel - 1);
              (MatchOutcome(g, tokens, m, i, added, fuel).Done? <==>
               o.Done? && (o.ok ==> RepeatOutcome(g, tokens, c, o.index, o.added, added, fuel - 1).Done?))
  {
    assert WellLinked(g, g.nodes[m]);
  }

  lemma NoDepthNoRun(g: Graph, tokens: seq<string>, m: nat, i: nat, added: set<nat>)
    requires Closed(g) && Proper(g, tokens, Run(m, i, added))
    ensures MatchOutcome(g, tokens, m, i, added, 0).Diverges?
  {
  }

  // ----- chains that never stop -----

  /** The run of a repeat's element, and the loop behind it. */
  lemma LoopFollows(g: Graph, tokens: seq<string>, c: nat, i: nat, repeated: set<nat>, j: nat, after: set<nat>, fuel: nat)
    requires Closed(g) && c < |g.nodes| && i < |tokens| && EndsWith(g, tokens, c, i, repeated, true, j, after)
    requires MatchOutcome(g, tokens, c, i, repeated, fuel).Done?
    ensures Finishes(MatchOutcome(g, tokens, c, i, repeated, fuel), true, j, after)
  {
    var f: nat :| Finishes(MatchOutcome(g, tokens, c, i, repeated, f), true, j, after);
    SameRun(g, tokens, c, i, repeated, f, fuel);
  }

  lemma StuckTurn(g: Graph, tokens: seq<string>, chain: iset<Activation>, a: Activation) returns (b: Activation)
    requires Closed(g) && Stuck(g, tokens, chain) && a in chain
    ensures Proper(g, tokens, a) && b in chain && Makes(g, tokens, a, b)
  {
    hide Makes, Proper;
    b :| b in chain && Makes(g, tokens, a, b);
  }

  lemma {:induction false} StuckNeverEnds(g: Graph, tokens: seq<string>, chain: iset<Activation>, a: Activation, fuel: nat)
    requires Closed(g) && Stuck(g, tokens, chain) && a in chain
    ensures Proper(g, tokens, a) && !OutcomeOf(g, tokens, a, fuel).Done?
    decreases fuel
  {
    hide Stuck, Makes, Proper, OutcomeOf;
    var b := StuckTurn(g, tokens, chain, a);
    if fuel > 0 {
      StuckNeverEnds(g, tokens, chain, b, fuel - 1);
      match a
      case Loop(_, _, _, _) => StuckLoop(g, tokens, a, b, fuel);
      case Run(_, _, _) => StuckRun(g, tokens, a, b, fuel);
    } else {
      StuckAtOnce(g, tokens, a, b);
    }
  }

  lemma StuckAtOnce(g: Graph, tokens: seq<string>, a: Activation, b: Activation)
    requires Closed(g) && Proper(g, tokens, a) && Makes(g, tokens, a, b)
    ensures !OutcomeOf(g, tokens, a, 0).Done?
  {
    hide MatchOutcome, RepeatOutcome;
    match a
    case Loop(c, i, repeated, added) => RepeatTurnAt(g, tokens, c, i, repeated, added, 0);
    case Run(m, i, added) => NoDepthNoRun(g, tokens, m, i, added);
  }

  lemma StuckLoop(g: Graph, tokens: seq<string>, a: Activation, b: Activation, fuel: nat)
    requires Closed(g) && Proper(g, tokens, a) && Makes(g, tokens, a, b) && a.Loop? && fuel > 0
    requires Proper(g, tokens, b) && !OutcomeOf(g, tokens, b, fuel - 1).Done?
    ensures !OutcomeOf(g, tokens, a, fuel).Done?
  {
    hide MatchOutcome, RepeatOutcome, EndsWith;
    var i := a.at;
    RepeatTurnAt(g, tokens, a.element, i, a.repeated, a.added, fuel);
    if b.Loop? && MatchOutcome(g, tokens, a.element, i, a.repeated, fuel - 1).Done? {
      LoopFollows(g, tokens, a.element, i, a.repeated, b.at, b.repeated, fuel - 1);
    }
  }

  lemma StuckRun(g: Graph, tokens: seq<string>, a: Activation, b: Activation, fuel: nat)
    requires Closed(g) && Proper(g, tokens, a) && Makes(g, tokens, a, b) && a.Run? && fuel > 0
    requires Proper(g, tokens, b) && !OutcomeOf(g, tokens, b, fuel - 1).Done?
    ensures !OutcomeOf(g, tokens, a, fuel).Done?
  {
    hide MatchOutcome, ListOutcome, ChoiceOutcome, RepeatOutcome, EndsWith, MembersReach, AlternativesFail;
    var m, i := a.m, a.at;
    MatchTurnAt(g, tokens, m, i, a.added, fuel);
    match g.nodes[m]
    case ListMatcher(ms) => StuckList(g, tokens, ms, i, b, fuel - 1);
    case ChoiceMatcher(cs) => StuckChoice(g, tokens, cs, i, b, fuel - 1);
    case RepeatMatcher(c) =>
      if b.Loop? && MatchOutcome(g, tokens, c, i, {}, fuel - 1).Done? {
        LoopFollows(g, tokens, c, i, {}, b.at, b.repeated, fuel - 1);
      }
    case _ =>
  }

  lemma StuckList(g: Graph, tokens: seq<string>, ms: seq<nat>, i: nat, b: Activation, fuel: nat)
    requires Closed(g) && InGraph(g, ms) && i <= |tokens|
    requires exists k: nat, j: nat, after ::
               k < |ms| && j < |tokens| && MembersReach(g, tokens, ms, k, i, i, {}, j, after) && b == Run(ms[k], j, after)
    requires Proper(g, tokens, b) && !OutcomeOf(g, tokens, b, fuel).Done?
    ensures !ListOutcome(g, tokens, ms, i, i, {}, fuel).Done?
  {
    hide MatchOutcome, ListOutcome;
    var k: nat, j: nat, after :|
      k < |ms| && j < |tokens| && MembersReach(g, tokens, ms, k, i, i, {}, j, after) && b == Run(ms[k], j, after);
    var f: nat :| Finishes(ListOutcome(g, tokens, ms[..k], i, i, {}, f), true, j, after);
    if ListOutcome(g, tokens, ms, i, i, {}, fuel).Done? {
      ListRuns(g, tokens, ms, k, i, i, {}, j, after, f, fuel);
    }
  }

  lemma StuckChoice(g: Graph, tokens: seq<string>, cs: seq<nat>, i: nat, b: Activation, fuel: nat)
    requires Closed(g) && InGraph(g, cs) && i < |tokens|
    requires exists k: nat :: k < |cs| && AlternativesFail(g, tokens, cs, k, i) && b == Run(cs[k], i, {})
    requires Proper(g, tokens, b) && !OutcomeOf(g, tokens, b, fuel).Done?
    ensures !ChoiceOutcome(g, tokens, cs, i, fuel).Done?
  {
    hide MatchOutcome, ChoiceOutcome;
    var k: nat :| k < |cs| && AlternativesFail(g, tokens, cs, k, i) && b == Run(cs[k], i, {});
    var f: nat :| AllFail(ChoiceOutcome(g, tokens, cs[..k], i, f));
    if ChoiceOutcome(g, tokens, cs, i, fuel).Done? {
      ChoiceRuns(g, tokens, cs, k, i, f, fuel);
    }
  }

  /** The element of a repeat, run at a token: it does not end, it fails, or the loop behind it goes on. */
  lemma ElementStays(g: Graph, tokens: seq<string>, c: nat, i: nat, repeated: set<nat>, added: set<nat>)
    returns (b: Activation, f: nat)
    requires Closed(g) && c < |g.nodes| && i < |tokens| && Proper(g, tokens, Run(c, i, repeated))
    requires forall fuel: nat ::
               var o := MatchOutcome(g, tokens, c, i, repeated, fuel);
               !(o.Done? && (o.ok ==> RepeatOutcome(g, tokens, c, o.index, o.added, added, fuel).Done?))
    ensures Proper(g, tokens, b) && !Ends(g, tokens, b)
    ensures || b == Run(c, i, repeated)
            || exists j: nat, after ::
                 j <= |tokens| && EndsWith(g, tokens, c, i, repeated, true, j, after) && b == Loop(c, j, after, added)
  {
    hide MatchOutcome, RepeatOutcome;
    f := 0;
    if !Ends(g, tokens, Run(c, i, repeated)) {
      b := Run(c, i, repeated);
    } else {
      f :| OutcomeOf(g, tokens, Run(c, i, repeated), f).Done?;
      var o := MatchOutcome(g, tokens, c, i, repeated, f);
      assert o.ok;
      b := Loop(c, o.index, o.added, added);
      assert EndsWith(g, tokens, c, i, repeated, true, o.index, o.added) by {
        assert Finishes(o, true, o.index, o.added);
      }
      forall fuel: nat ensures !OutcomeOf(g, tokens, b, fuel).Done? {
        var both := Max(f, fuel);
        MatchDeeper(g, tokens, c, i, repeated, f, both);
        assert !RepeatOutcome(g, tokens, c, o.index, o.added, added, both).Done?;
        if OutcomeOf(g, tokens, b, fuel).Done? {
          RepeatDeeper(g, tokens, c, o.index, o.added, added, fuel, both);
        }
      }
    }
  }

  /** An activation that does not end makes one that does not end. */
  lemma NeverEndsMakes(g: Graph, tokens: seq<string>, a: Activation) returns (b: Activation)
    requires Closed(g) && Proper(g, tokens, a) && !Ends(g, tokens, a)
    ensures Makes(g, tokens, a, b) && Proper(g, tokens, b) && !Ends(g, tokens, b)
  {
    hide MatchOutcome, ListOutcome, ChoiceOutcome, RepeatOutcome;
    match a
    case Loop(c, i, repeated, added) =>
      RepeatTurnAt(g, tokens, c, i, repeated, added, 0);
      assert !OutcomeOf(g, tokens, a, 0).Done?;
      forall fuel: nat
        ensures var o := MatchOutcome(g, tokens, c, i, repeated, fuel);
                !(o.Done? && (o.ok ==> RepeatOutcome(g, tokens, c, o.index, o.added, added, fuel).Done?))
      {
        RepeatTurnAt(g, tokens, c, i, repeated, added, fuel + 1);
        assert !OutcomeOf(g, tokens, a, fuel + 1).Done?;
      }
      var f;
      b, f := ElementStays(g, tokens, c, i, repeated, added);
    case Run(m, i, added) => b := RunStays(g, tokens, m, i, added);
  }

  lemma RunStays(g: Graph, tokens: seq<string>, m: nat, i: nat, added: set<nat>) returns (b: Activation)
    requires Closed(g) && Proper(g, tokens, Run(m, i, added)) && !Ends(g, tokens, Run(m, i, added))
    ensures Makes(g, tokens, Run(m, i, added), b) && Proper(g, tokens, b) && !Ends(g, tokens, b)
  {
    hide MatchOutcome, ListOutcome, ChoiceOutcome, RepeatOutcome;
    var a := Run(m, i, added);
    assert WellLinked(g, g.nodes[m]);
    forall fuel: nat ensures !MatchOutcome(g, tokens, m, i, added, fuel).Done? {
      assert !OutcomeOf(g, tokens, a, fuel).Done?;
    }
    MatchTurnAt(g, tokens, m, i, added, 1);
    match g.nodes[m]
    case LeafMatcher(_) => assert false;
    case ListMatcher(ms) =>
      forall fuel: nat ensures !ListOutcome(g, tokens, ms, i, i, {}, fuel).Done? {
        MatchTurnAt(g, tokens, m, i, added, fuel + 1);
      }
      var k, j, after := ListStays(g, tokens, ms, i, i, {});
      b := Run(ms[k], j, after);
    case OptionalMatcher(c) =>
      b := Run(c, i, {});
      forall fuel: nat ensures !OutcomeOf(g, tokens, b, fuel).Done? {
        MatchTurnAt(g, tokens, m, i, added, fuel + 1);
      }
    case ChoiceMatcher(cs) =>
      forall fuel: nat ensures !ChoiceOutcome(g, tokens, cs, i, fuel).Done? {
        MatchTurnAt(g, tokens, m, i, added, fuel + 1);
      }
      var k := ChoiceStays(g, tokens, cs, i);
      b := Run(cs[k], i, {});
    case RepeatMatcher(c) =>
      forall fuel: nat
        ensures var o := MatchOutcome(g, tokens, c, i, {}, fuel);
                !(o.Done? && (o.ok ==> RepeatOutcome(g, tokens, c, o.index, o.added, added, fuel).Done?))
      {
        MatchTurnAt(g, tokens, m, i, added, fuel + 1);
      }
      var f;
      b, f := ElementStays(g, tokens, c, i, {}, added);
  }

  /** A match ends exactly if it is not part of a chain of activations each of which makes another one. */
  lemma EndsExactly(g: Graph, tokens: seq<string>, a: Activation)
    requires Closed(g) && Proper(g, tokens, a)
    ensures Ends(g, tokens, a) <==> !exists chain :: Stuck(g, tokens, chain) && a in chain
  {
    hide Makes, OutcomeOf;
    if chain :| Stuck(g, tokens, chain) && a in chain {
      forall fuel: nat ensures !OutcomeOf(g, tokens, a, fuel).Done? {
        StuckNeverEnds(g, tokens, chain, a, fuel);
      }
    }
    if !Ends(g, tokens, a) {
      var chain := iset x | Proper(g, tokens, x) && !Ends(g, tokens, x);
      forall x | x in chain ensures exists y :: y in chain && Makes(g, tokens, x, y) {
        var y := NeverEndsMakes(g, tokens, x);
      }
      assert Stuck(g, tokens, chain);
    }
  }
}
