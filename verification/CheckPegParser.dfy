/** check_peg_parser: tokenize a text, and match every statement of it against the root rule. */
module CheckPegParser {
  import opened Sequences
  import opened PegMatcher
  import opened PegLanguage
  import opened PegTermination
  import opened PegShortcut
  import opened PegSpans
  import Tokenizer

  // ----- where a failed match leaves the token index -----

  /** A failed match either has not moved the token index, or has moved it behind the last token: the list matcher
      propagates its own index when it runs out of tokens in front of a mandatory member. */
  lemma FailureIndex(g: Graph, tokens: seq<string>, m: nat, i: nat, added: set<nat>, fuel: nat)
    requires Closed(g) && m < |g.nodes| && i <= |tokens| && (i < |tokens| || g.nodes[m].ListMatcher?)
    requires MatchOutcome(g, tokens, m, i, added, fuel).Done? && !MatchOutcome(g, tokens, m, i, added, fuel).ok
    ensures MatchOutcome(g, tokens, m, i, added, fuel).index in {i, |tokens|}
    ensures MatchOutcome(g, tokens, m, i, added, fuel).index != i ==> g.nodes[m].ListMatcher?
  {
    match g.nodes[m]
    case ListMatcher(ms) => ListFailureIndex(g, tokens, ms, i, i, {}, fuel - 1);
    case ChoiceMatcher(cs) => ChoiceFailureIndex(g, tokens, cs, i, fuel - 1);
    case _ =>
  }

  lemma {:induction false} ListFailureIndex(g: Graph, tokens: seq<string>, ms: seq<nat>, start: nat, i: nat,
                                            added: set<nat>, fuel: nat)
    requires Closed(g) && InGraph(g, ms) && start <= i <= |tokens|
    requires ListOutcome(g, tokens, ms, start, i, added, fuel).Done?
        && !ListOutcome(g, tokens, ms, start, i, added, fuel).ok
    ensures ListOutcome(g, tokens, ms, start, i, added, fuel).index in {start, |tokens|}
    decreases |ms|
  {
    if i < |tokens| {
      var o := MatchOutcome(g, tokens, ms[0], i, added, fuel);
      if o.ok {
        ListFailureIndex(g, tokens, ms[1..], start, o.index, o.added, fuel);
      }
    }
  }

  lemma {:induction false} ChoiceFailureIndex(g: Graph, tokens: seq<string>, cs: seq<nat>, i: nat, fuel: nat)
    requires Closed(g) && InGraph(g, cs) && i < |tokens|
    requires ChoiceOutcome(g, tokens, cs, i, fuel).Done? && !ChoiceOutcome(g, tokens, cs, i, fuel).ok
    ensures ChoiceOutcome(g, tokens, cs, i, fuel).index == i
    decreases |cs|
  {
    if cs != [] {
      ChoiceFailureIndex(g, tokens, cs[1..], i, fuel);
    }
  }

  // ----- the accept test -----

  /** The root matcher succeeds on all tokens of a statement. */
  ghost predicate Accepts(g: Graph, root: nat, tokens: seq<string>)
    requires Closed(g) && root < |g.nodes| && tokens != []
  {
    exists fuel :: Consumes(g, root, tokens, fuel)
  }

  ghost predicate Consumes(g: Graph, root: nat, tokens: seq<string>, fuel: nat)
    requires Closed(g) && root < |g.nodes| && tokens != []
  {
    var o := MatchOutcome(g, tokens, root, 0, {}, fuel);
    o.Done? && o.ok && o.index == |tokens|
  }

  /** Success; nothing checked because the text ends in a comment; or the statement that is not accepted, with the
      token the error message names. The message is built from tokens[index], which does not exist if the match
      ran out of tokens. */
  datatype CheckResult = Accepted | Unchecked | Rejected(statement: nat, index: nat) | NoSuchToken(statement: nat)

  /** The root matcher does not accept a statement and leaves the token index at `index`. */
  ghost predicate FailsAt(g: Graph, root: nat, tokens: seq<string>, index: nat)
    requires Closed(g) && root < |g.nodes| && tokens != []
  {
    !Accepts(g, root, tokens) && exists fuel :: StopsAt(g, root, tokens, fuel, index)
  }

  ghost predicate StopsAt(g: Graph, root: nat, tokens: seq<string>, fuel: nat, index: nat)
    requires Closed(g) && root < |g.nodes| && tokens != []
  {
    var o := MatchOutcome(g, tokens, root, 0, {}, fuel);
    o.Done? && o.index == index
  }

  /** The first members of a list match all tokens, and those left may not be left out. */
  ghost predicate StrandedAt(g: Graph, tokens: seq<string>, ms: seq<nat>, k: nat, start: nat, i: nat, added: set<nat>,
                             fuel: nat)
    requires Closed(g) && InGraph(g, ms) && start <= i <= |tokens| && k < |ms|
  {
    var o := ListOutcome(g, tokens, ms[..k], start, i, added, fuel);
    o.Done? && o.ok && o.index == |tokens| && !LeftOut(g, ms[k..], o.added)
  }

  /** The root is a list that runs out of tokens in front of members that may not be left out. */
  ghost predicate RunsOut(g: Graph, root: nat, tokens: seq<string>)
    requires Closed(g) && root < |g.nodes|
  {
    assert WellLinked(g, g.nodes[root]);
    && g.nodes[root].ListMatcher?
    && exists k: nat, fuel: nat ::
         k < |g.nodes[root].matchers| && StrandedAt(g, tokens, g.nodes[root].matchers, k, 0, 0, {}, fuel)
  }

  lemma ListOutcomeTurn(g: Graph, tokens: seq<string>, ms: seq<nat>, start: nat, i: nat, added: set<nat>, fuel: nat)
    requires Closed(g) && InGraph(g, ms) && start <= i < |tokens| && ms != []
    ensures var o := MatchOutcome(g, tokens, ms[0], i, added, fuel);
            ListOutcome(g, tokens, ms, start, i, added, fuel)
              == if o.Diverges? then o
                 else if !o.ok then o.(index := start)
                 else Logged(o.log, ListOutcome(g, tokens, ms[1..], start, o.index, o.added, fuel))
  {
  }

  lemma ListOutcomeAtEnd(g: Graph, tokens: seq<string>, ms: seq<nat>, start: nat, added: set<nat>, fuel: nat)
    requires Closed(g) && InGraph(g, ms) && start <= |tokens|
    ensures var s := ListSuggestion(g, ms, added);
            ListOutcome(g, tokens, ms, start, |tokens|, added, fuel) == Done(s.kind == OPTIONAL, |tokens|, s.added, s.log)
  {
  }

  lemma NoMembersLeft(g: Graph, tokens: seq<string>, start: nat, i: nat, added: set<nat>, fuel: nat)
    requires Closed(g) && start <= i <= |tokens|
    ensures ListOutcome(g, tokens, [], start, i, added, fuel) == Done(true, i, added, [])
  {
  }

  lemma StrandedTurn(g: Graph, tokens: seq<string>, ms: seq<nat>, k: nat, start: nat, i: nat, added: set<nat>, fuel: nat)
    requires Closed(g) && InGraph(g, ms) && start <= i < |tokens| && k < |ms|
    ensures StrandedAt(g, tokens, ms, k, start, i, added, fuel) <==>
            var o := MatchOutcome(g, tokens, ms[0], i, added, fuel);
            o.Done? && o.ok && k > 0 && StrandedAt(g, tokens, ms[1..], k - 1, start, o.index, o.added, fuel)
  {
    hide MatchOutcome, ListOutcome, LeftOut;
    if k == 0 {
      assert ms[..0] == [];
      NoMembersLeft(g, tokens, start, i, added, fuel);
    } else {
      assert ms[..k][1..] == ms[1..][..k - 1] && ms[k..] == ms[1..][k - 1..];
      ListOutcomeTurn(g, tokens, ms[..k], start, i, added, fuel);
    }
  }

  lemma StrandedAtEnd(g: Graph, tokens: seq<string>, ms: seq<nat>, k: nat, start: nat, added: set<nat>, fuel: nat)
    requires Closed(g) && InGraph(g, ms) && start <= |tokens| && k < |ms|
    ensures StrandedAt(g, tokens, ms, k, start, |tokens|, added, fuel) ==>
              ListSuggestion(g, ms, added).kind == MANDATORY
    ensures k == 0 && ListSuggestion(g, ms, added).kind == MANDATORY ==>
              StrandedAt(g, tokens, ms, k, start, |tokens|, added, fuel)
  {
    hide ListOutcome, LeftOut, ListSuggestion;
    assert ms == ms[..k] + ms[k..];
    ListOutcomeAtEnd(g, tokens, ms[..k], start, added, fuel);
    ListSuggestionConcat(g, ms[..k], ms[k..], added);
    ShortcutExactly(g, ms[k..], ListSuggestion(g, ms[..k], added).added);
    if k == 0 {
      NothingLeft(g, added);
      assert ms[..0] == [];
    }
  }

  /** A list is left behind the last token exactly if some of its members match all tokens and the others may not be
      left out. */
  lemma {:induction false} StrandedExactly(g: Graph, tokens: seq<string>, ms: seq<nat>, start: nat, i: nat,
                                           added: set<nat>, fuel: nat)
    requires Closed(g) && InGraph(g, ms) && start <= i <= |tokens| && start < |tokens|
    ensures (exists k: nat :: k < |ms| && StrandedAt(g, tokens, ms, k, start, i, added, fuel))
       <==> var o := ListOutcome(g, tokens, ms, start, i, added, fuel); o.Done? && !o.ok && o.index == |tokens|
    decreases |ms|
  {
    hide MatchOutcome, ListOutcome, ListSuggestion, StrandedAt;
    if i == |tokens| {
      ListOutcomeAtEnd(g, tokens, ms, start, added, fuel);
      forall k: nat | k < |ms| && StrandedAt(g, tokens, ms, k, start, i, added, fuel)
        ensures ListSuggestion(g, ms, added).kind == MANDATORY
      {
        StrandedAtEnd(g, tokens, ms, k, start, added, fuel);
      }
      if ms == [] {
        NothingLeft(g, added);
      } else {
        StrandedAtEnd(g, tokens, ms, 0, start, added, fuel);
      }
    } else if ms == [] {
      NoMembersLeft(g, tokens, start, i, added, fuel);
    } else {
      var o := MatchOutcome(g, tokens, ms[0], i, added, fuel);
      ListOutcomeTurn(g, tokens, ms, start, i, added, fuel);
      if o.Done? && o.ok {
        StrandedExactly(g, tokens, ms[1..], start, o.index, o.added, fuel);
        if k: nat :| k < |ms[1..]| && StrandedAt(g, tokens, ms[1..], k, start, o.index, o.added, fuel) {
          StrandedTurn(g, tokens, ms, k + 1, start, i, added, fuel);
        }
      }
      forall k: nat | k < |ms| && StrandedAt(g, tokens, ms, k, start, i, added, fuel)
        ensures o.Done? && o.ok && k > 0 && StrandedAt(g, tokens, ms[1..], k - 1, start, o.index, o.added, fuel)
      {
        StrandedTurn(g, tokens, ms, k, start, i, added, fuel);
      }
    }
  }

  lemma RootOutcome(g: Graph, root: nat, tokens: seq<string>, fuel: nat)
    requires Closed(g) && root < |g.nodes| && g.nodes[root].ListMatcher?
    ensures WellLinked(g, g.nodes[root])
    ensures var o := ListOutcome(g, tokens, g.nodes[root].matchers, 0, 0, {}, fuel);
            MatchOutcome(g, tokens, root, 0, {}, fuel + 1) == if o.Done? then o.(added := {}) else o
  {
    assert WellLinked(g, g.nodes[root]);
  }

  /** All ends of a match are the same. */
  lemma SameEnd(g: Graph, tokens: seq<string>, m: nat, fuel: nat, fuel': nat)
    requires Closed(g) && m < |g.nodes| && tokens != []
    requires MatchOutcome(g, tokens, m, 0, {}, fuel).Done? && MatchOutcome(g, tokens, m, 0, {}, fuel').Done?
    ensures MatchOutcome(g, tokens, m, 0, {}, fuel) == MatchOutcome(g, tokens, m, 0, {}, fuel')
  {
    MatchDeeper(g, tokens, m, 0, {}, fuel, Max(fuel, fuel'));
    MatchDeeper(g, tokens, m, 0, {}, fuel', Max(fuel, fuel'));
  }

  /** A statement that is not accepted leaves no token to name exactly if the root runs out of tokens. */
  lemma RunsOutExactly(g: Graph, root: nat, tokens: seq<string>)
    requires Closed(g) && root < |g.nodes| && tokens != []
    ensures FailsAt(g, root, tokens, |tokens|) <==> RunsOut(g, root, tokens)
  {
    hide MatchOutcome, ListOutcome, StrandedAt;
    if FailsAt(g, root, tokens, |tokens|) {
      var fuel: nat :| StopsAt(g, root, tokens, fuel, |tokens|);
      assert !Consumes(g, root, tokens, fuel);
      DoneHasFuel(g, root, tokens, fuel);
      FailureIndex(g, tokens, root, 0, {}, fuel);
      RootOutcome(g, root, tokens, fuel - 1);
      StrandedExactly(g, tokens, g.nodes[root].matchers, 0, 0, {}, fuel - 1);
    }
    if RunsOut(g, root, tokens) {
      assert WellLinked(g, g.nodes[root]);
      var k: nat, fuel: nat :|
        k < |g.nodes[root].matchers| && StrandedAt(g, tokens, g.nodes[root].matchers, k, 0, 0, {}, fuel);
      StrandedExactly(g, tokens, g.nodes[root].matchers, 0, 0, {}, fuel);
      RootOutcome(g, root, tokens, fuel);
      assert StopsAt(g, root, tokens, fuel + 1, |tokens|);
      forall f: nat | Consumes(g, root, tokens, f) ensures false {
        SameEnd(g, tokens, root, f, fuel + 1);
      }
    }
  }

  lemma DoneHasFuel(g: Graph, m: nat, tokens: seq<string>, fuel: nat)
    requires Closed(g) && m < |g.nodes| && tokens != [] && MatchOutcome(g, tokens, m, 0, {}, fuel).Done?
    ensures fuel > 0
  {
  }

  /** A statement whose tokens are matched by the first members of the root is derivable if the others derive no token.
      It is refused all the same exactly if there is a choice or a repeat among them, or a matcher that is come to
      twice. */
  lemma DerivableRefused(g: Graph, root: nat, tokens: seq<string>, k: nat, fuel: nat)
    requires Closed(g) && root < |g.nodes| && tokens != [] && g.nodes[root].ListMatcher?
    requires WellLinked(g, g.nodes[root]) && k < |g.nodes[root].matchers|
    requires var o := ListOutcome(g, tokens, g.nodes[root].matchers[..k], 0, 0, {}, fuel);
             o.Done? && o.ok && o.index == |tokens|
    requires AllEmpty(g, g.nodes[root].matchers[k..])
    ensures InLanguage(g, root, tokens)
    ensures var rest := g.nodes[root].matchers[k..];
            var added := ListOutcome(g, tokens, g.nodes[root].matchers[..k], 0, 0, {}, fuel).added;
            !Accepts(g, root, tokens) <==> HoldsChoiceOrRepeat(g, rest) || Revisits(g, rest, added)
  {
    var ms := g.nodes[root].matchers;
    var o := ListOutcome(g, tokens, ms[..k], 0, 0, {}, fuel);
    DerivableByMembers(g, root, tokens, k, fuel);
    hide MatchOutcome, ListOutcome, ListSuggestion, AllEmpty, HoldsChoiceOrRepeat, Revisits, LeftOut, InLanguage;
    ShortcutMisses(g, ms[k..], o.added);
    ShortcutExactly(g, ms[k..], o.added);
    RootOutcome(g, root, tokens, fuel);
    if LeftOut(g, ms[k..], o.added) {
      MembersThenRest(g, tokens, ms, k, 0, 0, {}, fuel);
      assert Consumes(g, root, tokens, fuel + 1);
    } else {
      assert StrandedAt(g, tokens, ms, k, 0, 0, {}, fuel);
      RunsOutExactly(g, root, tokens);
    }
  }

  lemma DerivableByMembers(g: Graph, root: nat, tokens: seq<string>, k: nat, fuel: nat)
    requires Closed(g) && root < |g.nodes| && g.nodes[root].ListMatcher?
    requires WellLinked(g, g.nodes[root]) && k < |g.nodes[root].matchers|
    requires var o := ListOutcome(g, tokens, g.nodes[root].matchers[..k], 0, 0, {}, fuel);
             o.Done? && o.ok && o.index == |tokens|
    requires AllEmpty(g, g.nodes[root].matchers[k..])
    ensures InLanguage(g, root, tokens)
  {
    hide ListOutcome;
    var ms := g.nodes[root].matchers;
    var ts := ListIsSound(g, tokens, ms[..k], 0, 0, {}, fuel);
    var ts' :| DerivesAll(g, ms[k..], ts') && YieldAll(ts') == [];
    DerivesConcat(g, ms[..k], ts, ms[k..], ts');
    YieldConcat(ts, ts');
    assert ms[..k] + ms[k..] == ms && tokens[0..|tokens|] == tokens;
    assert Derives(g, root, Sequence(ts + ts')) && Yield(Sequence(ts + ts')) == tokens;
  }

  /** Members that match all tokens, followed by members that may be left out, match together. */
  lemma {:induction false} MembersThenRest(g: Graph, tokens: seq<string>, ms: seq<nat>, k: nat, start: nat, i: nat,
                                           added: set<nat>, fuel: nat)
    requires Closed(g) && InGraph(g, ms) && start <= i <= |tokens| && k <= |ms|
    requires var o := ListOutcome(g, tokens, ms[..k], start, i, added, fuel);
             o.Done? && o.ok && o.index == |tokens| && ListSuggestion(g, ms[k..], o.added).kind == OPTIONAL
    ensures var o := ListOutcome(g, tokens, ms, start, i, added, fuel); o.Done? && o.ok && o.index == |tokens|
    decreases k
  {
    hide MatchOutcome, ListOutcome, ListSuggestion;
    if i == |tokens| {
      ListOutcomeAtEnd(g, tokens, ms[..k], start, added, fuel);
      ListOutcomeAtEnd(g, tokens, ms, start, added, fuel);
      ListSuggestionConcat(g, ms[..k], ms[k..], added);
      assert ms == ms[..k] + ms[k..];
    } else if k == 0 {
      assert ms[..0] == [];
      NoMembersLeft(g, tokens, start, i, added, fuel);
    } else {
      var o := MatchOutcome(g, tokens, ms[0], i, added, fuel);
      assert ms[..k][1..] == ms[1..][..k - 1] && ms[k..] == ms[1..][k - 1..];
      ListOutcomeTurn(g, tokens, ms[..k], start, i, added, fuel);
      ListOutcomeTurn(g, tokens, ms, start, i, added, fuel);
      MembersThenRest(g, tokens, ms[1..], k - 1, start, o.index, o.added, fuel);
    }
  }

  /** The root takes all tokens of a statement. */
  ghost predicate TakesAll(g: Graph, root: nat, tokens: seq<string>)
    requires Closed(g) && root < |g.nodes| && tokens != []
  {
    Ends(g, tokens, root, 0, Some(|tokens|), |tokens|)
  }

  /** The root ends elsewhere or does not match, and leaves the token index at `index`. */
  ghost predicate Misses(g: Graph, root: nat, tokens: seq<string>, index: nat)
    requires Closed(g) && root < |g.nodes| && tokens != []
  {
    exists end :: end != Some(|tokens|) && Ends(g, tokens, root, 0, end, index)
  }

  /** A statement is accepted exactly if there is evidence that the root takes all of its tokens, and it is refused at
      a token exactly if there is evidence that the root ends elsewhere, or nowhere, and leaves the token index there. */
  lemma AcceptedExactly(g: Graph, root: nat, tokens: seq<string>, index: nat)
    requires Closed(g) && root < |g.nodes| && tokens != []
    ensures Accepts(g, root, tokens) <==> TakesAll(g, root, tokens)
    ensures FailsAt(g, root, tokens, index) <==> Misses(g, root, tokens, index)
  {
    hide MatchOutcome, Ends;
    var n := Some(|tokens|);
    MatchIsExactly(g, tokens, root, 0, {}, n, |tokens|);
    forall fuel: nat | Consumes(g, root, tokens, fuel) ensures TakesAll(g, root, tokens) {
      assert EndOf(MatchOutcome(g, tokens, root, 0, {}, fuel)) == n;
    }
    if TakesAll(g, root, tokens) {
      var fuel: nat :| var o := MatchOutcome(g, tokens, root, 0, {}, fuel); o.Done? && EndOf(o) == n && o.index == |tokens|;
      assert Consumes(g, root, tokens, fuel);
    }
    if FailsAt(g, root, tokens, index) {
      var fuel: nat :| StopsAt(g, root, tokens, fuel, index);
      assert !Consumes(g, root, tokens, fuel);
      MatchIsExactly(g, tokens, root, 0, {}, EndOf(MatchOutcome(g, tokens, root, 0, {}, fuel)), index);
    }
    if end :| end != n && Ends(g, tokens, root, 0, end, index) {
      MatchIsExactly(g, tokens, root, 0, {}, end, index);
      var fuel: nat :| var o := MatchOutcome(g, tokens, root, 0, {}, fuel); o.Done? && EndOf(o) == end && o.index == index;
      assert StopsAt(g, root, tokens, fuel, index);
      if Accepts(g, root, tokens) {
        OneEnd(g, tokens, root, 0, end, index, n, |tokens|);
      }
    }
  }

  /** What the result says about a statement that is not accepted, the first of its kind: the message names a token
      unless the match ran out of tokens, and then there is none to name. */
  ghost predicate Explains(g: Graph, root: nat, statements: seq<seq<string>>, r: CheckResult)
    requires Closed(g) && root < |g.nodes|
  {
    match r
    case Rejected(k, index) =>
      && k < |statements| && statements[k] != [] && AcceptedBefore(g, root, statements, k)
      && index < |statements[k]| && Misses(g, root, statements[k], index)
    case NoSuchToken(k) =>
      && k < |statements| && statements[k] != [] && AcceptedBefore(g, root, statements, k)
      && Misses(g, root, statements[k], |statements[k]|) && RunsOut(g, root, statements[k])
    case _ => true
  }

  method CheckStatement(g: Graph, root: nat, tokens: seq<string>, ghost cert: Certificate)
    returns (accepted: bool, index: nat)
    requires Certified(g, cert) && root in cert.live && tokens != []
    ensures accepted == Accepts(g, root, tokens) == TakesAll(g, root, tokens)
    ensures accepted ==> InLanguage(g, root, tokens)
    ensures !accepted ==> index <= |tokens| && FailsAt(g, root, tokens, index) && Misses(g, root, tokens, index)
  {
    hide TakesAll, Misses;
    ghost var fuel := MatchTerminates(g, cert, tokens, root, 0, {});
    var suggestions := new SuggestionLog();
    var state := new MatchState(tokens, suggestions);
    var result := Match(g, root, state, fuel);
    accepted, index := result == SUCCESS && state.tokenIndex >= |tokens|, state.tokenIndex;
    if accepted {
      assert Consumes(g, root, tokens, fuel);
      AcceptedIsDerivable(g, root, tokens, fuel);
    } else {
      forall f | MatchOutcome(g, tokens, root, 0, {}, f).Done?
        ensures !Consumes(g, root, tokens, f)
      {
        MatchDeeper(g, tokens, root, 0, {}, fuel, Max(fuel, f));
        MatchDeeper(g, tokens, root, 0, {}, f, Max(fuel, f));
      }
      assert StopsAt(g, root, tokens, fuel, index);
    }
    AcceptedExactly(g, root, tokens, index);
  }

  /** A statement that is accepted is in the language of the root rule. */
  lemma AcceptedIsDerivable(g: Graph, root: nat, tokens: seq<string>, fuel: nat)
    requires Closed(g) && root < |g.nodes| && tokens != []
    requires Consumes(g, root, tokens, fuel)
    ensures InLanguage(g, root, tokens)
  {
    var t := MatchIsSound(g, tokens, root, 0, {}, fuel);
    assert tokens[0..|tokens|] == tokens;
  }

  method CheckPEGParser(sql: string, g: Graph, root: nat, ghost cert: Certificate) returns (r: CheckResult)
    requires Certified(g, cert) && root in cert.live
    ensures r.Unchecked? <==> !Tokenizer.Outcome(sql).0
    ensures var parsed := Tokenizer.Outcome(sql).1;
            var statements := parsed.statements + [parsed.tokens];
            && Explains(g, root, statements, r)
            && (r.Accepted? <==> (!r.Unchecked? &&
                  forall k :: 0 <= k < |statements| && statements[k] != [] ==> TakesAll(g, root, statements[k])))
            && (r.Accepted? ==> forall k :: 0 <= k < |statements| && statements[k] != [] ==>
                                  InLanguage(g, root, statements[k]))
  {
    assert Closed(g) && root < |g.nodes|;
    hide Tokenizer.Outcome, Certified, Closed, Accepts, TakesAll, Misses, InLanguage, FailsAt, RunsOut, Explains,
      AcceptedBefore;
    var tokenizer := new Tokenizer.ParserTokenizer(sql);
    var allowComplete := tokenizer.TokenizeInput();
    if !allowComplete {
      NothingExplained(g, root, tokenizer.statements + [tokenizer.tokens]);
      return Unchecked;
    }
    var statements := tokenizer.statements + [tokenizer.tokens];
    NoneBefore(g, root, statements);
    for n := 0 to |statements|
      invariant AcceptedBefore(g, root, statements, n)
    {
      OneMoreBefore(g, root, statements, n);
      if statements[n] == [] {
        continue;
      }
      var accepted, index := CheckStatement(g, root, statements[n], cert);
      if !accepted {
        RefusedAt(g, root, statements, n, index);
        return if index < |statements[n]| then Rejected(n, index) else NoSuchToken(n);
      }
    }
    AllBefore(g, root, statements);
    r := Accepted;
  }

  /** The statements before the `n`-th are accepted, and in the language. */
  ghost predicate AcceptedBefore(g: Graph, root: nat, statements: seq<seq<string>>, n: nat)
    requires Closed(g) && root < |g.nodes| && n <= |statements|
  {
    forall k :: 0 <= k < n && statements[k] != [] ==> TakesAll(g, root, statements[k]) && InLanguage(g, root, statements[k])
  }

  lemma NothingExplained(g: Graph, root: nat, statements: seq<seq<string>>)
    requires Closed(g) && root < |g.nodes|
    ensures Explains(g, root, statements, Unchecked)
  {
  }

  lemma NoneBefore(g: Graph, root: nat, statements: seq<seq<string>>)
    requires Closed(g) && root < |g.nodes|
    ensures AcceptedBefore(g, root, statements, 0)
  {
  }

  lemma OneMoreBefore(g: Graph, root: nat, statements: seq<seq<string>>, n: nat)
    requires Closed(g) && root < |g.nodes| && n < |statements| && AcceptedBefore(g, root, statements, n)
    ensures statements[n] == [] || (TakesAll(g, root, statements[n]) && InLanguage(g, root, statements[n])) ==>
              AcceptedBefore(g, root, statements, n + 1)
  {
    hide TakesAll, InLanguage;
  }

  lemma AllBefore(g: Graph, root: nat, statements: seq<seq<string>>)
    requires Closed(g) && root < |g.nodes| && AcceptedBefore(g, root, statements, |statements|)
    ensures Explains(g, root, statements, Accepted)
    ensures forall k :: 0 <= k < |statements| && statements[k] != [] ==>
              TakesAll(g, root, statements[k]) && InLanguage(g, root, statements[k])
  {
    hide TakesAll, InLanguage;
  }

  lemma RefusedAt(g: Graph, root: nat, statements: seq<seq<string>>, n: nat, index: nat)
    requires Closed(g) && root < |g.nodes| && n < |statements| && statements[n] != []
    requires AcceptedBefore(g, root, statements, n)
    requires index <= |statements[n]| && Misses(g, root, statements[n], index)
    ensures Explains(g, root, statements, if index < |statements[n]| then Rejected(n, index) else NoSuchToken(n))
    ensures exists k :: 0 <= k < |statements| && statements[k] != [] && !TakesAll(g, root, statements[k])
  {
    RunsOutExactly(g, root, statements[n]);
    AcceptedExactly(g, root, statements[n], index);
    assert !TakesAll(g, root, statements[n]) by {
      assert FailsAt(g, root, statements[n], index);
    }
    hide TakesAll, Accepts, Misses, RunsOut, AcceptedBefore;
  }

  // ----- two places where the matcher says less than one might expect -----

  function AnyToken(leaf: Leaf, token: string): bool {
    leaf.Keyword? && leaf.text == token
  }

  /** A statement that stops too early has no token for the error message to name. */
  lemma TruncatedStatement()
    ensures var g := Graph([ListMatcher([1, 2]), LeafMatcher(Keyword("A")), LeafMatcher(Keyword("B"))], AnyToken);
            Closed(g) && MatchOutcome(g, ["A"], 0, 0, {}, 3) == Done(false, 1, {}, [Keyword("B")])
  {
    var g := Graph([ListMatcher([1, 2]), LeafMatcher(Keyword("A")), LeafMatcher(Keyword("B"))], AnyToken);
    assert Closed(g);
    assert MatchOutcome(g, ["A"], 1, 0, {}, 2) == Done(true, 1, {}, []);
    assert Suggestion(g, 2, {}).kind == MANDATORY;
    assert [1, 2][1..] == [2];
    assert ListOutcome(g, ["A"], [2], 0, 1, {}, 2) == Done(false, 1, {2}, [Keyword("B")]);
    assert ListOutcome(g, ["A"], [1, 2], 0, 0, {}, 2) == Done(false, 1, {2}, [Keyword("B")]);
  }

  const SHARED_GRAPH: Graph :=
    Graph([ListMatcher([1, 2, 2]), LeafMatcher(Keyword("A")), OptionalMatcher(3), LeafMatcher(Keyword("B"))], AnyToken)

  /** The end-of-input shortcut visits a matcher only once: an optional matcher that a list refers to twice counts as
      mandatory the second time, so a statement of the language is rejected. */
  lemma SharedOptional()
    ensures Closed(SHARED_GRAPH) && InLanguage(SHARED_GRAPH, 0, ["A"])
    ensures MatchOutcome(SHARED_GRAPH, ["A"], 0, 0, {}, 3) == Done(false, 1, {}, [Keyword("B")])
  {
    var g := SHARED_GRAPH;
    assert Closed(g);
    assert InLanguage(g, 0, ["A"]) by {
      assert [2, 2][1..] == [2] && [Absent, Absent][1..] == [Absent];
      assert DerivesAll(g, [2], [Absent]) && DerivesAll(g, [2, 2], [Absent, Absent]);
      assert [1, 2, 2][1..] == [2, 2] && [Token("A"), Absent, Absent][1..] == [Absent, Absent];
      assert YieldAll([Absent, Absent]) == [];
      var t := Sequence([Token("A"), Absent, Absent]);
      assert Derives(g, 0, t) && Yield(t) == ["A"];
    }
    assert ListSuggestion(g, [2, 2], {}) == Suggested(MANDATORY, {2, 3}, [Keyword("B")]) by {
      assert {} + {2} == {2} && {2} + {3} == {2, 3};
      assert Suggestion(g, 3, {2}) == Suggested(MANDATORY, {2, 3}, [Keyword("B")]);
      assert Suggestion(g, 2, {}) == Suggested(OPTIONAL, {2, 3}, [Keyword("B")]);
      assert ListSuggestion(g, [2], {2, 3}) == Suggested(MANDATORY, {2, 3}, []);
      assert [2, 2][1..] == [2];
    }
    assert MatchOutcome(g, ["A"], 1, 0, {}, 2) == Done(true, 1, {}, []);
    assert ListOutcome(g, ["A"], [1, 2, 2], 0, 0, {}, 2) == Done(false, 1, {2, 3}, [Keyword("B")]) by {
      assert [1, 2, 2][1..] == [2, 2];
      assert ListOutcome(g, ["A"], [2, 2], 0, 1, {}, 2) == Done(false, 1, {2, 3}, [Keyword("B")]);
    }
  }
}
