/** When matching terminates. */
module PegTermination {
  import opened Sequences
  import opened PegMatcher
  import opened PegLanguage

  // ----- a result does not depend on the depth that was allowed -----

  lemma {:induction false} MatchDeeper(g: Graph, tokens: seq<string>, m: nat, i: nat, added: set<nat>, fuel: nat,
                                       fuel': nat)
    requires Closed(g) && m < |g.nodes| && i <= |tokens| && (i < |tokens| || g.nodes[m].ListMatcher?)
    requires fuel <= fuel' && MatchOutcome(g, tokens, m, i, added, fuel).Done?
    ensures MatchOutcome(g, tokens, m, i, added, fuel') == MatchOutcome(g, tokens, m, i, added, fuel)
    decreases fuel, 0, 0
  {
    match g.nodes[m]
    case LeafMatcher(_) =>
    case ListMatcher(ms) => ListDeeper(g, tokens, ms, i, i, {}, fuel - 1, fuel' - 1);
    case OptionalMatcher(c) => MatchDeeper(g, tokens, c, i, {}, fuel - 1, fuel' - 1);
    case ChoiceMatcher(cs) => ChoiceDeeper(g, tokens, cs, i, fuel - 1, fuel' - 1);
    case RepeatMatcher(c) =>
      var first := MatchOutcome(g, tokens, c, i, {}, fuel - 1);
      MatchDeeper(g, tokens, c, i, {}, fuel - 1, fuel' - 1);
      if first.ok {
        RepeatDeeper(g, tokens, c, first.index, first.added, added, fuel - 1, fuel' - 1);
      }
  }

  lemma {:induction false} ListDeeper(g: Graph, tokens: seq<string>, ms: seq<nat>, start: nat, i: nat,
                                      added: set<nat>, fuel: nat, fuel': nat)
    requires Closed(g) && InGraph(g, ms) && start <= i <= |tokens|
    requires fuel <= fuel' && ListOutcome(g, tokens, ms, start, i, added, fuel).Done?
    ensures ListOutcome(g, tokens, ms, start, i, added, fuel') == ListOutcome(g, tokens, ms, start, i, added, fuel)
    decreases fuel, 1, |ms|
  {
    if ms != [] && i < |tokens| {
      var o := MatchOutcome(g, tokens, ms[0], i, added, fuel);
      MatchDeeper(g, tokens, ms[0], i, added, fuel, fuel');
      if o.ok {
        ListDeeper(g, tokens, ms[1..], start, o.index, o.added, fuel, fuel');
      }
    }
  }

  lemma {:induction false} ChoiceDeeper(g: Graph, tokens: seq<string>, cs: seq<nat>, i: nat, fuel: nat, fuel': nat)
    requires Closed(g) && InGraph(g, cs) && i < |tokens|
    requires fuel <= fuel' && ChoiceOutcome(g, tokens, cs, i, fuel).Done?
    ensures ChoiceOutcome(g, tokens, cs, i, fuel') == ChoiceOutcome(g, tokens, cs, i, fuel)
    decreases fuel, 1, |cs|
  {
    if cs != [] {
      MatchDeeper(g, tokens, cs[0], i, {}, fuel, fuel');
      if !MatchOutcome(g, tokens, cs[0], i, {}, fuel).ok {
        ChoiceDeeper(g, tokens, cs[1..], i, fuel, fuel');
      }
    }
  }

  lemma {:induction false} RepeatDeeper(g: Graph, tokens: seq<string>, c: nat, i: nat, repeated: set<nat>,
                                        added: set<nat>, fuel: nat, fuel': nat)
    requires Closed(g) && c < |g.nodes| && i <= |tokens|
    requires fuel <= fuel' && RepeatOutcome(g, tokens, c, i, repeated, added, fuel).Done?
    ensures RepeatOutcome(g, tokens, c, i, repeated, added, fuel') == RepeatOutcome(g, tokens, c, i, repeated, added, fuel)
    decreases fuel, 1, 0
  {
    if i < |tokens| {
      var o := MatchOutcome(g, tokens, c, i, repeated, fuel - 1);
      MatchDeeper(g, tokens, c, i, repeated, fuel - 1, fuel' - 1);
      if o.ok {
        RepeatDeeper(g, tokens, c, o.index, o.added, added, fuel - 1, fuel' - 1);
      }
    }
  }

  // ----- graphs without left recursion and without nullable repeats -----

  /** A proof object for the matchers in `live`: `nullable` holds those that may succeed on no token, and `rank` falls
      along every call that may be made before a token has been consumed. */
  datatype Certificate = Certificate(live: set<nat>, nullable: set<nat>, rank: seq<nat>, bound: nat)

  predicate AllLive(cert: Certificate, ms: seq<nat>) {
    forall k :: 0 <= k < |ms| ==> ms[k] in cert.live
  }

  predicate AllNullable(cert: Certificate, ms: seq<nat>) {
    forall k :: 0 <= k < |ms| ==> ms[k] in cert.nullable
  }

  predicate Ranked(g: Graph, cert: Certificate, m: nat, c: nat)
    requires |cert.rank| == |g.nodes| && m < |g.nodes|
  {
    c < |g.nodes| && cert.rank[c] < cert.rank[m]
  }

  predicate NodeCertified(g: Graph, cert: Certificate, m: nat)
    requires |cert.rank| == |g.nodes| && m < |g.nodes|
  {
    cert.rank[m] < cert.bound &&
    match g.nodes[m]
    case LeafMatcher(_) => true
    case ListMatcher(ms) =>
      && AllLive(cert, ms) && (AllNullable(cert, ms) ==> m in cert.nullable)
      && forall k :: 0 <= k < |ms| && AllNullable(cert, ms[..k]) ==> Ranked(g, cert, m, ms[k])
    case OptionalMatcher(c) => c in cert.live && m in cert.nullable && Ranked(g, cert, m, c)
    case ChoiceMatcher(cs) =>
      && AllLive(cert, cs) && (forall k :: 0 <= k < |cs| && cs[k] in cert.nullable ==> m in cert.nullable)
      && forall k :: 0 <= k < |cs| ==> Ranked(g, cert, m, cs[k])
    case RepeatMatcher(c) => c in cert.live && c !in cert.nullable && Ranked(g, cert, m, c)
  }

  predicate Certified(g: Graph, cert: Certificate) {
    && Closed(g)
    && |cert.rank| == |g.nodes|
    && forall m :: m in cert.live ==> m < |g.nodes| && NodeCertified(g, cert, m)
  }

  /** A match that succeeds without consuming a token is of a nullable matcher. */
  lemma {:induction false} MatchConsumes(g: Graph, cert: Certificate, tokens: seq<string>, m: nat, i: nat,
                                         added: set<nat>, fuel: nat)
    requires Certified(g, cert) && m in cert.live && i < |tokens|
    requires MatchOutcome(g, tokens, m, i, added, fuel).Done? && MatchOutcome(g, tokens, m, i, added, fuel).ok
    requires MatchOutcome(g, tokens, m, i, added, fuel).index == i
    ensures m in cert.nullable
    decreases fuel, 0, 0
  {
    assert NodeCertified(g, cert, m);
    match g.nodes[m]
    case LeafMatcher(_) =>
    case ListMatcher(ms) => ListConsumes(g, cert, tokens, ms, i, i, {}, fuel - 1);
    case OptionalMatcher(_) =>
    case ChoiceMatcher(cs) =>
      var k := ChoiceConsumes(g, cert, tokens, cs, i, fuel - 1);
    case RepeatMatcher(c) =>
      MatchConsumes(g, cert, tokens, c, i, {}, fuel - 1);
      assert false;
  }

  lemma {:induction false} ListConsumes(g: Graph, cert: Certificate, tokens: seq<string>, ms: seq<nat>, start: nat,
                                        i: nat, added: set<nat>, fuel: nat)
    requires Certified(g, cert) && InGraph(g, ms) && AllLive(cert, ms) && start <= i < |tokens|
    requires ListOutcome(g, tokens, ms, start, i, added, fuel).Done? && ListOutcome(g, tokens, ms, start, i, added, fuel).ok
    requires ListOutcome(g, tokens, ms, start, i, added, fuel).index == i
    ensures AllNullable(cert, ms)
    decreases fuel, 1, |ms|
  {
    if ms != [] {
      var o := MatchOutcome(g, tokens, ms[0], i, added, fuel);
      MatchConsumes(g, cert, tokens, ms[0], i, added, fuel);
      ListConsumes(g, cert, tokens, ms[1..], start, o.index, o.added, fuel);
    }
  }

  lemma {:induction false} ChoiceConsumes(g: Graph, cert: Certificate, tokens: seq<string>, cs: seq<nat>, i: nat, fuel: nat)
    returns (k: nat)
    requires Certified(g, cert) && InGraph(g, cs) && AllLive(cert, cs) && i < |tokens|
    requires ChoiceOutcome(g, tokens, cs, i, fuel).Done? && ChoiceOutcome(g, tokens, cs, i, fuel).ok
    requires ChoiceOutcome(g, tokens, cs, i, fuel).index == i
    ensures k < |cs| && cs[k] in cert.nullable
    decreases fuel, 1, |cs|
  {
    if MatchOutcome(g, tokens, cs[0], i, {}, fuel).ok {
      MatchConsumes(g, cert, tokens, cs[0], i, {}, fuel);
      k := 0;
    } else {
      k := ChoiceConsumes(g, cert, tokens, cs[1..], i, fuel);
      k := k + 1;
    }
  }

  function Max(a: nat, b: nat): nat {
    if a < b then b else a
  }

  /** On a certified graph every match terminates: the tokens left go down, or the rank does. */
  lemma {:induction false} MatchTerminates(g: Graph, cert: Certificate, tokens: seq<string>, m: nat, i: nat,
                                           added: set<nat>)
    returns (fuel: nat)
    requires Certified(g, cert) && m in cert.live && i <= |tokens| && (i < |tokens| || g.nodes[m].ListMatcher?)
    ensures MatchOutcome(g, tokens, m, i, added, fuel).Done?
    decreases |tokens| - i, cert.rank[m], 1, 0
  {
    assert NodeCertified(g, cert, m);
    match g.nodes[m]
    case LeafMatcher(_) => fuel := 1;
    case ListMatcher(ms) =>
      assert ms[0..] == ms;
      fuel := ListTerminates(g, cert, tokens, m, 0, i, i, {});
      fuel := fuel + 1;
    case OptionalMatcher(c) =>
      fuel := MatchTerminates(g, cert, tokens, c, i, {});
      fuel := fuel + 1;
    case ChoiceMatcher(cs) =>
      assert cs[0..] == cs;
      fuel := ChoiceTerminates(g, cert, tokens, m, 0, i);
      fuel := fuel + 1;
    case RepeatMatcher(c) =>
      var f := MatchTerminates(g, cert, tokens, c, i, {});
      var first := MatchOutcome(g, tokens, c, i, {}, f);
      fuel := f + 1;
      if first.ok {
        if first.index == i {
          MatchConsumes(g, cert, tokens, c, i, {}, f);
        }
        var f' := RepeatTerminates(g, cert, tokens, c, first.index, first.added, added);
        MatchDeeper(g, tokens, c, i, {}, f, Max(f, f'));
        RepeatDeeper(g, tokens, c, first.index, first.added, added, f', Max(f, f'));
        fuel := Max(f, f') + 1;
      }
  }

  /** The members of list `m` from number `k` on, when the list began at token `start`. */
  lemma {:induction false} ListTerminates(g: Graph, cert: Certificate, tokens: seq<string>, m: nat, k: nat,
                                          start: nat, i: nat, added: set<nat>)
    returns (fuel: nat)
    requires Certified(g, cert) && m in cert.live && g.nodes[m].ListMatcher? && k <= |g.nodes[m].matchers|
    requires start <= i <= |tokens|
    requires i == start < |tokens| ==> AllNullable(cert, g.nodes[m].matchers[..k])
    ensures ListOutcome(g, tokens, g.nodes[m].matchers[k..], start, i, added, fuel).Done?
    decreases |tokens| - i, if i == start then cert.rank[m] else cert.bound, 0, |g.nodes[m].matchers| - k
  {
    hide MatchOutcome, ListOutcome;
    assert NodeCertified(g, cert, m) && WellLinked(g, g.nodes[m]);
    var ms := g.nodes[m].matchers;
    fuel := 0;
    ListTurn(g, tokens, ms, k, start, i, added, fuel);
    if k < |ms| && i < |tokens| {
      assert NodeCertified(g, cert, ms[k]);
      var f := MatchTerminates(g, cert, tokens, ms[k], i, added);
      var o := MatchOutcome(g, tokens, ms[k], i, added, f);
      ListTurn(g, tokens, ms, k, start, i, added, f);
      fuel := f;
      if o.ok {
        if o.index == i {
          MatchConsumes(g, cert, tokens, ms[k], i, added, f);
          assert ms[..k + 1] == ms[..k] + [ms[k]];
        }
        var f' := ListTerminates(g, cert, tokens, m, k + 1, start, o.index, o.added);
        fuel := Max(f, f');
        MatchDeeper(g, tokens, ms[k], i, added, f, fuel);
        ListDeeper(g, tokens, ms[k + 1..], start, o.index, o.added, f', fuel);
        ListTurn(g, tokens, ms, k, start, i, added, fuel);
      }
    }
  }

  lemma {:induction false} ChoiceTerminates(g: Graph, cert: Certificate, tokens: seq<string>, m: nat, k: nat, i: nat)
    returns (fuel: nat)
    requires Certified(g, cert) && m in cert.live && g.nodes[m].ChoiceMatcher? && k <= |g.nodes[m].choices| && i < |tokens|
    ensures WellLinked(g, g.nodes[m]) && ChoiceOutcome(g, tokens, g.nodes[m].choices[k..], i, fuel).Done?
    decreases |tokens| - i, cert.rank[m], 0, |g.nodes[m].choices| - k
  {
    assert NodeCertified(g, cert, m) && WellLinked(g, g.nodes[m]);
    var cs := g.nodes[m].choices;
    fuel := 0;
    if k < |cs| {
      var f := MatchTerminates(g, cert, tokens, cs[k], i, {});
      var f' := ChoiceTerminates(g, cert, tokens, m, k + 1, i);
      fuel := Max(f, f');
      MatchDeeper(g, tokens, cs[k], i, {}, f, fuel);
      ChoiceDeeper(g, tokens, cs[k + 1..], i, f', fuel);
      ChoiceTurn(g, tokens, cs, k, i, fuel);
    }
  }

  lemma {:induction false} RepeatTerminates(g: Graph, cert: Certificate, tokens: seq<string>, c: nat, i: nat,
                                            repeated: set<nat>, added: set<nat>)
    returns (fuel: nat)
    requires Certified(g, cert) && c in cert.live && c !in cert.nullable && i <= |tokens|
    ensures RepeatOutcome(g, tokens, c, i, repeated, added, fuel).Done?
    decreases |tokens| - i, cert.bound, 2, 0
  {
    fuel := 0;
    if i < |tokens| {
      assert NodeCertified(g, cert, c);
      var f := MatchTerminates(g, cert, tokens, c, i, repeated);
      var o := MatchOutcome(g, tokens, c, i, repeated, f);
      fuel := f + 1;
      if o.ok {
        if o.index == i {
          MatchConsumes(g, cert, tokens, c, i, repeated, f);
        }
        var f' := RepeatTerminates(g, cert, tokens, c, o.index, o.added, added);
        fuel := Max(f, f') + 1;
        MatchDeeper(g, tokens, c, i, repeated, f, Max(f, f'));
        RepeatDeeper(g, tokens, c, o.index, o.added, added, f', Max(f, f'));
      }
    }
  }

  /** The matcher a matcher always runs first, on the token it is given. */
  function FirstCall(n: Matcher): Option<nat> {
    match n
    case LeafMatcher(_) => None
    case ListMatcher(ms) => if ms == [] then None else Some(ms[0])
    case OptionalMatcher(c) => Some(c)
    case ChoiceMatcher(cs) => if cs == [] then None else Some(cs[0])
    case RepeatMatcher(c) => Some(c)
  }

  /** Conversely, a matcher whose first calls never leave a set of matchers does not terminate on any token. */
  lemma {:induction false} LeftRecursionDiverges(g: Graph, tokens: seq<string>, loop: set<nat>, m: nat, i: nat,
                                                 added: set<nat>, fuel: nat)
    requires Closed(g) && m in loop && i < |tokens|
    requires forall c :: c in loop ==> c < |g.nodes| && FirstCall(g.nodes[c]).Some? && FirstCall(g.nodes[c]).value in loop
    ensures MatchOutcome(g, tokens, m, i, added, fuel).Diverges?
    decreases fuel
  {
    if fuel > 0 {
      assert WellLinked(g, g.nodes[m]);
      LeftRecursionDiverges(g, tokens, loop, FirstCall(g.nodes[m]).value, i, {}, fuel - 1);
    }
  }
}
