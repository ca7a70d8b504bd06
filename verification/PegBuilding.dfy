/** What building the matcher of a rule comes to, and when it ends: rules are built while the body that needs them is
    read, and a rule without argument is known as soon as it is started. */
module PegBuilding {
  import opened Sequences
  import opened G = PegGrammar
  import opened PegCompiler

  /** A rule to be built: the names that have matchers already, and whether the rule is called with an argument. */
  datatype Site = Site(names: set<string>, rule: string, called: bool)

  /** What came of it: more rules inside one another than the bound allows, an error, or the names that have matchers
      afterwards. */
  datatype Outcome = Deeper | Failed(error: BuildError) | Built(names: set<string>)

  predicate Known(s: Site) {
    !s.called && s.rule in s.names
  }

  function Given(s: Site): nat {
    if s.called then 1 else 0
  }

  /** Why a rule is refused before its body is read. */
  function Refusal(rules: Rules, s: Site): Option<BuildError> {
    if s.rule !in rules then Some(MissingRule(s.rule))
    else if |rules[s.rule].parameters| > 1 then Some(TooManyParameters(s.rule))
    else if |rules[s.rule].parameters| != Given(s) then Some(ParameterCount(s.rule, Given(s)))
    else None
  }

  /** The body of the rule is read. */
  predicate Opened(rules: Rules, s: Site) {
    !Known(s) && Refusal(rules, s) == None
  }

  function Tokens(rules: Rules, s: Site): seq<PegToken>
    requires Opened(rules, s)
  {
    rules[s.rule].tokens
  }

  /** A rule without argument has its matcher before its body is read. */
  function NamesInside(s: Site): set<string> {
    if s.called then s.names else s.names + {s.rule}
  }

  /** The rule that a token needs: the one it refers to, or the one whose call it closes. */
  function Needs(parameters: seq<string>, frames: seq<Frame>, t: PegToken, names: set<string>): Option<Site>
    requires ValidFrames(frames)
  {
    var top := frames[|frames| - 1];
    if t.REFERENCE? && t.text !in parameters then Some(Site(names, t.text, false))
    else if t == OPERATOR(')') && |frames| > 1 && top.ListFrame? && top.functionName.Some? then
      Some(Site(names, top.functionName.value, true))
    else None
  }

  /** At most `fuel` bodies are read inside one another. */
  function Build(rules: Rules, s: Site, fuel: nat): Outcome
    decreases fuel, 0, 0
  {
    if Known(s) then Built(s.names)
    else if Refusal(rules, s).Some? then Failed(Refusal(rules, s).value)
    else if fuel == 0 then Deeper
    else
      var tokens := Tokens(rules, s);
      var end := ReadBody(rules, s, |tokens|, fuel - 1);
      if end.Built? && |FramesAt(tokens, |tokens|).value| != 1 then Failed(BadBody(s.rule, UnclosedBracket)) else end
  }

  /** The stack of lists and choices after the first `k` tokens. */
  function FramesAt(tokens: seq<PegToken>, k: nat): (r: GrammarResult<seq<Frame>>)
    requires k <= |tokens|
    ensures r.Ok? ==> ValidFrames(r.value)
  {
    G.Run(EMPTY_STACK, tokens[..k])
  }

  /** What came of the first `k` tokens of the body. */
  function ReadBody(rules: Rules, s: Site, k: nat, fuel: nat): (r: Outcome)
    requires Opened(rules, s) && k <= |Tokens(rules, s)|
    ensures r.Built? ==> FramesAt(Tokens(rules, s), k).Ok?
    decreases fuel, 1, k
  {
    if k == 0 then Built(NamesInside(s)) else
    var before := ReadBody(rules, s, k - 1, fuel);
    if !before.Built? then before else
    ReadOne(rules, s, k - 1, before.names, fuel)
  }

  /** What came of token `k`, when all before it were read. */
  function ReadOne(rules: Rules, s: Site, k: nat, names: set<string>, fuel: nat): (r: Outcome)
    requires Opened(rules, s) && k < |Tokens(rules, s)| && FramesAt(Tokens(rules, s), k).Ok?
    ensures r.Built? ==> FramesAt(Tokens(rules, s), k + 1).Ok?
    decreases fuel, 1, k
  {
    var tokens := Tokens(rules, s);
    var frames := FramesAt(tokens, k).value;
    RunSoFar(tokens, k, frames);
    var next := G.Step(frames, tokens[k]);
    if next.Err? then Failed(BadBody(s.rule, next.error)) else
    var needed := Needs(rules[s.rule].parameters, frames, tokens[k], names);
    if needed == None then Built(names) else Build(rules, needed.value, fuel)
  }

  /** What came of the rule that a token needs, if it needs one. */
  function BuildNeeded(rules: Rules, parameters: seq<string>, frames: seq<Frame>, t: PegToken, names: set<string>,
                       fuel: nat): Outcome
    requires ValidFrames(frames)
  {
    var needed := Needs(parameters, frames, t, names);
    if needed == None then Built(names) else Build(rules, needed.value, fuel)
  }

  /** Where reading a rule stands after one more token. */
  lemma RunSoFar(tokens: seq<PegToken>, k: nat, frames: seq<Frame>)
    requires k < |tokens| && ValidFrames(frames) && G.Run(EMPTY_STACK, tokens[..k]) == Ok(frames)
    ensures G.Run(EMPTY_STACK, tokens[..k + 1]) == G.Step(frames, tokens[k])
    ensures G.Step(frames, tokens[k]).Err? ==> G.Parse(tokens) == Err(G.Step(frames, tokens[k]).error)
  {
    assert tokens[..k] + [tokens[k]] == tokens[..k + 1];
    RunThenOne(EMPTY_STACK, tokens[..k], tokens[k]);
    assert tokens[..k + 1] + tokens[k + 1..] == tokens;
    RunConcat(EMPTY_STACK, tokens[..k + 1], tokens[k + 1..]);
  }

  lemma BodyTurn(rules: Rules, s: Site, k: nat, fuel: nat, names: set<string>, frames: seq<Frame>)
    requires Opened(rules, s) && k < |Tokens(rules, s)| && ReadBody(rules, s, k, fuel) == Built(names)
    requires ValidFrames(frames) && FramesAt(Tokens(rules, s), k) == Ok(frames)
    ensures var t := Tokens(rules, s)[k]; var next := G.Step(frames, t);
            ReadBody(rules, s, k + 1, fuel) ==
              if next.Err? then Failed(BadBody(s.rule, next.error))
              else BuildNeeded(rules, rules[s.rule].parameters, frames, t, names, fuel)
  {
  }

  lemma {:induction false} BodyStops(rules: Rules, s: Site, j: nat, k: nat, fuel: nat)
    requires Opened(rules, s) && j <= k <= |Tokens(rules, s)| && !ReadBody(rules, s, j, fuel).Built?
    ensures ReadBody(rules, s, k, fuel) == ReadBody(rules, s, j, fuel)
    decreases k
  {
    if j < k {
      BodyStops(rules, s, j, k - 1, fuel);
    }
  }

  // ----- the bound does not matter -----

  /** A larger bound makes no difference once the building ends. */
  lemma {:induction false} BuildDeeper(rules: Rules, s: Site, fuel: nat, more: nat)
    requires fuel <= more && Build(rules, s, fuel) != Deeper
    ensures Build(rules, s, more) == Build(rules, s, fuel)
    decreases fuel, 0, 0
  {
    if Opened(rules, s) {
      BodyDeeper(rules, s, |Tokens(rules, s)|, fuel - 1, more - 1);
    }
  }

  lemma {:induction false} BodyDeeper(rules: Rules, s: Site, k: nat, fuel: nat, more: nat)
    requires Opened(rules, s) && k <= |Tokens(rules, s)| && fuel <= more && ReadBody(rules, s, k, fuel) != Deeper
    ensures ReadBody(rules, s, k, more) == ReadBody(rules, s, k, fuel)
    decreases fuel, 1, k
  {
    if k > 0 {
      BodyDeeper(rules, s, k - 1, fuel, more);
      var before := ReadBody(rules, s, k - 1, fuel);
      if before.Built? {
        var frames := FramesAt(Tokens(rules, s), k - 1).value;
        var needed := Needs(rules[s.rule].parameters, frames, Tokens(rules, s)[k - 1], before.names);
        if needed.Some? && G.Step(frames, Tokens(rules, s)[k - 1]).Ok? {
          BuildDeeper(rules, needed.value, fuel, more);
        }
      }
    }
  }

  /** Names are only added, and only those of rules. */
  lemma {:induction false} BuildAdds(rules: Rules, s: Site, fuel: nat)
    requires Build(rules, s, fuel).Built?
    ensures s.names <= Build(rules, s, fuel).names <= s.names + rules.Keys
    ensures !s.called ==> s.rule in Build(rules, s, fuel).names
    decreases fuel, 0, 0
  {
    if Opened(rules, s) {
      BodyAdds(rules, s, |Tokens(rules, s)|, fuel - 1);
    }
  }

  lemma {:induction false} BodyAdds(rules: Rules, s: Site, k: nat, fuel: nat)
    requires Opened(rules, s) && k <= |Tokens(rules, s)| && ReadBody(rules, s, k, fuel).Built?
    ensures NamesInside(s) <= ReadBody(rules, s, k, fuel).names <= s.names + rules.Keys
    decreases fuel, 1, k
  {
    if k > 0 {
      BodyAdds(rules, s, k - 1, fuel);
      var names := ReadBody(rules, s, k - 1, fuel).names;
      var frames := FramesAt(Tokens(rules, s), k - 1).value;
      var needed := Needs(rules[s.rule].parameters, frames, Tokens(rules, s)[k - 1], names);
      if needed.Some? {
        BuildAdds(rules, needed.value, fuel);
      }
    }
  }

  /** An error is really there. */
  lemma {:induction false} BuildBlames(rules: Rules, s: Site, fuel: nat)
    requires Build(rules, s, fuel).Failed?
    ensures Blames(rules, Build(rules, s, fuel).error)
    decreases fuel, 0, 0
  {
    if Opened(rules, s) {
      var tokens := Tokens(rules, s);
      if ReadBody(rules, s, |tokens|, fuel - 1).Failed? {
        BodyBlames(rules, s, |tokens|, fuel - 1);
      } else {
        assert tokens[..|tokens|] == tokens;
      }
    }
  }

  lemma {:induction false} BodyBlames(rules: Rules, s: Site, k: nat, fuel: nat)
    requires Opened(rules, s) && k <= |Tokens(rules, s)| && ReadBody(rules, s, k, fuel).Failed?
    ensures Blames(rules, ReadBody(rules, s, k, fuel).error)
    decreases fuel, 1, k
  {
    var before := ReadBody(rules, s, k - 1, fuel);
    if before.Failed? {
      BodyBlames(rules, s, k - 1, fuel);
    } else {
      var tokens := Tokens(rules, s);
      var frames := FramesAt(tokens, k - 1).value;
      RunSoFar(tokens, k - 1, frames);
      var needed := Needs(rules[s.rule].parameters, frames, tokens[k - 1], before.names);
      if needed.Some? && G.Step(frames, tokens[k - 1]).Ok? {
        BuildBlames(rules, needed.value, fuel);
      }
    }
  }

  // ----- what one rule needs -----

  ghost predicate Ends(rules: Rules, s: Site) {
    exists fuel: nat :: Build(rules, s, fuel) != Deeper
  }

  /** Token `k` of the body is reached without error, and needs `t`. */
  predicate NeedsAt(rules: Rules, s: Site, t: Site, k: nat, fuel: nat) {
    && Opened(rules, s) && k < |Tokens(rules, s)| && ReadBody(rules, s, k, fuel).Built?
    && var frames, names := FramesAt(Tokens(rules, s), k).value, ReadBody(rules, s, k, fuel).names;
       Needs(rules[s.rule].parameters, frames, Tokens(rules, s)[k], names) == Some(t)
  }

  /** Building `s` comes to building `t`. */
  ghost predicate Makes(rules: Rules, s: Site, t: Site) {
    exists k: nat, fuel: nat :: NeedsAt(rules, s, t, k, fuel)
  }

  ghost predicate Chain(rules: Rules, path: seq<Site>) {
    path != [] && forall k :: 0 <= k < |path| - 1 ==> Makes(rules, path[k], path[k + 1])
  }

  /** Building `s` comes to building a rule that, inside, comes to building that rule in the same way again. */
  ghost predicate Loops(rules: Rules, s: Site) {
    exists path, i: nat :: Chain(rules, path) && path[0] == s && Returns(path, i)
  }

  predicate Returns(path: seq<Site>, i: nat) {
    i < |path| - 1 && path[i] == path[|path| - 1]
  }

  lemma BodyPrefix(rules: Rules, s: Site, j: nat, k: nat, fuel: nat)
    requires Opened(rules, s) && j <= k <= |Tokens(rules, s)| && ReadBody(rules, s, k, fuel) != Deeper
    ensures ReadBody(rules, s, j, fuel) != Deeper
  {
    if ReadBody(rules, s, j, fuel) == Deeper {
      BodyStops(rules, s, j, k, fuel);
    }
  }

  lemma BodyEnds(rules: Rules, s: Site, n: nat)
    requires Opened(rules, s) && Build(rules, s, n) != Deeper
    ensures n > 0 && ReadBody(rules, s, |Tokens(rules, s)|, n - 1) != Deeper
  {
  }

  lemma ReadNeeded(rules: Rules, s: Site, t: Site, k: nat, fuel: nat)
    requires NeedsAt(rules, s, t, k, fuel)
    ensures ReadBody(rules, s, k + 1, fuel) == Build(rules, t, fuel)
  {
  }

  /** What is needed ends, with fewer bodies inside one another. */
  lemma NeededEnds(rules: Rules, s: Site, t: Site, n: nat)
    requires Makes(rules, s, t) && Build(rules, s, n) != Deeper
    ensures n > 0 && Build(rules, t, n - 1) != Deeper
  {
    var k: nat, fuel: nat :| NeedsAt(rules, s, t, k, fuel);
    BodyEnds(rules, s, n);
    var end := |Tokens(rules, s)|;
    hide Build, ReadBody, Needs, FramesAt, Tokens;
    BodyPrefix(rules, s, k + 1, end, n - 1);
    BodyPrefix(rules, s, k, end, n - 1);
    if fuel <= n - 1 {
      BodyDeeper(rules, s, k, fuel, n - 1);
    } else {
      BodyDeeper(rules, s, k, n - 1, fuel);
    }
    assert NeedsAt(rules, s, t, k, n - 1);
    ReadNeeded(rules, s, t, k, n - 1);
  }

  lemma {:induction false} ChainEnds(rules: Rules, path: seq<Site>, j: nat, n: nat)
    requires Chain(rules, path) && j < |path| && Build(rules, path[0], n) != Deeper
    ensures j <= n && Build(rules, path[j], n - j) != Deeper
    decreases j
  {
    if j > 0 {
      ChainEnds(rules, path, j - 1, n);
      assert Makes(rules, path[j - 1], path[j - 1 + 1]);
      NeededEnds(rules, path[j - 1], path[j], n - (j - 1));
    }
  }

  lemma {:induction false} NoReturn(rules: Rules, path: seq<Site>, n: nat)
    requires Chain(rules, path) && |path| > 1 && path[0] == path[|path| - 1]
    ensures Build(rules, path[0], n) == Deeper
    decreases n
  {
    if Build(rules, path[0], n) != Deeper {
      ChainEnds(rules, path, |path| - 1, n);
      NoReturn(rules, path, n - (|path| - 1));
    }
  }

  lemma ChainTail(rules: Rules, path: seq<Site>, i: nat)
    requires Chain(rules, path) && i < |path|
    ensures Chain(rules, path[i..])
  {
    forall k | 0 <= k < |path[i..]| - 1 ensures Makes(rules, path[i..][k], path[i..][k + 1]) {
      assert Makes(rules, path[i + k], path[i + k + 1]);
    }
  }

  lemma LoopNeverEnds(rules: Rules, s: Site)
    requires Loops(rules, s)
    ensures !Ends(rules, s)
  {
    var path, i: nat :| Chain(rules, path) && path[0] == s && Returns(path, i);
    forall n: nat ensures Build(rules, s, n) == Deeper {
      if Build(rules, s, n) != Deeper {
        ChainEnds(rules, path, i, n);
        ChainTail(rules, path, i);
        NoReturn(rules, path[i..], n - i);
      }
    }
  }

  // ----- building ends if nothing returns -----

  /** The rules that have no matcher yet. */
  function Left(rules: Rules, names: set<string>): nat {
    |rules.Keys - names|
  }

  /** No more bodies than this are ever read inside one another. */
  function Limit(rules: Rules): nat {
    (|rules| + 1) * (|rules| + 1)
  }

  /** How many bodies may still be read inside one another when the calls in `busy` are being built: each time a name
      is added, all calls may follow again. */
  function Remaining(rules: Rules, names: set<string>, busy: set<string>): nat {
    Left(rules, names) * (|rules| + 1) + |rules.Keys - busy|
  }

  /** Rule `s` is being built for those in `path`; the calls in `busy` are among them, with the names there are now. */
  ghost predicate InProgress(rules: Rules, path: seq<Site>, s: Site, busy: set<string>) {
    && Chain(rules, path + [s]) && !Loops(rules, (path + [s])[0]) && busy <= rules.Keys
    && forall f :: f in busy ==> Site(s.names, f, true) in path
  }

  lemma FewerLeft(rules: Rules, names: set<string>, more: set<string>, name: string)
    requires names <= more && name in rules && name !in names && name in more
    ensures Left(rules, more) < Left(rules, names)
  {
    assert rules.Keys - names == (rules.Keys - names - {name}) + {name};
    SubsetSize(rules.Keys - more, rules.Keys - names - {name});
  }

  lemma {:induction false} SubsetSize(a: set<string>, b: set<string>)
    requires a <= b
    ensures |a| <= |b|
    decreases |a|
  {
    if a != {} {
      var x :| x in a;
      SubsetSize(a - {x}, b - {x});
    }
  }

  lemma Scaled(a: nat, b: nat, r: nat)
    requires a <= b
    ensures a * r <= b * r
  {
    assert b * r == a * r + (b - a) * r;
  }

  lemma RemainingDrops(rules: Rules, names: set<string>, more: set<string>, name: string, busy: set<string>)
    requires names <= more && name in rules && name !in names && name in more
    ensures Remaining(rules, more, {}) < Remaining(rules, names, busy)
  {
    FewerLeft(rules, names, more, name);
    var r := |rules| + 1;
    assert rules.Keys - {} == rules.Keys && |rules.Keys| == |rules|;
    Scaled(Left(rules, more) + 1, Left(rules, names), r);
    assert (Left(rules, more) + 1) * r == Left(rules, more) * r + r;
  }

  lemma OneMoreBusy(rules: Rules, names: set<string>, busy: set<string>, name: string)
    requires name in rules && name !in busy
    ensures Remaining(rules, names, busy + {name}) < Remaining(rules, names, busy)
  {
    assert rules.Keys - busy == (rules.Keys - (busy + {name})) + {name};
  }

  lemma LoopFound(rules: Rules, path: seq<Site>, s: Site, busy: set<string>)
    requires InProgress(rules, path, s, busy)
    ensures s.called ==> s.rule !in busy
  {
    if s.called && s.rule in busy {
      assert s == Site(s.names, s.rule, true);
      var i :| 0 <= i < |path| && path[i] == s;
      assert Returns(path + [s], i);
    }
  }

  lemma ChainSnoc(rules: Rules, path: seq<Site>, t: Site)
    requires Chain(rules, path) && Makes(rules, path[|path| - 1], t)
    ensures Chain(rules, path + [t]) && (path + [t])[0] == path[0]
  {
    forall k | 0 <= k < |path| ensures Makes(rules, (path + [t])[k], (path + [t])[k + 1]) {
      if k < |path| - 1 {
        assert Makes(rules, path[k], path[k + 1]);
      }
    }
  }

  /** What is needed next has less before it. */
  lemma NextInProgress(rules: Rules, path: seq<Site>, s: Site, busy: set<string>, t: Site) returns (next: set<string>)
    requires InProgress(rules, path, s, busy) && Makes(rules, s, t)
    ensures InProgress(rules, path + [s], t, next)
    ensures Remaining(rules, t.names, next) < Remaining(rules, s.names, busy)
  {
    ChainSnoc(rules, path + [s], t);
    LoopFound(rules, path, s, busy);
    MakesAdds(rules, s, t);
    hide Loops, Chain, Makes, Remaining;
    if t.names == s.names {
      next := busy + {s.rule};
      OneMoreBusy(rules, s.names, busy, s.rule);
      assert s == Site(s.names, s.rule, true);
    } else {
      next := {};
      var name :| name in t.names && name !in s.names;
      RemainingDrops(rules, s.names, t.names, name, busy);
    }
  }

  lemma MakesAdds(rules: Rules, s: Site, t: Site)
    requires Makes(rules, s, t)
    ensures s.rule in rules && NamesInside(s) <= t.names <= s.names + rules.Keys
    ensures t.names == s.names ==> s.called
  {
    var k: nat, fuel: nat :| NeedsAt(rules, s, t, k, fuel);
    BodyAdds(rules, s, k, fuel);
  }

  lemma SomeRemaining(rules: Rules, path: seq<Site>, s: Site, busy: set<string>)
    requires InProgress(rules, path, s, busy) && Opened(rules, s)
    ensures Remaining(rules, s.names, busy) > 0
  {
    LoopFound(rules, path, s, busy);
    hide Remaining, InProgress;
    if s.called {
      OneMoreBusy(rules, s.names, busy, s.rule);
    } else {
      RemainingDrops(rules, s.names, s.names + {s.rule}, s.rule, busy);
    }
  }

  lemma BuildOfBody(rules: Rules, s: Site, fuel: nat)
    ensures !Opened(rules, s) ==> Build(rules, s, fuel) != Deeper
    ensures Opened(rules, s) && fuel > 0 && ReadBody(rules, s, |Tokens(rules, s)|, fuel - 1) != Deeper ==>
              Build(rules, s, fuel) != Deeper
  {
  }

  lemma {:induction false} BuildEnds(rules: Rules, path: seq<Site>, s: Site, busy: set<string>, fuel: nat)
    requires InProgress(rules, path, s, busy) && fuel >= Remaining(rules, s.names, busy)
    ensures Build(rules, s, fuel) != Deeper
    decreases fuel, 0, 0
  {
    hide *;
    BuildOfBody(rules, s, fuel);
    if Opened(rules, s) {
      SomeRemaining(rules, path, s, busy);
      BodyEndsToo(rules, path, s, busy, |Tokens(rules, s)|, fuel - 1);
    }
  }

  lemma {:induction false} BodyEndsToo(rules: Rules, path: seq<Site>, s: Site, busy: set<string>, k: nat, fuel: nat)
    requires InProgress(rules, path, s, busy) && fuel + 1 >= Remaining(rules, s.names, busy)
    requires Opened(rules, s) && k <= |Tokens(rules, s)|
    ensures ReadBody(rules, s, k, fuel) != Deeper
    decreases fuel, 1, k
  {
    hide *;
    if ReadBody(rules, s, k, fuel) == Deeper {
      BodyOfNone(rules, s, fuel);
      BodyEndsToo(rules, path, s, busy, k - 1, fuel);
      var t := NeededDeeper(rules, s, k, fuel);
      var next := NextInProgress(rules, path, s, busy, t);
      BuildEnds(rules, path + [s], t, next, fuel);
    }
  }

  lemma BodyOfNone(rules: Rules, s: Site, fuel: nat)
    requires Opened(rules, s)
    ensures ReadBody(rules, s, 0, fuel) == Built(NamesInside(s))
  {
  }

  lemma NeededDeeper(rules: Rules, s: Site, k: nat, fuel: nat) returns (t: Site)
    requires Opened(rules, s) && 0 < k <= |Tokens(rules, s)|
    requires ReadBody(rules, s, k - 1, fuel) != Deeper && ReadBody(rules, s, k, fuel) == Deeper
    ensures Makes(rules, s, t) && Build(rules, t, fuel) == Deeper
  {
    var names := ReadBody(rules, s, k - 1, fuel).names;
    var frames := FramesAt(Tokens(rules, s), k - 1).value;
    t := Needs(rules[s.rule].parameters, frames, Tokens(rules, s)[k - 1], names).value;
    assert NeedsAt(rules, s, t, k - 1, fuel);
  }

  lemma LimitIsEnough(rules: Rules, names: set<string>)
    ensures Remaining(rules, names, {}) <= Limit(rules)
  {
    SubsetSize(rules.Keys - names, rules.Keys);
    assert rules.Keys - {} == rules.Keys && |rules.Keys| == |rules|;
    Scaled(Left(rules, names), |rules|, |rules| + 1);
    assert Limit(rules) == |rules| * (|rules| + 1) + (|rules| + 1);
  }

  lemma FirstInProgress(rules: Rules, s: Site)
    requires !Loops(rules, s)
    ensures InProgress(rules, [], s, {})
  {
    assert [] + [s] == [s];
  }

  /** Building a rule ends exactly if it does not come to building a rule that comes to building that rule in the same
      way again; then no more bodies are inside one another than the limit says. */
  lemma BuildingEndsExactly(rules: Rules, s: Site)
    ensures Ends(rules, s) <==> !Loops(rules, s)
    ensures Ends(rules, s) ==> Build(rules, s, Limit(rules)) != Deeper
  {
    hide Loops, Build, Limit, Remaining, InProgress;
    if Loops(rules, s) {
      LoopNeverEnds(rules, s);
    } else {
      LimitIsEnough(rules, s.names);
      FirstInProgress(rules, s);
      BuildEnds(rules, [], s, {}, Limit(rules));
    }
  }

  /** Whatever returns is a call, and so is everything between: a rule without argument adds its name. */
  lemma ReturnsByCalls(rules: Rules, path: seq<Site>, i: nat)
    requires Chain(rules, path) && Returns(path, i)
    ensures forall k :: i <= k < |path| ==> path[k].called && path[k].names == path[i].names
  {
    SameNames(rules, path, i, i);
    forall k | i <= k < |path| ensures path[k].called && path[k].names == path[i].names {
      if k < |path| - 1 {
        SameNames(rules, path, i, k);
      }
    }
  }

  /** Between a rule and its return no name is added. */
  lemma SameNames(rules: Rules, path: seq<Site>, i: nat, k: nat)
    requires Chain(rules, path) && Returns(path, i) && i <= k < |path| - 1
    ensures path[k].called && path[k].names == path[i].names
  {
    assert Makes(rules, path[k], path[k + 1]);
    NamesGrow(rules, path, i, k);
    NamesGrow(rules, path, k, k + 1);
    NamesGrow(rules, path, k + 1, |path| - 1);
    MakesAdds(rules, path[k], path[k + 1]);
    hide Makes, NamesInside, Chain;
  }

  lemma {:induction false} NamesGrow(rules: Rules, path: seq<Site>, j: nat, k: nat)
    requires Chain(rules, path) && j <= k < |path|
    ensures path[j].names <= path[k].names
    decreases k
  {
    if j < k {
      NamesGrow(rules, path, j, k - 1);
      assert Makes(rules, path[k - 1], path[k - 1 + 1]);
      MakesAdds(rules, path[k - 1], path[k]);
    }
  }
}
