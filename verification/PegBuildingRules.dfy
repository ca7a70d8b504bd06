/** When building ends, read off the rules of the grammar: by which of them refer to and call one another. */
module PegBuildingRules {
  import opened Sequences
  import opened G = PegGrammar
  import opened PegCompiler
  import opened PegBuilding

  predicate Refers(rules: Rules, f: string, g: string) {
    f in rules && g !in rules[f].parameters && REFERENCE(g) in rules[f].tokens
  }

  predicate Calls(rules: Rules, f: string, g: string) {
    f in rules && FUNCTION_CALL(g) in rules[f].tokens
  }

  /** Rule `f` needs rule `g`; the names in `known` have matchers from the start. */
  predicate Uses(rules: Rules, known: set<string>, f: string, g: string) {
    (Refers(rules, f, g) && g !in known) || Calls(rules, f, g)
  }

  ghost predicate UsePath(rules: Rules, known: set<string>, path: seq<string>) {
    path != [] && forall k :: 0 <= k < |path| - 1 ==> Uses(rules, known, path[k], path[k + 1])
  }

  ghost predicate Used(rules: Rules, known: set<string>, root: string, f: string) {
    exists path :: UsePath(rules, known, path) && path[0] == root && path[|path| - 1] == f
  }

  ghost predicate CallPath(rules: Rules, path: seq<string>) {
    path != [] && forall k :: 0 <= k < |path| - 1 ==> Calls(rules, path[k], path[k + 1])
  }

  /** The body of `f` calls a rule whose body calls a rule, and so on, whose body calls `f`. */
  ghost predicate CallsItself(rules: Rules, f: string) {
    exists path :: CallPath(rules, path) && |path| > 1 && path[0] == f && path[|path| - 1] == f
  }

  /** The body of a rule can be read, and the rules it needs exist and take as many arguments as they are given. */
  ghost predicate WellFormed(rules: Rules, known: set<string>, f: string) {
    && f in rules && G.Parse(rules[f].tokens).Ok?
    && (forall g :: Refers(rules, f, g) && g !in known ==> g in rules && |rules[g].parameters| == 0)
    && (forall g :: Calls(rules, f, g) ==> g in rules && |rules[g].parameters| == 1)
  }

  ghost predicate WellFormedFrom(rules: Rules, known: set<string>, root: string) {
    && root in rules && |rules[root].parameters| == 0
    && forall f :: Used(rules, known, root, f) ==> WellFormed(rules, known, f)
  }

  lemma UsedNext(rules: Rules, known: set<string>, root: string, f: string, g: string)
    requires Used(rules, known, root, f) && Uses(rules, known, f, g)
    ensures Used(rules, known, root, g)
  {
    var path :| UsePath(rules, known, path) && path[0] == root && path[|path| - 1] == f;
    forall k | 0 <= k < |path| ensures Uses(rules, known, (path + [g])[k], (path + [g])[k + 1]) {
      if k < |path| - 1 {
        assert Uses(rules, known, path[k], path[k + 1]);
      }
    }
    assert UsePath(rules, known, path + [g]);
  }

  // ----- what a token needs is in the body -----

  /** The functions whose arguments are being read are called in the body. */
  predicate NamesFrom(frames: seq<Frame>, tokens: seq<PegToken>) {
    forall k :: 0 <= k < |frames| && frames[k].ListFrame? && frames[k].functionName.Some? ==>
      FUNCTION_CALL(frames[k].functionName.value) in tokens
  }

  lemma StepNames(frames: seq<Frame>, t: PegToken, tokens: seq<PegToken>)
    requires ValidFrames(frames) && NamesFrom(frames, tokens) && t in tokens && G.Step(frames, t).Ok?
    ensures NamesFrom(G.Step(frames, t).value, tokens)
  {
    if t == OPERATOR(')') {
      CloseNames(frames, tokens);
      hide G.CloseBracket, NamesFrom;
    }
  }

  lemma CloseNames(frames: seq<Frame>, tokens: seq<PegToken>)
    requires ValidFrames(frames) && NamesFrom(frames, tokens) && G.CloseBracket(frames).Ok?
    ensures NamesFrom(G.CloseBracket(frames).value, tokens)
  {
  }

  lemma {:induction false} FramesNames(tokens: seq<PegToken>, k: nat)
    requires k <= |tokens| && FramesAt(tokens, k).Ok?
    ensures NamesFrom(FramesAt(tokens, k).value, tokens)
    decreases k
  {
    if k > 0 {
      FramesBefore(tokens, k);
      FramesNames(tokens, k - 1);
      StepNames(FramesAt(tokens, k - 1).value, tokens[k - 1], tokens);
    }
  }

  lemma FramesBefore(tokens: seq<PegToken>, k: nat)
    requires 0 < k <= |tokens| && FramesAt(tokens, k).Ok?
    ensures FramesAt(tokens, k - 1).Ok? && FramesAt(tokens, k) == G.Step(FramesAt(tokens, k - 1).value, tokens[k - 1])
  {
    assert tokens[..k] == tokens[..k - 1] + [tokens[k - 1]];
    RunThenOne(EMPTY_STACK, tokens[..k - 1], tokens[k - 1]);
  }

  lemma NeedsUses(rules: Rules, s: Site, t: Site, k: nat, fuel: nat)
    requires NeedsAt(rules, s, t, k, fuel)
    ensures if t.called then Calls(rules, s.rule, t.rule) else Refers(rules, s.rule, t.rule)
  {
    FramesNames(Tokens(rules, s), k);
  }

  // ----- no function calls itself -----

  function RulesOf(path: seq<Site>): seq<string> {
    seq(|path|, k requires 0 <= k < |path| => path[k].rule)
  }

  lemma ChainUses(rules: Rules, known: set<string>, path: seq<Site>, i: nat)
    requires Chain(rules, path) && i < |path| - 1 && known <= path[0].names
    ensures UsePath(rules, known, RulesOf(path[..i + 1]))
  {
    var names := RulesOf(path[..i + 1]);
    forall k | 0 <= k < i ensures Uses(rules, known, names[k], names[k + 1]) {
      assert Makes(rules, path[k], path[k + 1]) && Makes(rules, path[k + 1], path[k + 2]);
      var j: nat, fuel: nat :| NeedsAt(rules, path[k], path[k + 1], j, fuel);
      NeedsUses(rules, path[k], path[k + 1], j, fuel);
      NamesGrow(rules, path, 0, k + 1);
      MakesOpened(rules, path[k + 1], path[k + 2]);
    }
  }

  lemma MakesOpened(rules: Rules, s: Site, t: Site)
    requires Makes(rules, s, t)
    ensures Opened(rules, s)
  {
  }

  lemma ReturnCalls(rules: Rules, path: seq<Site>, i: nat)
    requires Chain(rules, path) && Returns(path, i)
    ensures CallsItself(rules, path[i].rule)
  {
    ReturnsByCalls(rules, path, i);
    var names := RulesOf(path[i..]);
    forall k | 0 <= k < |names| - 1 ensures Calls(rules, names[k], names[k + 1]) {
      assert Makes(rules, path[i + k], path[i + k + 1]);
      var j: nat, fuel: nat :| NeedsAt(rules, path[i + k], path[i + k + 1], j, fuel);
      NeedsUses(rules, path[i + k], path[i + k + 1], j, fuel);
    }
    assert CallPath(rules, names);
  }

  /** Building ends for every grammar in which no rule that is used calls itself. */
  lemma NoCallCycleEnds(rules: Rules, known: set<string>, root: string)
    requires forall f :: Used(rules, known, root, f) ==> !CallsItself(rules, f)
    ensures Ends(rules, Site(known, root, false))
  {
    var s := Site(known, root, false);
    BuildingEndsExactly(rules, s);
    if Loops(rules, s) {
      var path: seq<Site>, i: nat :| Chain(rules, path) && path[0] == s && Returns(path, i);
      ChainUses(rules, known, path, i);
      ReturnCalls(rules, path, i);
      assert Used(rules, known, root, path[i].rule);
    }
  }

  // ----- a well-formed grammar has no errors -----

  /** The rule takes as many arguments as it is given. */
  predicate Fitting(rules: Rules, s: Site) {
    s.rule in rules && |rules[s.rule].parameters| == Given(s)
  }

  lemma {:induction false} NoFailure(rules: Rules, known: set<string>, root: string, s: Site, fuel: nat)
    requires WellFormedFrom(rules, known, root) && known <= s.names
    requires Known(s) || (Used(rules, known, root, s.rule) && Fitting(rules, s))
    ensures !Build(rules, s, fuel).Failed?
    decreases fuel, 0, 0
  {
    if !Known(s) && fuel > 0 {
      var tokens := Tokens(rules, s);
      BodyNoFailure(rules, known, root, s, |tokens|, fuel - 1);
      FramesEnd(tokens);
    }
  }

  lemma {:induction false} BodyNoFailure(rules: Rules, known: set<string>, root: string, s: Site, k: nat, fuel: nat)
    requires WellFormedFrom(rules, known, root) && known <= s.names && Opened(rules, s) && k <= |Tokens(rules, s)|
    requires Used(rules, known, root, s.rule)
    ensures !ReadBody(rules, s, k, fuel).Failed?
    decreases fuel, 1, k
  {
    hide *;
    if k == 0 {
      BodyOfNone(rules, s, fuel);
    } else {
      BodyNoFailure(rules, known, root, s, k - 1, fuel);
      if ReadBody(rules, s, k - 1, fuel).Built? {
        var frames := FramesAt(Tokens(rules, s), k - 1).value;
        NoStepFails(rules, known, root, s, k - 1, frames);
        var needed := NextNeeded(rules, s, k - 1, fuel);
        if needed.Some? {
          NeedsFits(rules, known, root, s, needed.value, k - 1, fuel);
          NoFailure(rules, known, root, needed.value, fuel);
        }
      } else {
        BodyStops(rules, s, k - 1, k, fuel);
      }
    }
  }

  /** What the next token needs: what comes of it is what comes of the body. */
  lemma NextNeeded(rules: Rules, s: Site, k: nat, fuel: nat) returns (needed: Option<Site>)
    requires Opened(rules, s) && k < |Tokens(rules, s)| && ReadBody(rules, s, k, fuel).Built?
    requires G.Step(FramesAt(Tokens(rules, s), k).value, Tokens(rules, s)[k]).Ok?
    ensures needed == Needs(rules[s.rule].parameters, FramesAt(Tokens(rules, s), k).value, Tokens(rules, s)[k],
                            ReadBody(rules, s, k, fuel).names)
    ensures needed == None ==> ReadBody(rules, s, k + 1, fuel) == ReadBody(rules, s, k, fuel)
    ensures needed.Some? ==>
              && NeedsAt(rules, s, needed.value, k, fuel) && ReadBody(rules, s, k + 1, fuel) == Build(rules, needed.value, fuel)
              && s.names <= needed.value.names == ReadBody(rules, s, k, fuel).names
  {
    var names, frames := ReadBody(rules, s, k, fuel).names, FramesAt(Tokens(rules, s), k).value;
    BodyTurn(rules, s, k, fuel, names, frames);
    BodyAdds(rules, s, k, fuel);
    needed := Needs(rules[s.rule].parameters, frames, Tokens(rules, s)[k], names);
  }

  lemma NoStepFails(rules: Rules, known: set<string>, root: string, s: Site, k: nat, frames: seq<Frame>)
    requires WellFormedFrom(rules, known, root) && Used(rules, known, root, s.rule) && Opened(rules, s)
    requires k < |Tokens(rules, s)| && ValidFrames(frames) && FramesAt(Tokens(rules, s), k) == Ok(frames)
    ensures G.Step(frames, Tokens(rules, s)[k]).Ok?
  {
    RunSoFar(Tokens(rules, s), k, frames);
    assert WellFormed(rules, known, s.rule);
  }

  lemma NeedsFits(rules: Rules, known: set<string>, root: string, s: Site, t: Site, k: nat, fuel: nat)
    requires WellFormedFrom(rules, known, root) && known <= t.names
    requires Used(rules, known, root, s.rule) && NeedsAt(rules, s, t, k, fuel)
    ensures Known(t) || (Used(rules, known, root, t.rule) && Fitting(rules, t))
  {
    NeedsUses(rules, s, t, k, fuel);
    if !Known(t) {
      UsedNext(rules, known, root, s.rule, t.rule);
      assert WellFormed(rules, known, s.rule);
    }
  }

  // ----- every call in a body is built -----

  predicate CallsTop(frames: seq<Frame>, d: nat, g: string) {
    d < |frames| && frames[d].ListFrame? && frames[d].functionName == Some(g)
  }

  lemma StepKeepsCall(frames: seq<Frame>, t: PegToken, d: nat, g: string)
    requires ValidFrames(frames) && d > 0 && CallsTop(frames, d, g) && G.Step(frames, t).Ok?
    requires t == OPERATOR(')') ==> d < |frames| - 1
    ensures CallsTop(G.Step(frames, t).value, d, g)
  {
    if t == OPERATOR(')') {
      CloseKeepsCall(frames, d, g);
      hide G.CloseBracket, CallsTop;
    }
  }

  lemma CloseKeepsCall(frames: seq<Frame>, d: nat, g: string)
    requires ValidFrames(frames) && 0 < d < |frames| - 1 && CallsTop(frames, d, g) && G.CloseBracket(frames).Ok?
    ensures CallsTop(G.CloseBracket(frames).value, d, g)
  {
    var rest := frames[..|frames| - 1];
    assert CallsTop(rest, d, g);
  }

  lemma FramesEnd(tokens: seq<PegToken>)
    requires G.Parse(tokens).Ok?
    ensures FramesAt(tokens, |tokens|).Ok? && |FramesAt(tokens, |tokens|).value| == 1
  {
    assert tokens[..|tokens|] == tokens;
  }

  /** A call that is open before token `k` is closed there, or still open behind it. */
  lemma CallStaysOpen(tokens: seq<PegToken>, k: nat, d: nat, g: string)
    requires G.Parse(tokens).Ok? && k < |tokens| && FramesAt(tokens, k).Ok?
    requires d > 0 && CallsTop(FramesAt(tokens, k).value, d, g)
    requires tokens[k] == OPERATOR(')') ==> d < |FramesAt(tokens, k).value| - 1
    ensures FramesAt(tokens, k + 1).Ok? && CallsTop(FramesAt(tokens, k + 1).value, d, g)
  {
    var frames := FramesAt(tokens, k).value;
    RunSoFar(tokens, k, frames);
    hide G.Step, G.Run, G.Parse, CallsTop;
    StepKeepsCall(frames, tokens[k], d, g);
  }

  /** A call that is open before token `k` is closed there or later. */
  lemma {:induction false} CallCloses(tokens: seq<PegToken>, k: nat, d: nat, g: string) returns (j: nat)
    requires G.Parse(tokens).Ok? && k <= |tokens| && FramesAt(tokens, k).Ok?
    requires d > 0 && CallsTop(FramesAt(tokens, k).value, d, g)
    ensures k <= j < |tokens| && tokens[j] == OPERATOR(')') && FramesAt(tokens, j).Ok?
    ensures var frames := FramesAt(tokens, j).value; |frames| > 1 && CallsTop(frames, |frames| - 1, g)
    decreases |tokens| - k
  {
    var frames := FramesAt(tokens, k).value;
    FramesEnd(tokens);
    assert d < |frames|;
    hide *;
    if k == |tokens| {
      assert false;
    } else if tokens[k] == OPERATOR(')') && d == |frames| - 1 {
      j := k;
    } else {
      CallStaysOpen(tokens, k, d, g);
      j := CallCloses(tokens, k + 1, d, g);
    }
  }

  lemma {:induction false} FramesExist(tokens: seq<PegToken>, k: nat)
    requires G.Parse(tokens).Ok? && k <= |tokens|
    ensures FramesAt(tokens, k).Ok?
    decreases |tokens| - k
  {
    if k == |tokens| {
      FramesEnd(tokens);
    } else {
      FramesExist(tokens, k + 1);
      FramesBefore(tokens, k + 1);
    }
  }

  /** Called rule `g` was built on the way, with fewer bodies inside one another. */
  ghost predicate BuiltWithin(rules: Rules, g: string, names: set<string>, bound: nat) {
    exists before, fuel: nat :: fuel < bound && BuiltAs(rules, Site(before, g, true), fuel, names)
  }

  predicate BuiltAs(rules: Rules, s: Site, fuel: nat, names: set<string>) {
    Build(rules, s, fuel).Built? && Build(rules, s, fuel).names <= names
  }

  ghost predicate Served(rules: Rules, t: Site, names: set<string>, bound: nat) {
    if t.called then BuiltWithin(rules, t.rule, names, bound) else t.rule in names
  }

  /** All that the body of `h` needs was built. */
  ghost predicate Covered(rules: Rules, h: string, names: set<string>, bound: nat) {
    && (forall g :: Refers(rules, h, g) ==> g in names)
    && (forall g :: Calls(rules, h, g) ==> BuiltWithin(rules, g, names, bound))
  }

  lemma ServedMore(rules: Rules, t: Site, names: set<string>, bound: nat, more: set<string>, larger: nat)
    requires Served(rules, t, names, bound) && names <= more && bound <= larger
    ensures Served(rules, t, more, larger)
  {
    if t.called {
      var before, fuel: nat :| fuel < bound && BuiltAs(rules, Site(before, t.rule, true), fuel, names);
      assert BuiltAs(rules, Site(before, t.rule, true), fuel, more);
    }
  }

  lemma CoveredMore(rules: Rules, h: string, names: set<string>, bound: nat, more: set<string>, larger: nat)
    requires Covered(rules, h, names, bound) && names <= more && bound <= larger
    ensures Covered(rules, h, more, larger)
  {
    forall g | Calls(rules, h, g) ensures BuiltWithin(rules, g, more, larger) {
      ServedMore(rules, Site({}, g, true), names, bound, more, larger);
    }
  }

  /** What token `k` needs, whatever has matchers then. */
  function NeedOf(rules: Rules, s: Site, k: nat): Option<Site>
    requires Opened(rules, s) && k < |Tokens(rules, s)| && FramesAt(Tokens(rules, s), k).Ok?
  {
    Needs(rules[s.rule].parameters, FramesAt(Tokens(rules, s), k).value, Tokens(rules, s)[k], {})
  }

  /** The rules added are covered, and so are the needs of the first `k` tokens. */
  ghost predicate BodyServed(rules: Rules, s: Site, k: nat, names: set<string>, bound: nat)
    requires Opened(rules, s) && k <= |Tokens(rules, s)|
  {
    && (forall h :: h in names && h !in NamesInside(s) ==> Covered(rules, h, names, bound))
    && (forall j :: 0 <= j < k ==>
          FramesAt(Tokens(rules, s), j).Ok? &&
          (NeedOf(rules, s, j).Some? ==> Served(rules, NeedOf(rules, s, j).value, names, bound)))
  }

  lemma BodyServedMore(rules: Rules, s: Site, k: nat, names: set<string>, more: set<string>, bound: nat)
    requires Opened(rules, s) && k <= |Tokens(rules, s)| && BodyServed(rules, s, k, names, bound) && names <= more
    requires forall h :: h in more && h !in names ==> Covered(rules, h, more, bound)
    ensures BodyServed(rules, s, k, more, bound)
  {
    forall h | h in more && h !in NamesInside(s) ensures Covered(rules, h, more, bound) {
      if h in names {
        CoveredMore(rules, h, names, bound, more, bound);
      }
    }
    forall j | 0 <= j < k && NeedOf(rules, s, j).Some?
      ensures Served(rules, NeedOf(rules, s, j).value, more, bound)
    {
      ServedMore(rules, NeedOf(rules, s, j).value, names, bound, more, bound);
    }
  }

  lemma {:induction false} BodyServes(rules: Rules, s: Site, k: nat, fuel: nat)
    requires Opened(rules, s) && k <= |Tokens(rules, s)| && ReadBody(rules, s, k, fuel).Built?
    ensures BodyServed(rules, s, k, ReadBody(rules, s, k, fuel).names, fuel + 1)
    decreases fuel, 1, k
  {
    if k == 0 {
      BodyOfNone(rules, s, fuel);
    } else {
      ReadBefore(rules, s, k, fuel);
      hide *;
      BodyServes(rules, s, k - 1, fuel);
      var names, after := ReadBody(rules, s, k - 1, fuel).names, ReadBody(rules, s, k, fuel).names;
      var needed := NextNeeded(rules, s, k - 1, fuel);
      if needed.Some? {
        NeededServed(rules, needed.value, fuel);
        BodyServedMore(rules, s, k - 1, names, after, fuel + 1);
        ServedMore(rules, needed.value, after, fuel + 1, after, fuel + 1);
      }
      OneMoreServed(rules, s, k, after, fuel + 1, needed, names);
    }
  }

  lemma ReadBefore(rules: Rules, s: Site, k: nat, fuel: nat)
    requires Opened(rules, s) && 0 < k <= |Tokens(rules, s)| && ReadBody(rules, s, k, fuel).Built?
    ensures ReadBody(rules, s, k - 1, fuel).Built? && FramesAt(Tokens(rules, s), k - 1).Ok?
    ensures G.Step(FramesAt(Tokens(rules, s), k - 1).value, Tokens(rules, s)[k - 1]).Ok?
  {
    FramesBefore(Tokens(rules, s), k);
  }

  lemma OneMoreServed(rules: Rules, s: Site, k: nat, names: set<string>, bound: nat, needed: Option<Site>,
                      before: set<string>)
    requires Opened(rules, s) && 0 < k <= |Tokens(rules, s)| && BodyServed(rules, s, k - 1, names, bound)
    requires FramesAt(Tokens(rules, s), k - 1).Ok?
    requires needed == Needs(rules[s.rule].parameters, FramesAt(Tokens(rules, s), k - 1).value, Tokens(rules, s)[k - 1],
                             before)
    requires needed.Some? ==> Served(rules, needed.value, names, bound)
    ensures BodyServed(rules, s, k, names, bound)
  {
    hide Covered, BuiltWithin;
  }

  lemma {:induction false} NeededServed(rules: Rules, t: Site, fuel: nat)
    requires Build(rules, t, fuel).Built?
    ensures var names := Build(rules, t, fuel).names;
            && t.names <= names && Served(rules, t, names, fuel + 1)
            && (forall h :: h in names && h !in t.names ==> Covered(rules, h, names, fuel + 1))
    decreases fuel, 0, 1
  {
    var names := Build(rules, t, fuel).names;
    BuildAdds(rules, t, fuel);
    if t.called {
      assert t == Site(t.names, t.rule, true);
      assert BuiltAs(rules, Site(t.names, t.rule, true), fuel, names);
    }
    if Opened(rules, t) {
      BuildCovers(rules, t, fuel);
      forall h | h in names && h !in t.names ensures Covered(rules, h, names, fuel + 1) {
        CoveredMore(rules, h, names, fuel, names, fuel + 1);
      }
    }
  }

  /** All rules that were added by building a rule are covered, and so is the rule itself. */
  lemma {:induction false} BuildCovers(rules: Rules, s: Site, fuel: nat)
    requires Opened(rules, s) && Build(rules, s, fuel).Built?
    ensures var names := Build(rules, s, fuel).names;
            forall h :: (h in names && h !in s.names) || h == s.rule ==> Covered(rules, h, names, fuel)
    decreases fuel, 0, 0
  {
    var tokens, names := Tokens(rules, s), Build(rules, s, fuel).names;
    BodyServes(rules, s, |tokens|, fuel - 1);
    RuleCovered(rules, s, names, fuel) by {
      assert tokens[..|tokens|] == tokens;
    }
  }

  lemma RuleCovered(rules: Rules, s: Site, names: set<string>, bound: nat)
    requires Opened(rules, s) && G.Parse(Tokens(rules, s)).Ok?
    requires BodyServed(rules, s, |Tokens(rules, s)|, names, bound)
    ensures Covered(rules, s.rule, names, bound)
  {
    var tokens := Tokens(rules, s);
    forall g | Refers(rules, s.rule, g) ensures g in names {
      var j :| 0 <= j < |tokens| && tokens[j] == REFERENCE(g);
      assert NeedOf(rules, s, j) == Some(Site({}, g, false));
    }
    forall g | Calls(rules, s.rule, g) ensures BuiltWithin(rules, g, names, bound) {
      var j0 :| 0 <= j0 < |tokens| && tokens[j0] == FUNCTION_CALL(g);
      FramesExist(tokens, j0);
      var frames := FramesAt(tokens, j0).value;
      RunSoFar(tokens, j0, frames);
      var j := CallCloses(tokens, j0 + 1, |frames|, g);
      assert NeedOf(rules, s, j) == Some(Site({}, g, true));
    }
  }

  // ----- a function that calls itself is never built -----

  lemma {:induction false} PathCovered(rules: Rules, s: Site, fuel: nat, path: seq<string>)
    requires Opened(rules, s) && Build(rules, s, fuel).Built? && !s.called
    requires UsePath(rules, s.names, path) && path[0] == s.rule
    ensures Covered(rules, path[|path| - 1], Build(rules, s, fuel).names, fuel)
    decreases |path|
  {
    var names := Build(rules, s, fuel).names;
    BuildCovers(rules, s, fuel);
    if |path| > 1 {
      var before := path[..|path| - 1];
      var f, g := before[|before| - 1], path[|path| - 1];
      forall k | 0 <= k < |before| - 1 ensures Uses(rules, s.names, before[k], before[k + 1]) {
        assert Uses(rules, s.names, path[k], path[k + 1]);
      }
      PathCovered(rules, s, fuel, before);
      assert Uses(rules, s.names, path[|path| - 2], path[|path| - 2 + 1]);
      if Calls(rules, f, g) {
        CalledCovered(rules, g, names, fuel);
      }
    }
  }

  lemma CalledCovered(rules: Rules, g: string, names: set<string>, bound: nat)
    requires BuiltWithin(rules, g, names, bound)
    ensures Covered(rules, g, names, bound)
  {
    var before, fuel: nat :| fuel < bound && BuiltAs(rules, Site(before, g, true), fuel, names);
    BuildCovers(rules, Site(before, g, true), fuel);
    CoveredMore(rules, g, Build(rules, Site(before, g, true), fuel).names, fuel, names, bound);
  }

  ghost predicate BuiltBelow(rules: Rules, g: string, bound: nat) {
    exists names :: BuiltWithin(rules, g, names, bound)
  }

  /** Along calls, fewer and fewer bodies are inside one another. */
  lemma {:induction false} CallsDescend(rules: Rules, path: seq<string>, names: set<string>, bound: nat)
    requires CallPath(rules, path) && BuiltWithin(rules, path[0], names, bound)
    ensures |path| <= bound && BuiltBelow(rules, path[|path| - 1], bound - (|path| - 1))
    decreases |path|
  {
    if |path| > 1 {
      var before, fuel: nat :| fuel < bound && BuiltAs(rules, Site(before, path[0], true), fuel, names);
      var s := Site(before, path[0], true);
      BuildCovers(rules, s, fuel);
      var inside := Build(rules, s, fuel).names;
      assert Calls(rules, path[0], path[0 + 1]) && Covered(rules, s.rule, inside, fuel);
      var rest := path[1..];
      forall k | 0 <= k < |rest| - 1 ensures Calls(rules, rest[k], rest[k + 1]) {
        assert Calls(rules, path[k + 1], path[k + 2]);
      }
      ServedMore(rules, Site({}, path[1], true), inside, fuel, inside, bound - 1);
      CallsDescend(rules, rest, inside, bound - 1);
    }
  }

  lemma {:induction false} CycleNotBuilt(rules: Rules, path: seq<string>, names: set<string>, bound: nat)
    requires CallPath(rules, path) && |path| > 1 && path[0] == path[|path| - 1]
    ensures !BuiltWithin(rules, path[0], names, bound)
    decreases bound
  {
    if BuiltWithin(rules, path[0], names, bound) {
      CallsDescend(rules, path, names, bound);
      var more :| BuiltWithin(rules, path[|path| - 1], more, bound - (|path| - 1));
      CycleNotBuilt(rules, path, more, bound - (|path| - 1));
    }
  }

  lemma SelfCallerNotCovered(rules: Rules, f: string, names: set<string>, bound: nat)
    requires CallsItself(rules, f)
    ensures !Covered(rules, f, names, bound)
  {
    if Covered(rules, f, names, bound) {
      var path :| CallPath(rules, path) && |path| > 1 && path[0] == f && path[|path| - 1] == f;
      assert Calls(rules, path[0], path[0 + 1]);
      var rest := path[1..];
      forall k | 0 <= k < |rest| - 1 ensures Calls(rules, rest[k], rest[k + 1]) {
        assert Calls(rules, path[k + 1], path[k + 2]);
      }
      CallsDescend(rules, rest, names, bound);
      var more :| BuiltWithin(rules, rest[|rest| - 1], more, bound - (|rest| - 1));
      CycleNotBuilt(rules, path, more, bound - (|rest| - 1));
    }
  }

  /** When everything a root rule uses is well formed, building it ends exactly if none of the rules it uses calls
      itself; all of them are built then. */
  lemma WellFormedEndsExactly(rules: Rules, known: set<string>, root: string)
    requires WellFormedFrom(rules, known, root) && root !in known
    ensures var s := Site(known, root, false);
            && (Ends(rules, s) <==> forall f :: Used(rules, known, root, f) ==> !CallsItself(rules, f))
            && (Ends(rules, s) ==> Build(rules, s, Limit(rules)).Built?)
  {
    var s := Site(known, root, false);
    assert UsePath(rules, known, [root]);
    assert Used(rules, known, root, root);
    BuildingEndsExactly(rules, s);
    if Ends(rules, s) {
      NoFailure(rules, known, root, s, Limit(rules));
      forall f | Used(rules, known, root, f) ensures !CallsItself(rules, f) {
        var path :| UsePath(rules, known, path) && path[0] == root && path[|path| - 1] == f;
        PathCovered(rules, s, Limit(rules), path);
        if CallsItself(rules, f) {
          SelfCallerNotCovered(rules, f, Build(rules, s, Limit(rules)).names, Limit(rules));
        }
      }
    } else if forall f :: Used(rules, known, root, f) ==> !CallsItself(rules, f) {
      NoCallCycleEnds(rules, known, root);
    }
  }

  lemma UsesSome(rules: Rules, known: set<string>, root: string, f: string)
    requires Used(rules, known, root, f) && f != root
    ensures exists g :: Uses(rules, known, root, g)
  {
    var path :| UsePath(rules, known, path) && path[0] == root && path[|path| - 1] == f;
    assert Uses(rules, known, path[0], path[0 + 1]);
  }

  lemma CallsSome(rules: Rules, f: string)
    requires CallsItself(rules, f)
    ensures exists g :: Calls(rules, f, g)
  {
    var path :| CallPath(rules, path) && |path| > 1 && path[0] == f && path[|path| - 1] == f;
    assert Calls(rules, path[0], path[0 + 1]);
  }

  /** A function whose body calls it. */
  const AGAIN: Rule := Rule(["A"], [FUNCTION_CALL("Again"), REFERENCE("A"), OPERATOR(')')])

  lemma AgainNeedsAgain(rules: Rules, names: set<string>)
    requires "Again" in rules && rules["Again"] == AGAIN
    ensures Makes(rules, Site(names, "Again", true), Site(names, "Again", true))
  {
    var s, tokens := Site(names, "Again", true), AGAIN.tokens;
    var f0 := EMPTY_STACK;
    var f1 := f0 + [ListFrame([], Some("Again"))];
    assert tokens[..0] == [];
    RunSoFar(tokens, 0, f0);
    RunSoFar(tokens, 1, f1);
    BodyTurn(rules, s, 0, 0, names, f0);
    BodyTurn(rules, s, 1, 0, names, f1);
    assert NeedsAt(rules, s, s, 2, 0);
  }

  /** Building it never ends; but a grammar that has it and does not use it is built. */
  lemma SelfCallExample(names: set<string>)
    ensures var rules := map["Again" := AGAIN, "Root" := Rule([], [LITERAL("x")])];
            !Ends(rules, Site(names, "Again", true)) && Ends(rules, Site(names, "Root", false))
  {
    var rules := map["Again" := AGAIN, "Root" := Rule([], [LITERAL("x")])];
    var s := Site(names, "Again", true);
    AgainNeedsAgain(rules, names);
    assert Chain(rules, [s, s]) && Returns([s, s], 0);
    LoopNeverEnds(rules, s);
    forall f | Used(rules, names, "Root", f) ensures !CallsItself(rules, f) {
      if f != "Root" {
        UsesSome(rules, names, "Root", f);
        assert false;
      } else if CallsItself(rules, f) {
        CallsSome(rules, f);
        assert false;
      }
    }
    NoCallCycleEnds(rules, names, "Root");
  }
}
