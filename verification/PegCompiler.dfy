/** Compiling grammar rules into the graph of matchers: the matcher of a rule is created once, before its body is
    read, so that rules may refer to each other. */
module PegCompiler {
  import opened Sequences
  import opened G = PegGrammar
  import M = PegMatcher

  datatype BuildError =
    | MissingRule(rule: string)
    | TooManyParameters(rule: string)
    | ParameterCount(rule: string, given: nat)
    | BadBody(rule: string, error: GrammarError)

  type BuildResult = Result<nat, BuildError>

  /** An error names a rule that is really wrong in that way. */
  predicate Blames(rules: Rules, e: BuildError) {
    match e
    case MissingRule(name) => name !in rules
    case TooManyParameters(name) => name in rules && |rules[name].parameters| > 1
    case ParameterCount(name, given) => name in rules && |rules[name].parameters| != given
    case BadBody(name, error) => name in rules && G.Parse(rules[name].tokens) == Err(error)
  }

  // ----- the matchers under construction -----

  /** Where a matcher comes from: it is still being filled, it is finished, or it is the matcher of a rule, with the
      argument it was called with if it is a function. */
  datatype Maker = Open | Done | Instance(rule: string, argument: Option<nat>)

  datatype Arena = Arena(nodes: seq<M.Matcher>, cache: map<string, nat>, made: seq<Maker>)

  function Add(a: Arena, node: M.Matcher, maker: Maker): Arena {
    Arena(a.nodes + [node], a.cache, a.made + [maker])
  }

  function Put(a: Arena, n: nat, node: M.Matcher): Arena
    requires n < |a.nodes|
  {
    a.(nodes := a.nodes[n := node])
  }

  function Finish(a: Arena, n: nat): Arena
    requires n < |a.made|
  {
    a.(made := a.made[n := Done])
  }

  /** The parameter names of the rule being read and the argument they stand for, and the keywords that have matchers
      of their own. */
  datatype Scope = Scope(parameters: seq<string>, argument: Option<nat>, keywords: string -> Option<nat>)

  predicate ValidScope(scope: Scope) {
    |scope.parameters| == if scope.argument.Some? then 1 else 0
  }

  // ----- what matcher stands for what item -----

  predicate Finished(a: Arena, n: nat) {
    n < |a.nodes| == |a.made| && a.made[n] == Done
  }

  /** Matcher `n` stands for an item: it has the item's shape, a reference is the argument or the one matcher of the
      rule, and a call is a matcher made for that rule with that argument. */
  predicate Fits(a: Arena, scope: Scope, n: nat, x: Item)
    decreases x, 0
  {
    match x
    case Literal(text) =>
      if scope.keywords(text).Some? then n == scope.keywords(text).value
      else Finished(a, n) && a.nodes[n] == M.LeafMatcher(M.Keyword(text))
    case Reference(name) =>
      if name in scope.parameters then scope.argument == Some(n) else name in a.cache && a.cache[name] == n
    case Call(name, arguments) =>
      && n < |a.made| && a.made[n].Instance? && a.made[n].rule == name && a.made[n].argument.Some?
      && Argument(a, scope, a.made[n].argument.value, arguments)
    case Group(items) => Finished(a, n) && a.nodes[n].ListMatcher? && AllFit(a, scope, a.nodes[n].matchers, items)
    case Optional(item) => Finished(a, n) && a.nodes[n].OptionalMatcher? && Fits(a, scope, a.nodes[n].matcher, item)
    case Star(item) =>
      && Finished(a, n) && a.nodes[n].OptionalMatcher?
      && Finished(a, a.nodes[n].matcher) && a.nodes[a.nodes[n].matcher].RepeatMatcher?
      && Fits(a, scope, a.nodes[a.nodes[n].matcher].element, item)
    case Choice(first, None) =>
      && Finished(a, n) && a.nodes[n].ChoiceMatcher? && |a.nodes[n].choices| == 1
      && Fits(a, scope, a.nodes[n].choices[0], first)
    case Choice(first, Some(second)) =>
      && Finished(a, n) && a.nodes[n].ChoiceMatcher? && |a.nodes[n].choices| == 2
      && Fits(a, scope, a.nodes[n].choices[0], first) && Fits(a, scope, a.nodes[n].choices[1], second)
  }

  /** More than one argument is passed as a list. */
  predicate Argument(a: Arena, scope: Scope, q: nat, xs: seq<Item>)
    decreases xs, 1
  {
    if |xs| == 1 then Fits(a, scope, q, xs[0])
    else Finished(a, q) && a.nodes[q].ListMatcher? && AllFit(a, scope, a.nodes[q].matchers, xs)
  }

  predicate AllFit(a: Arena, scope: Scope, ns: seq<nat>, xs: seq<Item>)
    decreases xs, 0
  {
    |ns| == |xs| && forall k :: 0 <= k < |xs| ==> Fits(a, scope, ns[k], xs[k])
  }

  /** The matcher of a rule is the list of what its body says. */
  ghost predicate Complete(a: Arena, rules: Rules, keywords: string -> Option<nat>, n: nat)
    requires n < |a.nodes| == |a.made| && a.made[n].Instance?
  {
    var name, argument := a.made[n].rule, a.made[n].argument;
    && name in rules && ValidScope(Scope(rules[name].parameters, argument, keywords))
    && G.Parse(rules[name].tokens).Ok? && a.nodes[n].ListMatcher?
    && AllFit(a, Scope(rules[name].parameters, argument, keywords), a.nodes[n].matchers, G.Parse(rules[name].tokens).value)
  }

  // ----- what later steps keep -----

  /** Everything finished stays as it is, apart from the body of rule matcher `root`, which is being read. */
  ghost predicate Keeps(a: Arena, b: Arena, root: nat) {
    && |a.made| == |a.nodes| <= |b.nodes| == |b.made|
    && (forall n :: 0 <= n < |a.nodes| && a.made[n] != Open ==> b.made[n] == a.made[n])
    && (forall n :: 0 <= n < |a.nodes| && a.made[n] == Open ==> !b.made[n].Instance?)
    && (forall n :: 0 <= n < |a.nodes| && a.made[n] != Open && n != root ==> b.nodes[n] == a.nodes[n])
    && (forall name :: name in a.cache ==> name in b.cache && b.cache[name] == a.cache[name])
  }

  lemma {:induction false} FitsKept(a: Arena, b: Arena, root: nat, scope: Scope, n: nat, x: Item)
    requires Keeps(a, b, root) && root < |a.nodes| && a.made[root].Instance? && Fits(a, scope, n, x)
    ensures Fits(b, scope, n, x)
    decreases x, 0
  {
    match x
    case Literal(_) =>
    case Reference(_) =>
    case Call(_, arguments) => ArgumentKept(a, b, root, scope, a.made[n].argument.value, arguments);
    case Group(items) => AllFitKept(a, b, root, scope, a.nodes[n].matchers, items);
    case Optional(item) => FitsKept(a, b, root, scope, a.nodes[n].matcher, item);
    case Star(item) => FitsKept(a, b, root, scope, a.nodes[a.nodes[n].matcher].element, item);
    case Choice(first, None) => FitsKept(a, b, root, scope, a.nodes[n].choices[0], first);
    case Choice(first, Some(second)) =>
      FitsKept(a, b, root, scope, a.nodes[n].choices[0], first);
      FitsKept(a, b, root, scope, a.nodes[n].choices[1], second);
  }

  lemma {:induction false} ArgumentKept(a: Arena, b: Arena, root: nat, scope: Scope, q: nat, xs: seq<Item>)
    requires Keeps(a, b, root) && root < |a.nodes| && a.made[root].Instance? && Argument(a, scope, q, xs)
    ensures Argument(b, scope, q, xs)
    decreases xs, 1
  {
    if |xs| == 1 {
      FitsKept(a, b, root, scope, q, xs[0]);
    } else {
      AllFitKept(a, b, root, scope, a.nodes[q].matchers, xs);
    }
  }

  lemma {:induction false} AllFitKept(a: Arena, b: Arena, root: nat, scope: Scope, ns: seq<nat>, xs: seq<Item>)
    requires Keeps(a, b, root) && root < |a.nodes| && a.made[root].Instance? && AllFit(a, scope, ns, xs)
    ensures AllFit(b, scope, ns, xs)
    decreases xs, 0
  {
    forall k | 0 <= k < |xs| ensures Fits(b, scope, ns[k], xs[k]) {
      FitsKept(a, b, root, scope, ns[k], xs[k]);
    }
  }

  lemma CompleteKept(a: Arena, b: Arena, root: nat, rules: Rules, keywords: string -> Option<nat>, n: nat)
    requires Keeps(a, b, root) && root < |a.nodes| && a.made[root].Instance?
    requires n < |a.nodes| && n != root && a.made[n].Instance? && Complete(a, rules, keywords, n)
    ensures Complete(b, rules, keywords, n)
  {
    var name, argument := a.made[n].rule, a.made[n].argument;
    AllFitKept(a, b, root, Scope(rules[name].parameters, argument, keywords), a.nodes[n].matchers,
               G.Parse(rules[name].tokens).value);
  }

  // ----- the stack of lists and choices -----

  datatype MatcherListEntry = MatcherListEntry(matcher: nat, functionName: Option<string>)

  /** The top entry holds what the top frame says; `waiting` is the choice above it that is its last member. */
  predicate EntryFits(a: Arena, scope: Scope, e: MatcherListEntry, f: Frame, waiting: Option<nat>) {
    && e.matcher < |a.nodes|
    && match f
       case ListFrame(items, name) =>
         && e.functionName == name && a.nodes[e.matcher].ListMatcher?
         && var kids := a.nodes[e.matcher].matchers;
         if waiting.Some? then
           |kids| == |items| + 1 && kids[|items|] == waiting.value && AllFit(a, scope, kids[..|items|], items)
         else
           AllFit(a, scope, kids, items)
       case ChoiceFrame(first) =>
         && e.functionName == None && a.nodes[e.matcher].ChoiceMatcher? && |a.nodes[e.matcher].choices| == 1
         && Fits(a, scope, a.nodes[e.matcher].choices[0], first)
  }

  predicate StackFits(a: Arena, scope: Scope, entries: seq<MatcherListEntry>, frames: seq<Frame>, waiting: Option<nat>) {
    && |entries| == |frames|
    && (frames == [] ||
        var top := |frames| - 1;
        && EntryFits(a, scope, entries[top], frames[top], waiting)
        && StackFits(a, scope, entries[..top], frames[..top],
                     if frames[top].ChoiceFrame? then Some(entries[top].matcher) else None))
  }

  function Ids(entries: seq<MatcherListEntry>): set<nat> {
    set k | 0 <= k < |entries| :: entries[k].matcher
  }

  /** A stack that is unchanged by a step. */
  lemma {:induction false} StackKept(a: Arena, b: Arena, root: nat, scope: Scope, entries: seq<MatcherListEntry>,
                                     frames: seq<Frame>, waiting: Option<nat>)
    requires Keeps(a, b, root) && root < |a.nodes| && a.made[root].Instance?
    requires StackFits(a, scope, entries, frames, waiting)
    requires forall n :: n in Ids(entries) && n < |a.nodes| ==> b.nodes[n] == a.nodes[n]
    ensures StackFits(b, scope, entries, frames, waiting)
    decreases |frames|
  {
    if frames != [] {
      var top := |frames| - 1;
      EntryKept(a, b, root, scope, entries[top], frames[top], waiting) by {
        assert entries[top].matcher in Ids(entries);
      }
      assert forall n :: n in Ids(entries[..top]) ==> n in Ids(entries);
      StackKept(a, b, root, scope, entries[..top], frames[..top],
                if frames[top].ChoiceFrame? then Some(entries[top].matcher) else None);
    }
  }

  lemma EntryKept(a: Arena, b: Arena, root: nat, scope: Scope, e: MatcherListEntry, f: Frame, waiting: Option<nat>)
    requires Keeps(a, b, root) && root < |a.nodes| && a.made[root].Instance?
    requires EntryFits(a, scope, e, f, waiting) && b.nodes[e.matcher] == a.nodes[e.matcher]
    ensures EntryFits(b, scope, e, f, waiting)
  {
    match f
    case ListFrame(items, name) =>
      var kids := a.nodes[e.matcher].matchers;
      AllFitKept(a, b, root, scope, if waiting.Some? then kids[..|items|] else kids, items);
    case ChoiceFrame(first) => FitsKept(a, b, root, scope, a.nodes[e.matcher].choices[0], first);
  }

  // ----- the state of a rule being read -----

  /** The matchers, and the stack of lists and choices that wait for more. */
  datatype Work = Work(arena: Arena, entries: seq<MatcherListEntry>)

  /** The entries of the stack were created in order and are unfinished; the lowest is the matcher of the rule. */
  predicate StackOpen(w: Work, root: nat) {
    && |w.arena.made| == |w.arena.nodes| && root < |w.arena.nodes| && w.arena.made[root].Instance?
    && |w.entries| > 0 && w.entries[0] == MatcherListEntry(root, None)
    && (forall k :: 0 < k < |w.entries| ==>
          w.entries[k].matcher < |w.arena.nodes| && w.arena.made[w.entries[k].matcher] == Open)
    && (forall j, k :: 0 <= j < k < |w.entries| ==> w.entries[j].matcher < w.entries[k].matcher)
  }

  /** A stack that holds what the frames say. */
  predicate Represents(w: Work, scope: Scope, root: nat, frames: seq<Frame>) {
    ValidFrames(frames) && StackOpen(w, root) && StackFits(w.arena, scope, w.entries, frames, None)
  }

  predicate ChildrenBelow(node: M.Matcher, size: nat) {
    match node
    case LeafMatcher(_) => true
    case ListMatcher(ms) => forall k :: 0 <= k < |ms| ==> ms[k] < size
    case OptionalMatcher(c) => c < size
    case ChoiceMatcher(cs) => forall k :: 0 <= k < |cs| ==> cs[k] < size
    case RepeatMatcher(c) => c < size
  }

  ghost predicate InRange(a: Arena) {
    |a.made| == |a.nodes| && forall n :: 0 <= n < |a.nodes| ==> ChildrenBelow(a.nodes[n], |a.nodes|)
  }

  /** Matchers refer to matchers, and every rule without parameters has exactly one matcher, the one in the cache. */
  ghost predicate Sound(a: Arena, builtins: map<string, nat>) {
    && InRange(a)
    && (forall name :: name in builtins ==> name in a.cache && a.cache[name] == builtins[name])
    && (forall name :: name in a.cache ==> a.cache[name] < |a.nodes|)
    && (forall name :: name in a.cache && name !in builtins ==> a.made[a.cache[name]] == Instance(name, None))
    && (forall n :: 0 <= n < |a.nodes| && a.made[n].Instance? && a.made[n].argument == None ==>
          a.made[n].rule in a.cache && a.cache[a.made[n].rule] == n)
  }

  /** `b` has all of `a`, unchanged. */
  ghost predicate Extends(a: Arena, b: Arena) {
    && |a.made| == |a.nodes| <= |b.nodes| == |b.made|
    && (forall n :: 0 <= n < |a.nodes| ==> b.nodes[n] == a.nodes[n] && b.made[n] == a.made[n])
    && (forall name :: name in a.cache ==> name in b.cache && b.cache[name] == a.cache[name])
  }

  // ----- one step of the stack -----

  predicate Usable(w: Work) {
    |w.entries| > 0 && w.entries[|w.entries| - 1].matcher < |w.arena.nodes| == |w.arena.made|
  }

  /** AddMatcher: into the list on top, or into the choice on top, which is then finished. */
  function AddTo(w: Work, m: nat): Work
    requires Usable(w)
  {
    var top := |w.entries| - 1;
    var n := w.entries[top].matcher;
    match w.arena.nodes[n]
    case ListMatcher(ms) => w.(arena := Put(w.arena, n, M.ListMatcher(ms + [m])))
    case ChoiceMatcher(cs) => Work(Finish(Put(w.arena, n, M.ChoiceMatcher(cs + [m])), n), w.entries[..top])
    case _ => w
  }

  lemma AllFitSnoc(a: Arena, scope: Scope, ns: seq<nat>, xs: seq<Item>, n: nat, x: Item)
    requires AllFit(a, scope, ns, xs) && Fits(a, scope, n, x)
    ensures AllFit(a, scope, ns + [n], xs + [x])
  {
    forall k | 0 <= k < |xs| + 1 ensures Fits(a, scope, (ns + [n])[k], (xs + [x])[k]) {
      if k < |xs| {
        assert (ns + [n])[k] == ns[k] && (xs + [x])[k] == xs[k];
      }
    }
  }

  /** Replacing an unfinished matcher keeps everything finished. */
  lemma PutKeeps(w: Work, root: nat, n: nat, node: M.Matcher, done: bool)
    requires StackOpen(w, root) && n in Ids(w.entries) && (done ==> n != root)
    ensures n < |w.arena.nodes|
    ensures Keeps(w.arena, Put(w.arena, n, node), root)
    ensures done ==> Keeps(w.arena, Finish(Put(w.arena, n, node), n), root)
  {
  }

  /** The list on top gets other members, the last of which may be a choice that is pushed next. */
  lemma TopListBecomes(w: Work, scope: Scope, root: nat, frames: seq<Frame>, ns: seq<nat>, xs: seq<Item>,
                       waiting: Option<nat>)
    requires Represents(w, scope, root, frames) && frames[|frames| - 1].ListFrame? && AllFit(w.arena, scope, ns, xs)
    ensures var top := |frames| - 1; var n := w.entries[top].matcher;
            var b := Put(w.arena, n, M.ListMatcher(ns + if waiting.Some? then [waiting.value] else []));
            var after := frames[top := ListFrame(xs, frames[top].functionName)];
            && Keeps(w.arena, b, root) && StackOpen(Work(b, w.entries), root) && ValidFrames(after)
            && StackFits(b, scope, w.entries, after, waiting)
  {
    var a, top := w.arena, |frames| - 1;
    var n := w.entries[top].matcher;
    var kids := ns + if waiting.Some? then [waiting.value] else [];
    var b := Put(a, n, M.ListMatcher(kids));
    var after := frames[top := ListFrame(xs, frames[top].functionName)];
    TopIsList(w, scope, root, frames);
    hide AllFit, Fits, Keeps, StackFits, StackOpen, Represents, ValidFrames;
    PutKeeps(w, root, n, M.ListMatcher(kids), false);
    AllFitKept(a, b, root, scope, ns, xs);
    BelowKept(w, scope, root, frames, b);
    LengthOfFit(a, scope, ns, xs);
    assert kids[..|xs|] == ns && after[..top] == frames[..top];
    PutStaysOpen(w, root, n, M.ListMatcher(kids));
    ListReplaced(frames, xs);
    TopFits(b, scope, w.entries, after, waiting);
  }

  lemma TopIsList(w: Work, scope: Scope, root: nat, frames: seq<Frame>)
    requires Represents(w, scope, root, frames) && frames[|frames| - 1].ListFrame?
    ensures var top := |frames| - 1;
            && ValidFrames(frames) && StackOpen(w, root) && |w.entries| == |frames|
            && w.entries[top].matcher in Ids(w.entries) && w.entries[top].matcher < |w.arena.nodes|
            && w.entries[top].functionName == frames[top].functionName
            && root < |w.arena.nodes| && w.arena.made[root].Instance?
  {
  }

  lemma PutStaysOpen(w: Work, root: nat, n: nat, node: M.Matcher)
    requires StackOpen(w, root) && n < |w.arena.nodes|
    ensures StackOpen(Work(Put(w.arena, n, node), w.entries), root)
  {
  }

  lemma ListReplaced(frames: seq<Frame>, xs: seq<Item>)
    requires ValidFrames(frames) && frames[|frames| - 1].ListFrame?
    ensures ValidFrames(frames[|frames| - 1 := ListFrame(xs, frames[|frames| - 1].functionName)])
  {
  }

  /** A stack fits if its top does and what is below it. */
  lemma TopFits(a: Arena, scope: Scope, entries: seq<MatcherListEntry>, frames: seq<Frame>, waiting: Option<nat>)
    requires |entries| == |frames| > 0 && EntryFits(a, scope, entries[|frames| - 1], frames[|frames| - 1], waiting)
    requires var top := |frames| - 1;
             StackFits(a, scope, entries[..top], frames[..top],
                       if frames[top].ChoiceFrame? then Some(entries[top].matcher) else None)
    ensures StackFits(a, scope, entries, frames, waiting)
  {
  }

  lemma LengthOfFit(a: Arena, scope: Scope, ns: seq<nat>, xs: seq<Item>)
    requires AllFit(a, scope, ns, xs)
    ensures |ns| == |xs|
  {
  }

  lemma AddToList(w: Work, scope: Scope, root: nat, frames: seq<Frame>, m: nat, x: Item)
    requires Represents(w, scope, root, frames) && Fits(w.arena, scope, m, x) && frames[|frames| - 1].ListFrame?
    ensures Represents(AddTo(w, m), scope, root, AddItem(frames, x)) && Keeps(w.arena, AddTo(w, m).arena, root)
  {
    var top := |frames| - 1;
    var kids := w.arena.nodes[w.entries[top].matcher].matchers;
    AllFitSnoc(w.arena, scope, kids, frames[top].items, m, x);
    assert kids + [m] + [] == kids + [m];
    hide AllFit, Fits, Keeps;
    TopListBecomes(w, scope, root, frames, kids + [m], frames[top].items + [x], None);
  }

  /** The stack below the top entry, when only the top entry changes. */
  lemma BelowKept(w: Work, scope: Scope, root: nat, frames: seq<Frame>, b: Arena)
    requires Represents(w, scope, root, frames) && Keeps(w.arena, b, root)
    requires forall n :: 0 <= n < |w.arena.nodes| && n != w.entries[|frames| - 1].matcher ==> b.nodes[n] == w.arena.nodes[n]
    ensures var top := |frames| - 1;
            StackFits(b, scope, w.entries[..top], frames[..top],
                      if frames[top].ChoiceFrame? then Some(w.entries[top].matcher) else None)
  {
    var top := |frames| - 1;
    StackKept(w.arena, b, root, scope, w.entries[..top], frames[..top],
              if frames[top].ChoiceFrame? then Some(w.entries[top].matcher) else None);
  }

  /** The stack without its top entry, which is finished. */
  lemma Popped(w: Work, root: nat, node: M.Matcher)
    requires StackOpen(w, root) && |w.entries| > 1
    ensures var top := |w.entries| - 1; var n := w.entries[top].matcher;
            && n in Ids(w.entries) && n != root && n < |w.arena.nodes|
            && StackOpen(Work(Finish(Put(w.arena, n, node), n), w.entries[..top]), root)
  {
  }

  lemma ChoiceFits(a: Arena, scope: Scope, n: nat, k: nat, m: nat, x: Item, y: Item)
    requires Finished(a, n) && a.nodes[n] == M.ChoiceMatcher([k, m]) && Fits(a, scope, k, x) && Fits(a, scope, m, y)
    ensures Fits(a, scope, n, Choice(x, Some(y)))
  {
  }

  /** The choice on top gets its other side. */
  lemma FillChoice(w: Work, scope: Scope, root: nat, frames: seq<Frame>, m: nat, x: Item)
    requires Represents(w, scope, root, frames) && Fits(w.arena, scope, m, x) && frames[|frames| - 1].ChoiceFrame?
    ensures var top := |frames| - 1; var n, r := w.entries[top].matcher, AddTo(w, m);
            && r.entries == w.entries[..top] && Keeps(w.arena, r.arena, root) && StackOpen(r, root)
            && Fits(r.arena, scope, n, Choice(frames[top].first, Some(x)))
            && StackFits(r.arena, scope, r.entries, frames[..top], Some(n))
  {
    var a, top := w.arena, |frames| - 1;
    var n, first := w.entries[top].matcher, frames[top].first;
    assert a.nodes[n].ChoiceMatcher? && |a.nodes[n].choices| == 1 && Fits(a, scope, a.nodes[n].choices[0], first);
    assert |w.entries| == |frames| > 1 && root < |a.nodes| && a.made[root].Instance?;
    hide *;
    var k := a.nodes[n].choices[0];
    AddToChoiceIs(w, root, m);
    var b := AddTo(w, m).arena;
    Popped(w, root, M.ChoiceMatcher([k, m]));
    PutKeeps(w, root, n, M.ChoiceMatcher([k, m]), true);
    FitsKept(a, b, root, scope, k, first);
    FitsKept(a, b, root, scope, m, x);
    FilledChoice(w, scope, root, frames, k, m, x);
  }

  /** The choice on top is complete, and what is below it stays as it is. */
  lemma FilledChoice(w: Work, scope: Scope, root: nat, frames: seq<Frame>, k: nat, m: nat, x: Item)
    requires Represents(w, scope, root, frames) && frames[|frames| - 1].ChoiceFrame? && |w.entries| == |frames|
    requires var top := |frames| - 1; var n := w.entries[top].matcher;
             n < |w.arena.nodes| == |w.arena.made|
             && var b := Finish(Put(w.arena, n, M.ChoiceMatcher([k, m])), n);
             Keeps(w.arena, b, root) && Fits(b, scope, k, frames[top].first) && Fits(b, scope, m, x)
    ensures var top := |frames| - 1; var n := w.entries[top].matcher;
            var b := Finish(Put(w.arena, n, M.ChoiceMatcher([k, m])), n);
            && Fits(b, scope, n, Choice(frames[top].first, Some(x)))
            && StackFits(b, scope, w.entries[..top], frames[..top], Some(n))
  {
    var top := |frames| - 1;
    var n := w.entries[top].matcher;
    var b := Finish(Put(w.arena, n, M.ChoiceMatcher([k, m])), n);
    hide *;
    FinishedNow(w.arena, n, M.ChoiceMatcher([k, m]));
    ChoiceFits(b, scope, n, k, m, frames[top].first, x);
    BelowKept(w, scope, root, frames, b);
  }

  lemma AddToChoiceIs(w: Work, root: nat, m: nat)
    requires StackOpen(w, root) && |w.entries| > 1
    requires var n := w.entries[|w.entries| - 1].matcher;
             w.arena.nodes[n].ChoiceMatcher? && |w.arena.nodes[n].choices| == 1
    ensures var top := |w.entries| - 1; var n := w.entries[top].matcher;
            AddTo(w, m) == Work(Finish(Put(w.arena, n, M.ChoiceMatcher([w.arena.nodes[n].choices[0], m])), n),
                                w.entries[..top])
  {
    var cs := w.arena.nodes[w.entries[|w.entries| - 1].matcher].choices;
    assert cs + [m] == [cs[0], m];
  }

  lemma FinishedNow(a: Arena, n: nat, node: M.Matcher)
    requires n < |a.nodes| == |a.made|
    ensures var b := Finish(Put(a, n, node), n);
            && Finished(b, n) && b.nodes[n] == node
            && (forall j :: 0 <= j < |a.nodes| && j != n ==> b.nodes[j] == a.nodes[j])
  {
  }

  lemma AddToChoice(w: Work, scope: Scope, root: nat, frames: seq<Frame>, m: nat, x: Item)
    requires Represents(w, scope, root, frames) && Fits(w.arena, scope, m, x) && frames[|frames| - 1].ChoiceFrame?
    ensures Represents(AddTo(w, m), scope, root, AddItem(frames, x)) && Keeps(w.arena, AddTo(w, m).arena, root)
  {
    var top := |frames| - 1;
    FillChoice(w, scope, root, frames, m, x);
    AddItemToChoice(frames, x);
    hide *;
    ClaimWaiting(AddTo(w, m), scope, root, frames[..top], w.entries[top].matcher, Choice(frames[top].first, Some(x)));
  }

  lemma AddItemToChoice(frames: seq<Frame>, x: Item)
    requires ValidFrames(frames) && frames[|frames| - 1].ChoiceFrame?
    ensures var top := |frames| - 1;
            && ValidFrames(frames[..top]) && frames[top - 1].ListFrame?
            && AddItem(frames, x) == Append(frames[..top], Choice(frames[top].first, Some(x)))
  {
  }

  /** When the last member of a list is finished, it is an item of the list. */
  lemma ClaimWaiting(w: Work, scope: Scope, root: nat, frames: seq<Frame>, n: nat, x: Item)
    requires ValidFrames(frames) && frames[|frames| - 1].ListFrame? && StackOpen(w, root)
    requires StackFits(w.arena, scope, w.entries, frames, Some(n)) && Fits(w.arena, scope, n, x)
    ensures Represents(w, scope, root, Append(frames, x))
  {
    var top := |frames| - 1;
    var items, kids := frames[top].items, w.arena.nodes[w.entries[top].matcher].matchers;
    AllFitSnoc(w.arena, scope, kids[..|items|], items, n, x);
    assert kids[..|items|] + [n] == kids;
    assert Append(frames, x)[..top] == frames[..top];
    hide AllFit, Fits;
  }

  lemma AddToFits(w: Work, scope: Scope, root: nat, frames: seq<Frame>, m: nat, x: Item)
    requires Represents(w, scope, root, frames) && Fits(w.arena, scope, m, x)
    ensures Represents(AddTo(w, m), scope, root, AddItem(frames, x)) && Keeps(w.arena, AddTo(w, m).arena, root)
  {
    if frames[|frames| - 1].ListFrame? {
      AddToList(w, scope, root, frames, m, x);
    } else {
      AddToChoice(w, scope, root, frames, m, x);
    }
  }

  /** A new matcher beside the stack. */
  lemma AddKeeps(w: Work, scope: Scope, root: nat, frames: seq<Frame>, node: M.Matcher, maker: Maker)
    requires Represents(w, scope, root, frames)
    ensures var b := Add(w.arena, node, maker);
            && Keeps(w.arena, b, root) && Represents(Work(b, w.entries), scope, root, frames)
            && b.nodes[|w.arena.nodes|] == node && b.made[|w.arena.nodes|] == maker
  {
    StackKept(w.arena, Add(w.arena, node, maker), root, scope, w.entries, frames, None);
  }

  /** A new list on the stack. */
  function PushList(w: Work, name: Option<string>): Work {
    Work(Add(w.arena, M.ListMatcher([]), Open), w.entries + [MatcherListEntry(|w.arena.nodes|, name)])
  }

  lemma PushListFits(w: Work, scope: Scope, root: nat, frames: seq<Frame>, name: Option<string>)
    requires Represents(w, scope, root, frames)
    ensures Represents(PushList(w, name), scope, root, frames + [ListFrame([], name)])
    ensures Keeps(w.arena, PushList(w, name).arena, root)
  {
    AddKeeps(w, scope, root, frames, M.ListMatcher([]), Open);
    assert (w.entries + [MatcherListEntry(|w.arena.nodes|, name)])[..|frames|] == w.entries;
    assert (frames + [ListFrame([], name)])[..|frames|] == frames;
    hide Fits, Keeps;
  }

  function LastOfTop(w: Work): Option<nat>
    requires Usable(w)
  {
    var node := w.arena.nodes[w.entries[|w.entries| - 1].matcher];
    if node.ListMatcher? && node.matchers != [] then Some(node.matchers[|node.matchers| - 1]) else None
  }

  /** The last member of the list on top is replaced. */
  function ReplaceLast(w: Work, m: nat): Work
    requires Usable(w) && LastOfTop(w).Some?
  {
    var n := w.entries[|w.entries| - 1].matcher;
    var kids := w.arena.nodes[n].matchers;
    w.(arena := Put(w.arena, n, M.ListMatcher(kids[..|kids| - 1] + [m])))
  }

  function AddNode(w: Work, node: M.Matcher, maker: Maker): (r: Work)
    requires Usable(w)
    ensures Usable(r) && LastOfTop(r) == LastOfTop(w)
  {
    w.(arena := Add(w.arena, node, maker))
  }

  /** `?` and `*`: a matcher around the last member of the list on top takes its place. */
  function WrapLastOf(w: Work, star: bool): Work
    requires Usable(w) && LastOfTop(w).Some?
  {
    var last := LastOfTop(w).value;
    var w1 := if star then AddNode(w, M.RepeatMatcher(last), Done) else w;
    var inner := if star then |w.arena.nodes| else last;
    ReplaceLast(AddNode(w1, M.OptionalMatcher(inner), Done), |w1.arena.nodes|)
  }

  lemma LastFits(w: Work, scope: Scope, root: nat, frames: seq<Frame>)
    requires Represents(w, scope, root, frames)
    ensures Usable(w)
    ensures LastOfTop(w).Some? <==> frames[|frames| - 1].ListFrame? && frames[|frames| - 1].items != []
    ensures LastOfTop(w).Some? ==>
              var items, kids := frames[|frames| - 1].items, w.arena.nodes[w.entries[|frames| - 1].matcher].matchers;
              && |w.entries| == |frames| && kids != []
              && AllFit(w.arena, scope, kids[..|kids| - 1], items[..|items| - 1])
              && Fits(w.arena, scope, LastOfTop(w).value, items[|items| - 1])
  {
  }

  lemma ReplaceLastFits(w: Work, scope: Scope, root: nat, frames: seq<Frame>, m: nat, x: Item)
    requires Represents(w, scope, root, frames) && Fits(w.arena, scope, m, x)
    requires frames[|frames| - 1].ListFrame? && frames[|frames| - 1].items != []
    ensures Usable(w) && LastOfTop(w).Some? && Keeps(w.arena, ReplaceLast(w, m).arena, root)
    ensures var top := |frames| - 1; var items := frames[top].items;
            Represents(ReplaceLast(w, m), scope, root,
                       frames[top := ListFrame(items[..|items| - 1] + [x], frames[top].functionName)])
  {
    LastFits(w, scope, root, frames);
    var top := |frames| - 1;
    var items, kids := frames[top].items, w.arena.nodes[w.entries[top].matcher].matchers;
    AllFitSnoc(w.arena, scope, kids[..|kids| - 1], items[..|items| - 1], m, x);
    assert kids[..|kids| - 1] + [m] + [] == kids[..|kids| - 1] + [m];
    assert frames[top].ListFrame?;
    hide AllFit, Fits, Keeps, StackFits, StackOpen, ValidFrames;
    TopListBecomes(w, scope, root, frames, kids[..|kids| - 1] + [m], items[..|items| - 1] + [x], None);
  }

  lemma WrapFits(a: Arena, scope: Scope, u: nat, k: nat, x: Item)
    requires Finished(a, u) && a.nodes[u] == M.OptionalMatcher(k)
    ensures Fits(a, scope, k, x) ==> Fits(a, scope, u, Optional(x))
    ensures Finished(a, k) && a.nodes[k].RepeatMatcher? && Fits(a, scope, a.nodes[k].element, x)
        ==> Fits(a, scope, u, Star(x))
  {
  }

  lemma WrapLastFits(w: Work, scope: Scope, root: nat, frames: seq<Frame>, star: bool)
    requires Represents(w, scope, root, frames) && G.Wrap(frames, star).Ok?
    ensures Usable(w) && LastOfTop(w).Some? && Represents(WrapLastOf(w, star), scope, root, G.Wrap(frames, star).value)
    ensures Keeps(w.arena, WrapLastOf(w, star).arena, root)
  {
    var top := |frames| - 1;
    var items := frames[top].items;
    var x := items[|items| - 1];
    LastFits(w, scope, root, frames);
    var last := LastOfTop(w).value;
    assert root < |w.arena.nodes| == |w.arena.made| && w.arena.made[root].Instance?;
    if star {
      var w1 := AddNode(w, M.RepeatMatcher(last), Done);
      var w2 := AddNode(w1, M.OptionalMatcher(|w.arena.nodes|), Done);
      AddKeeps(w, scope, root, frames, M.RepeatMatcher(last), Done);
      AddKeeps(w1, scope, root, frames, M.OptionalMatcher(|w.arena.nodes|), Done);
      KeepsTrans(w.arena, w1.arena, w2.arena, root);
      FitsKept(w.arena, w2.arena, root, scope, last, x);
      WrapFits(w2.arena, scope, |w1.arena.nodes|, |w.arena.nodes|, x);
      hide StackFits, StackOpen, Keeps, Fits;
      ReplaceLastFits(w2, scope, root, frames, |w1.arena.nodes|, Star(x));
      KeepsTrans(w.arena, w2.arena, WrapLastOf(w, star).arena, root);
    } else {
      var w1 := AddNode(w, M.OptionalMatcher(last), Done);
      AddKeeps(w, scope, root, frames, M.OptionalMatcher(last), Done);
      FitsKept(w.arena, w1.arena, root, scope, last, x);
      WrapFits(w1.arena, scope, |w.arena.nodes|, last, x);
      hide StackFits, StackOpen, Keeps, Fits;
      ReplaceLastFits(w1, scope, root, frames, |w.arena.nodes|, Optional(x));
      KeepsTrans(w.arena, w1.arena, WrapLastOf(w, star).arena, root);
    }
  }

  lemma KeepsTrans(a: Arena, b: Arena, c: Arena, root: nat)
    requires Keeps(a, b, root) && Keeps(b, c, root)
    ensures Keeps(a, c, root)
  {
  }

  /** `/`: a choice takes the place of the last member of the list on top, and goes on the stack. */
  function OpenChoiceOf(w: Work): Work
    requires Usable(w) && LastOfTop(w).Some?
  {
    var choice := |w.arena.nodes|;
    var r := ReplaceLast(AddNode(w, M.ChoiceMatcher([LastOfTop(w).value]), Open), choice);
    r.(entries := w.entries + [MatcherListEntry(choice, None)])
  }

  lemma OpenChoiceIs(w: Work)
    requires Usable(w) && LastOfTop(w).Some?
    ensures var n := w.entries[|w.entries| - 1].matcher;
            var kids := w.arena.nodes[n].matchers;
            var c, b := |w.arena.nodes|, OpenChoiceOf(w).arena;
            && n < c && w.arena.nodes[n].ListMatcher? && kids != []
            && b == Put(AddNode(w, M.ChoiceMatcher([LastOfTop(w).value]), Open).arena, n,
                        M.ListMatcher(kids[..|kids| - 1] + [c]))
            && |b.nodes| == |b.made| == c + 1
            && b.nodes[c] == M.ChoiceMatcher([LastOfTop(w).value]) && b.made[c] == Open
  {
  }

  /** The stack before the choice is pushed: the list on top ends with it. */
  lemma OpenChoiceBelow(w: Work, scope: Scope, root: nat, frames: seq<Frame>)
    requires Represents(w, scope, root, frames) && G.OpenChoice(frames).Ok?
    ensures Usable(w) && LastOfTop(w).Some? && |w.entries| == |frames|
    ensures var top, b := |frames| - 1, OpenChoiceOf(w).arena;
            var items := frames[top].items;
            var after := frames[top := ListFrame(items[..|items| - 1], frames[top].functionName)];
            && Keeps(w.arena, b, root) && StackOpen(Work(b, w.entries), root) && ValidFrames(after)
            && StackFits(b, scope, w.entries, after, Some(|w.arena.nodes|))
  {
    var top := |frames| - 1;
    var items := frames[top].items;
    LastFits(w, scope, root, frames);
    var last, xs := LastOfTop(w).value, items[..|items| - 1];
    var kids := w.arena.nodes[w.entries[top].matcher].matchers;
    var w1 := AddNode(w, M.ChoiceMatcher([last]), Open);
    assert root < |w.arena.nodes| && w.arena.made[root].Instance?;
    assert w1 == Work(Add(w.arena, M.ChoiceMatcher([last]), Open), w.entries);
    OpenChoiceIs(w);
    hide *;
    AddKeeps(w, scope, root, frames, M.ChoiceMatcher([last]), Open);
    AllFitKept(w.arena, w1.arena, root, scope, kids[..|kids| - 1], xs);
    TopListBecomes(w1, scope, root, frames, kids[..|kids| - 1], xs, Some(|w.arena.nodes|));
    KeepsTrans(w.arena, w1.arena, OpenChoiceOf(w).arena, root);
  }

  lemma OpenChoiceFits(w: Work, scope: Scope, root: nat, frames: seq<Frame>)
    requires Represents(w, scope, root, frames) && G.OpenChoice(frames).Ok?
    ensures Usable(w) && LastOfTop(w).Some? && Represents(OpenChoiceOf(w), scope, root, G.OpenChoice(frames).value)
    ensures Keeps(w.arena, OpenChoiceOf(w).arena, root)
  {
    var top, c := |frames| - 1, |w.arena.nodes|;
    var items := frames[top].items;
    var after := frames[top := ListFrame(items[..|items| - 1], frames[top].functionName)];
    LastFits(w, scope, root, frames);
    OpenChoiceBelow(w, scope, root, frames);
    OpenChoiceIs(w);
    assert root < c && w.arena.made[root].Instance? && OpenChoiceOf(w).entries == w.entries + [MatcherListEntry(c, None)];
    EntriesBelow(w, root);
    assert G.OpenChoice(frames).value == after + [ChoiceFrame(items[|items| - 1])];
    hide *;
    FitsKept(w.arena, OpenChoiceOf(w).arena, root, scope, LastOfTop(w).value, items[|items| - 1]);
    PushWaiting(OpenChoiceOf(w).arena, w.entries, scope, root, after, c, items[|items| - 1]);
  }

  lemma EntriesBelow(w: Work, root: nat)
    requires StackOpen(w, root)
    ensures forall k :: 0 <= k < |w.entries| ==> w.entries[k].matcher < |w.arena.nodes|
  {
  }

  lemma PushWaiting(b: Arena, entries: seq<MatcherListEntry>, scope: Scope, root: nat, frames: seq<Frame>, c: nat, x: Item)
    requires ValidFrames(frames) && frames[|frames| - 1].ListFrame? && StackOpen(Work(b, entries), root)
    requires StackFits(b, scope, entries, frames, Some(c))
    requires c < |b.nodes| && b.made[c] == Open && (forall k :: 0 <= k < |entries| ==> entries[k].matcher < c)
    requires b.nodes[c].ChoiceMatcher? && |b.nodes[c].choices| == 1 && Fits(b, scope, b.nodes[c].choices[0], x)
    ensures Represents(Work(b, entries + [MatcherListEntry(c, None)]), scope, root, frames + [ChoiceFrame(x)])
  {
    assert (entries + [MatcherListEntry(c, None)])[..|frames|] == entries;
    assert (frames + [ChoiceFrame(x)])[..|frames|] == frames;
  }

  // ----- closing a bracket -----

  /** The stack without its top entry. */
  function PopTop(w: Work): Work
    requires Usable(w)
  {
    var top := |w.entries| - 1;
    Work(Finish(w.arena, w.entries[top].matcher), w.entries[..top])
  }

  lemma PopTopFits(w: Work, scope: Scope, root: nat, frames: seq<Frame>)
    requires Represents(w, scope, root, frames) && |frames| > 1
    ensures var top := |frames| - 1; var n, r := w.entries[top].matcher, PopTop(w);
            && Keeps(w.arena, r.arena, root) && StackOpen(r, root) && ValidFrames(frames[..top])
            && StackFits(r.arena, scope, r.entries, frames[..top], if frames[top].ChoiceFrame? then Some(n) else None)
            && Finished(r.arena, n) && r.arena.nodes == w.arena.nodes
                && EntryFits(r.arena, scope, w.entries[top], frames[top], None)
  {
    var top := |frames| - 1;
    var n := w.entries[top].matcher;
    var node := w.arena.nodes[n];
    assert Put(w.arena, n, node) == w.arena;
    Popped(w, root, node);
    PutKeeps(w, root, n, node, true);
    hide Fits, AllFit;
    EntryKept(w.arena, PopTop(w).arena, root, scope, w.entries[top], frames[top], None);
    BelowKept(w, scope, root, frames, PopTop(w).arena);
  }

  /** The item that the top of the stack is, once finished. */
  function TopItem(f: Frame): Item {
    match f
    case ListFrame(items, None) => Group(items)
    case ListFrame(items, Some(name)) => Call(name, items)
    case ChoiceFrame(first) => Choice(first, None)
  }

  /** `)` that ends no call: the top leaves the stack and is added to what is now the top. */
  lemma ClosePlain(w: Work, scope: Scope, root: nat, frames: seq<Frame>)
    requires Represents(w, scope, root, frames) && |frames| > 1
    requires frames[|frames| - 1].ListFrame? ==> frames[|frames| - 1].functionName == None
    ensures Usable(w) && Usable(PopTop(w)) && CloseBracket(frames).Ok?
    ensures var r := AddTo(PopTop(w), w.entries[|w.entries| - 1].matcher);
            && Represents(r, scope, root, CloseBracket(frames).value)
            && Keeps(PopTop(w).arena, r.arena, root)
  {
    var top := |frames| - 1;
    var n, r := w.entries[top].matcher, PopTop(w);
    var rest := frames[..top];
    PopTopFits(w, scope, root, frames);
    assert Fits(r.arena, scope, n, TopItem(frames[top]));
    assert Usable(w) && Usable(r);
    hide Fits, AllFit, StackFits, EntryFits, Keeps, StackOpen;
    if frames[top].ListFrame? {
      AddToFits(r, scope, root, rest, n, TopItem(frames[top]));
    } else {
      ClaimWaiting(r, scope, root, rest, n, TopItem(frames[top]));
      AddToFits(r, scope, root, Append(rest, TopItem(frames[top])), n, TopItem(frames[top]));
    }
  }

  /** `)` that ends a call, once the called rule has a matcher. */
  lemma CloseCall(w: Work, scope: Scope, root: nat, frames: seq<Frame>, m: nat)
    requires Represents(w, scope, root, frames) && |frames| > 1
    requires frames[|frames| - 1].ListFrame? && frames[|frames| - 1].functionName.Some?
    requires Fits(w.arena, scope, m, TopItem(frames[|frames| - 1]))
    ensures Usable(w) && Usable(PopTop(w)) && CloseBracket(frames).Ok?
    ensures var r := AddTo(PopTop(w), m);
            && Represents(r, scope, root, CloseBracket(frames).value)
            && Keeps(PopTop(w).arena, r.arena, root)
  {
    var top := |frames| - 1;
    var r, x := PopTop(w), TopItem(frames[top]);
    PopTopFits(w, scope, root, frames);
    assert Usable(w) && Usable(r) && root < |w.arena.nodes| && w.arena.made[root].Instance?;
    hide Fits, AllFit, StackFits, EntryFits, Keeps, StackOpen;
    FitsKept(w.arena, r.arena, root, scope, m, x);
    AddToFits(r, scope, root, frames[..top], m, x);
  }

  /** Creating the matchers of other rules leaves the stack alone. */
  lemma Extended(w: Work, scope: Scope, root: nat, frames: seq<Frame>, b: Arena)
    requires Represents(w, scope, root, frames) && Extends(w.arena, b)
    ensures Keeps(w.arena, b, root) && Represents(Work(b, w.entries), scope, root, frames)
  {
    StackKept(w.arena, b, root, scope, w.entries, frames, None);
    hide Fits, AllFit, StackFits, EntryFits;
  }

  // ----- everything that holds while a rule is read -----

  /** Since `base`, matchers were only added; the unfinished ones are on the stack, and every other rule that got a
      matcher is complete. */
  ghost predicate Building(base: Arena, w: Work, rules: Rules, scope: Scope, builtins: map<string, nat>, root: nat) {
    && Extends(base, w.arena) && Sound(w.arena, builtins) && |base.nodes| <= root < |w.arena.nodes|
    && (forall n :: |base.nodes| <= n < |w.arena.nodes| && w.arena.made[n] == Open ==> n in Ids(w.entries))
    && (forall n :: |base.nodes| <= n < |w.arena.nodes| && n != root && w.arena.made[n].Instance? ==>
          Complete(w.arena, rules, scope.keywords, n))
  }

  /** A step of the stack: only matchers on the stack change, and what is unfinished afterwards is on the new stack. */
  ghost predicate StackStep(w: Work, w': Work, root: nat) {
    var a, b := w.arena, w'.arena;
    && Keeps(a, b, root) && b.cache == a.cache
    && (forall n :: 0 <= n < |a.nodes| && n !in Ids(w.entries) ==> b.nodes[n] == a.nodes[n] && b.made[n] == a.made[n])
    && (forall n :: 0 <= n < |b.nodes| && b.made[n].Instance? ==> n < |a.nodes| && a.made[n].Instance?)
    && (forall n :: 0 <= n < |b.nodes| && b.made[n] == Open ==>
          n in Ids(w'.entries) || (n < |a.nodes| && a.made[n] == Open && n !in Ids(w.entries)))
    && InRange(b)
  }

  lemma StepBuilds(base: Arena, w: Work, w': Work, rules: Rules, scope: Scope, builtins: map<string, nat>, root: nat)
    requires Building(base, w, rules, scope, builtins, root) && StackOpen(w, root) && StackStep(w, w', root)
    ensures Building(base, w', rules, scope, builtins, root)
  {
    var a, b := w.arena, w'.arena;
    assert forall n :: n in Ids(w.entries) ==> root <= n;
    forall n | |base.nodes| <= n < |b.nodes| && n != root && b.made[n].Instance?
      ensures Complete(b, rules, scope.keywords, n)
    {
      CompleteKept(a, b, root, rules, scope.keywords, n);
    }
    StepSound(w, w', builtins, root);
    hide Complete, StackOpen;
    assert Extends(base, b);
  }

  lemma StepSound(w: Work, w': Work, builtins: map<string, nat>, root: nat)
    requires Sound(w.arena, builtins) && StackStep(w, w', root)
    ensures Sound(w'.arena, builtins)
  {
  }

  lemma AddToSteps(w: Work, root: nat, m: nat)
    requires StackOpen(w, root) && Usable(w) && InRange(w.arena) && m < |w.arena.nodes|
    requires Keeps(w.arena, AddTo(w, m).arena, root)
    ensures StackStep(w, AddTo(w, m), root)
  {
    var top := |w.entries| - 1;
    assert w.entries[top].matcher in Ids(w.entries);
    SplitIds(w.entries);
    hide Keeps, Ids;
  }

  lemma SplitIds(entries: seq<MatcherListEntry>)
    requires |entries| > 0
    ensures Ids(entries) == Ids(entries[..|entries| - 1]) + {entries[|entries| - 1].matcher}
  {
    var top := |entries| - 1;
    assert forall n :: n in Ids(entries) ==> n in Ids(entries[..top]) + {entries[top].matcher} by {
      forall n | n in Ids(entries) ensures n in Ids(entries[..top]) + {entries[top].matcher} {
        var k :| 0 <= k < |entries| && entries[k].matcher == n;
        if k < top {
          assert entries[..top][k] == entries[k];
        }
      }
    }
    assert forall n :: n in Ids(entries[..top]) ==> n in Ids(entries);
  }

  lemma JoinIds(entries: seq<MatcherListEntry>, e: MatcherListEntry)
    ensures Ids(entries + [e]) == Ids(entries) + {e.matcher}
  {
    SplitIds(entries + [e]);
    assert (entries + [e])[..|entries|] == entries;
  }

  lemma PushListSteps(w: Work, root: nat, name: Option<string>)
    requires StackOpen(w, root) && InRange(w.arena) && Keeps(w.arena, PushList(w, name).arena, root)
    ensures StackStep(w, PushList(w, name), root)
  {
    JoinIds(w.entries, MatcherListEntry(|w.arena.nodes|, name));
    Wider(w.arena, M.ListMatcher([]));
  }

  /** Matchers stay in range when there are more of them. */
  lemma Wider(a: Arena, node: M.Matcher)
    requires InRange(a) && ChildrenBelow(node, |a.nodes|)
    ensures forall n :: 0 <= n <= |a.nodes| ==> ChildrenBelow((a.nodes + [node])[n], |a.nodes| + 1)
  {
    forall n | 0 <= n <= |a.nodes| ensures ChildrenBelow((a.nodes + [node])[n], |a.nodes| + 1) {
      if n < |a.nodes| {
        assert ChildrenBelow(a.nodes[n], |a.nodes|);
      }
    }
  }

  lemma AddNodeSteps(w: Work, root: nat, node: M.Matcher)
    requires StackOpen(w, root) && Usable(w) && InRange(w.arena) && ChildrenBelow(node, |w.arena.nodes|)
    requires Keeps(w.arena, AddNode(w, node, Done).arena, root)
    ensures StackStep(w, AddNode(w, node, Done), root)
  {
    Wider(w.arena, node);
  }

  lemma ReplaceLastSteps(w: Work, root: nat, m: nat)
    requires StackOpen(w, root) && Usable(w) && LastOfTop(w).Some? && InRange(w.arena) && m < |w.arena.nodes|
    requires Keeps(w.arena, ReplaceLast(w, m).arena, root)
    ensures StackStep(w, ReplaceLast(w, m), root)
  {
    assert w.entries[|w.entries| - 1].matcher in Ids(w.entries);
    hide Keeps;
  }

  lemma OpenChoiceSteps(w: Work, root: nat)
    requires StackOpen(w, root) && Usable(w) && LastOfTop(w).Some? && InRange(w.arena)
    requires Keeps(w.arena, OpenChoiceOf(w).arena, root)
    ensures StackStep(w, OpenChoiceOf(w), root)
  {
    var c, last := |w.arena.nodes|, LastOfTop(w).value;
    assert w.entries[|w.entries| - 1].matcher in Ids(w.entries);
    JoinIds(w.entries, MatcherListEntry(c, None));
    assert ChildrenBelow(w.arena.nodes[w.entries[|w.entries| - 1].matcher], c);
    Wider(w.arena, M.ChoiceMatcher([last]));
    hide Keeps, Ids;
  }

  lemma PopTopSteps(w: Work, root: nat)
    requires StackOpen(w, root) && Usable(w) && |w.entries| > 1 && InRange(w.arena)
    requires Keeps(w.arena, PopTop(w).arena, root)
    ensures StackStep(w, PopTop(w), root)
  {
    assert w.entries[|w.entries| - 1].matcher in Ids(w.entries);
    SplitIds(w.entries);
    hide Keeps;
  }

  // ----- one token -----

  /** A rule being read: the stack represents the frames, and everything else is in order. */
  ghost predicate Reading(base: Arena, w: Work, rules: Rules, scope: Scope, builtins: map<string, nat>, root: nat,
                          frames: seq<Frame>) {
    Represents(w, scope, root, frames) && Building(base, w, rules, scope, builtins, root)
  }

  lemma ReadingBasics(base: Arena, w: Work, rules: Rules, scope: Scope, builtins: map<string, nat>, root: nat,
                      frames: seq<Frame>)
    requires Reading(base, w, rules, scope, builtins, root, frames)
    ensures Usable(w) && InRange(w.arena) && StackOpen(w, root) && ValidFrames(frames) && |w.entries| == |frames|
    ensures Represents(w, scope, root, frames) && Building(base, w, rules, scope, builtins, root)
    ensures Sound(w.arena, builtins)
    ensures w.entries[|w.entries| - 1].functionName ==
              if frames[|frames| - 1].ListFrame? then frames[|frames| - 1].functionName else None
    ensures var node := w.arena.nodes[w.entries[|w.entries| - 1].matcher];
            if frames[|frames| - 1].ListFrame? then node.ListMatcher? && |node.matchers| == |frames[|frames| - 1].items|
            else node.ChoiceMatcher?
  {
  }

  lemma ReadItem(base: Arena, w: Work, rules: Rules, scope: Scope, builtins: map<string, nat>, root: nat,
                 frames: seq<Frame>, m: nat, x: Item)
    requires Reading(base, w, rules, scope, builtins, root, frames)
    requires m < |w.arena.nodes| && Fits(w.arena, scope, m, x)
    ensures Usable(w) && Reading(base, AddTo(w, m), rules, scope, builtins, root, AddItem(frames, x))
    ensures Keeps(w.arena, AddTo(w, m).arena, root)
  {
    hide *;
    ReadingBasics(base, w, rules, scope, builtins, root, frames);
    AddToFits(w, scope, root, frames, m, x);
    AddToSteps(w, root, m);
    StepBuilds(base, w, AddTo(w, m), rules, scope, builtins, root);
    Compose(base, AddTo(w, m), rules, scope, builtins, root, AddItem(frames, x));
  }

  lemma Compose(base: Arena, w: Work, rules: Rules, scope: Scope, builtins: map<string, nat>, root: nat,
                frames: seq<Frame>)
    requires Represents(w, scope, root, frames) && Building(base, w, rules, scope, builtins, root)
    ensures Reading(base, w, rules, scope, builtins, root, frames)
  {
  }

  lemma ReadOpen(base: Arena, w: Work, rules: Rules, scope: Scope, builtins: map<string, nat>, root: nat,
                 frames: seq<Frame>, name: Option<string>)
    requires Reading(base, w, rules, scope, builtins, root, frames)
    ensures Reading(base, PushList(w, name), rules, scope, builtins, root, frames + [ListFrame([], name)])
    ensures Keeps(w.arena, PushList(w, name).arena, root)
  {
    hide *;
    ReadingBasics(base, w, rules, scope, builtins, root, frames);
    PushListFits(w, scope, root, frames, name);
    PushListSteps(w, root, name);
    StepBuilds(base, w, PushList(w, name), rules, scope, builtins, root);
    Compose(base, PushList(w, name), rules, scope, builtins, root, frames + [ListFrame([], name)]);
  }

  /** A finished matcher beside the stack. */
  lemma ReadNode(base: Arena, w: Work, rules: Rules, scope: Scope, builtins: map<string, nat>, root: nat,
                 frames: seq<Frame>, node: M.Matcher)
    requires Reading(base, w, rules, scope, builtins, root, frames) && ChildrenBelow(node, |w.arena.nodes|)
    ensures Usable(w) && Reading(base, AddNode(w, node, Done), rules, scope, builtins, root, frames)
    ensures var b := AddNode(w, node, Done).arena; var n := |w.arena.nodes|;
            Keeps(w.arena, b, root) && Finished(b, n) && b.nodes[n] == node
  {
    ReadingBasics(base, w, rules, scope, builtins, root, frames);
    hide *;
    AddKeeps(w, scope, root, frames, node, Done);
    assert AddNode(w, node, Done) == Work(Add(w.arena, node, Done), w.entries) by {
      AddNodeIs(w, node);
    }
    AddNodeIs(w, node);
    AddNodeSteps(w, root, node);
    StepBuilds(base, w, AddNode(w, node, Done), rules, scope, builtins, root);
    Compose(base, AddNode(w, node, Done), rules, scope, builtins, root, frames);
  }

  lemma AddNodeIs(w: Work, node: M.Matcher)
    requires Usable(w)
    ensures AddNode(w, node, Done) == Work(Add(w.arena, node, Done), w.entries)
    ensures Finished(AddNode(w, node, Done).arena, |w.arena.nodes|)
  {
  }

  lemma LastInRange(w: Work)
    requires Usable(w) && LastOfTop(w).Some? && InRange(w.arena)
    ensures LastOfTop(w).value < |w.arena.nodes|
  {
    assert ChildrenBelow(w.arena.nodes[w.entries[|w.entries| - 1].matcher], |w.arena.nodes|);
  }

  /** The matchers that `?` and `*` create, before the last one is replaced. */
  lemma ReadWrapNodes(base: Arena, w: Work, rules: Rules, scope: Scope, builtins: map<string, nat>, root: nat,
                      frames: seq<Frame>, star: bool)
    returns (w2: Work, u: nat)
    requires Reading(base, w, rules, scope, builtins, root, frames) && Usable(w) && LastOfTop(w).Some?
    ensures Usable(w2) && u < |w2.arena.nodes| && Reading(base, w2, rules, scope, builtins, root, frames)
    ensures LastOfTop(w2).Some? && WrapLastOf(w, star) == ReplaceLast(w2, u)
  {
    ReadingBasics(base, w, rules, scope, builtins, root, frames);
    LastInRange(w);
    var last := LastOfTop(w).value;
    hide Reading, Represents, Building, Keeps, Fits, AllFit, StackFits, InRange, StackOpen, Sound, ValidFrames;
    var w1 := if star then AddNode(w, M.RepeatMatcher(last), Done) else w;
    if star {
      ReadNode(base, w, rules, scope, builtins, root, frames, M.RepeatMatcher(last));
    }
    var inner := if star then |w.arena.nodes| else last;
    ReadNode(base, w1, rules, scope, builtins, root, frames, M.OptionalMatcher(inner));
    w2, u := AddNode(w1, M.OptionalMatcher(inner), Done), |w1.arena.nodes|;
    ReadingBasics(base, w2, rules, scope, builtins, root, frames);
  }

  lemma WrapsLast(frames: seq<Frame>, star: bool)
    requires ValidFrames(frames) && G.Wrap(frames, star).Ok?
    ensures frames[|frames| - 1].ListFrame? && frames[|frames| - 1].items != []
  {
  }

  lemma ReadWrap(base: Arena, w: Work, rules: Rules, scope: Scope, builtins: map<string, nat>, root: nat,
                 frames: seq<Frame>, star: bool)
    requires Reading(base, w, rules, scope, builtins, root, frames) && G.Wrap(frames, star).Ok?
    ensures Usable(w) && LastOfTop(w).Some?
    ensures Reading(base, WrapLastOf(w, star), rules, scope, builtins, root, G.Wrap(frames, star).value)
    ensures Keeps(w.arena, WrapLastOf(w, star).arena, root)
  {
    hide *;
    ReadingBasics(base, w, rules, scope, builtins, root, frames);
    WrapsLast(frames, star);
    LastFits(w, scope, root, frames);
    WrapLastFits(w, scope, root, frames, star);
    var w2, u := ReadWrapNodes(base, w, rules, scope, builtins, root, frames, star);
    ReadingBasics(base, w2, rules, scope, builtins, root, frames);
    LastKept(w2, scope, root, frames, u);
    ReplaceLastSteps(w2, root, u);
    StepBuilds(base, w2, WrapLastOf(w, star), rules, scope, builtins, root);
    Compose(base, WrapLastOf(w, star), rules, scope, builtins, root, G.Wrap(frames, star).value);
  }

  lemma LastKept(w: Work, scope: Scope, root: nat, frames: seq<Frame>, m: nat)
    requires Represents(w, scope, root, frames) && Usable(w) && LastOfTop(w).Some?
    ensures Keeps(w.arena, ReplaceLast(w, m).arena, root)
  {
    var top := |w.entries| - 1;
    assert w.entries[top].matcher in Ids(w.entries);
  }

  lemma ReadOr(base: Arena, w: Work, rules: Rules, scope: Scope, builtins: map<string, nat>, root: nat,
               frames: seq<Frame>)
    requires Reading(base, w, rules, scope, builtins, root, frames) && G.OpenChoice(frames).Ok?
    ensures Usable(w) && LastOfTop(w).Some?
    ensures Reading(base, OpenChoiceOf(w), rules, scope, builtins, root, G.OpenChoice(frames).value)
    ensures Keeps(w.arena, OpenChoiceOf(w).arena, root)
  {
    hide *;
    ReadingBasics(base, w, rules, scope, builtins, root, frames);
    OpenChoiceFits(w, scope, root, frames);
    OpenChoiceSteps(w, root);
    StepBuilds(base, w, OpenChoiceOf(w), rules, scope, builtins, root);
    Compose(base, OpenChoiceOf(w), rules, scope, builtins, root, G.OpenChoice(frames).value);
  }

  /** Taking the top off the stack and adding a matcher keeps everything but the stack in order. */
  lemma ReadPop(base: Arena, w: Work, rules: Rules, scope: Scope, builtins: map<string, nat>, root: nat,
                frames: seq<Frame>, m: nat, after: seq<Frame>)
    requires Reading(base, w, rules, scope, builtins, root, frames) && |frames| > 1 && m < |w.arena.nodes|
    requires Usable(w) && Usable(PopTop(w)) && Keeps(PopTop(w).arena, AddTo(PopTop(w), m).arena, root)
    requires Represents(AddTo(PopTop(w), m), scope, root, after)
    ensures Reading(base, AddTo(PopTop(w), m), rules, scope, builtins, root, after)
    ensures Keeps(w.arena, AddTo(PopTop(w), m).arena, root)
  {
    var r := PopTop(w);
    ReadingBasics(base, w, rules, scope, builtins, root, frames);
    assert |r.arena.nodes| == |w.arena.nodes|;
    hide *;
    PopTopFits(w, scope, root, frames);
    PopTopSteps(w, root);
    StepBuilds(base, w, r, rules, scope, builtins, root);
    assert InRange(r.arena) by {
      StepInRange(w, r, root);
    }
    AddToSteps(r, root, m);
    StepBuilds(base, r, AddTo(r, m), rules, scope, builtins, root);
    Compose(base, AddTo(r, m), rules, scope, builtins, root, after);
    KeepsTrans(w.arena, r.arena, AddTo(r, m).arena, root);
  }

  lemma StepInRange(w: Work, w': Work, root: nat)
    requires StackStep(w, w', root)
    ensures InRange(w'.arena)
  {
  }

  lemma ReadClosePlain(base: Arena, w: Work, rules: Rules, scope: Scope, builtins: map<string, nat>, root: nat,
                       frames: seq<Frame>)
    requires Reading(base, w, rules, scope, builtins, root, frames) && |frames| > 1
    requires frames[|frames| - 1].ListFrame? ==> frames[|frames| - 1].functionName == None
    ensures Usable(w) && Usable(PopTop(w)) && CloseBracket(frames).Ok?
    ensures Reading(base, AddTo(PopTop(w), w.entries[|w.entries| - 1].matcher), rules, scope, builtins, root,
                    CloseBracket(frames).value)
    ensures Keeps(w.arena, AddTo(PopTop(w), w.entries[|w.entries| - 1].matcher).arena, root)
  {
    ReadingBasics(base, w, rules, scope, builtins, root, frames);
    ClosePlain(w, scope, root, frames);
    var m := w.entries[|w.entries| - 1].matcher;
    assert m < |w.arena.nodes|;
    hide *;
    ReadPop(base, w, rules, scope, builtins, root, frames, m, CloseBracket(frames).value);
  }

  lemma ReadCloseCall(base: Arena, w: Work, rules: Rules, scope: Scope, builtins: map<string, nat>, root: nat,
                      frames: seq<Frame>, m: nat)
    requires Reading(base, w, rules, scope, builtins, root, frames) && |frames| > 1 && m < |w.arena.nodes|
    requires frames[|frames| - 1].ListFrame? && frames[|frames| - 1].functionName.Some?
    requires Fits(w.arena, scope, m, TopItem(frames[|frames| - 1]))
    ensures Usable(w) && Usable(PopTop(w)) && CloseBracket(frames).Ok?
    ensures Reading(base, AddTo(PopTop(w), m), rules, scope, builtins, root, CloseBracket(frames).value)
    ensures Keeps(w.arena, AddTo(PopTop(w), m).arena, root)
  {
    hide *;
    ReadingBasics(base, w, rules, scope, builtins, root, frames);
    CloseCall(w, scope, root, frames, m);
    ReadPop(base, w, rules, scope, builtins, root, frames, m, CloseBracket(frames).value);
  }

  /** A rule that was read without leaving anything unfinished. */
  ghost predicate AllBuilt(base: Arena, a: Arena, rules: Rules, keywords: string -> Option<nat>,
                           builtins: map<string, nat>) {
    && Extends(base, a) && Sound(a, builtins)
    && (forall n :: |base.nodes| <= n < |a.nodes| ==>
          a.made[n] != Open && (a.made[n].Instance? ==> Complete(a, rules, keywords, n)))
  }

  /** The matchers of another rule, built in the middle of this one. */
  lemma ReadOther(base: Arena, w: Work, rules: Rules, scope: Scope, builtins: map<string, nat>, root: nat,
                  frames: seq<Frame>, b: Arena)
    requires Reading(base, w, rules, scope, builtins, root, frames)
    requires AllBuilt(w.arena, b, rules, scope.keywords, builtins)
    ensures Reading(base, Work(b, w.entries), rules, scope, builtins, root, frames) && Keeps(w.arena, b, root)
  {
    ReadingBasics(base, w, rules, scope, builtins, root, frames);
    Extended(w, scope, root, frames, b);
    forall n | |base.nodes| <= n < |b.nodes| && n != root && b.made[n].Instance?
      ensures Complete(b, rules, scope.keywords, n)
    {
      if n < |w.arena.nodes| {
        CompleteKept(w.arena, b, root, rules, scope.keywords, n);
      }
    }
    hide Complete, Represents, Sound;
    assert Extends(base, b);
  }

  /** A rule whose tokens have all been read. */
  lemma ReadAll(base: Arena, w: Work, rules: Rules, scope: Scope, builtins: map<string, nat>, root: nat,
                frames: seq<Frame>, name: string)
    requires Reading(base, w, rules, scope, builtins, root, frames) && |w.entries| == 1
    requires w.arena.made[root] == Instance(name, scope.argument)
    requires name in rules && scope.parameters == rules[name].parameters && ValidScope(scope)
    requires Run(EMPTY_STACK, rules[name].tokens) == Ok(frames)
    ensures AllBuilt(base, w.arena, rules, scope.keywords, builtins)
  {
    var a := w.arena;
    assert w.entries[0].matcher == root && Ids(w.entries) == {root};
    assert Scope(scope.parameters, scope.argument, scope.keywords) == scope;
    assert Complete(a, rules, scope.keywords, root);
    hide Complete, Represents, Fits;
  }
}
