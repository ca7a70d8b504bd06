/** The end-of-input shortcut of the list matcher: out of tokens, the members that are left count as matched if all of
    them are suggested as optional. Which members that is, and which it is not although they derive no token. */
module PegShortcut {
  import opened Sequences
  import opened PegMatcher
  import opened PegLanguage

  // ----- what is suggested as optional -----

  /** Members that can be left out: lists are entered, and all that is found in them is optional. The trail holds the
      lists entered and the optional matchers found, in order. */
  predicate Trail(g: Graph, ms: seq<nat>, trail: seq<nat>)
    requires Closed(g) && InGraph(g, ms)
    decreases |trail|
  {
    if ms == [] then trail == [] else
    assert WellLinked(g, g.nodes[ms[0]]);
    && trail != [] && trail[0] == ms[0]
    && match g.nodes[ms[0]]
       case OptionalMatcher(_) => Trail(g, ms[1..], trail[1..])
       case ListMatcher(cs) => Trail(g, cs + ms[1..], trail[1..])
       case _ => false
  }

  /** The matchers visited once an entry of a trail has been: a list is entered, what is below an optional matcher is
      suggested. */
  function Visit(g: Graph, m: nat, added: set<nat>): set<nat>
    requires Closed(g) && m < |g.nodes|
  {
    assert WellLinked(g, g.nodes[m]);
    match g.nodes[m]
    case OptionalMatcher(c) => Suggestion(g, c, added + {m}).added
    case _ => added + {m}
  }

  /** No entry has been visited when the trail comes to it. */
  predicate Fresh(g: Graph, trail: seq<nat>, added: set<nat>)
    requires Closed(g) && InGraph(g, trail)
  {
    trail == [] || (trail[0] !in added && Fresh(g, trail[1..], Visit(g, trail[0], added)))
  }

  /** The members left when the first one has been entered. */
  function TrailRest(g: Graph, ms: seq<nat>): (rest: seq<nat>)
    requires Closed(g) && InGraph(g, ms) && ms != []
    ensures InGraph(g, rest)
  {
    assert WellLinked(g, g.nodes[ms[0]]);
    (if g.nodes[ms[0]].ListMatcher? then g.nodes[ms[0]].matchers else []) + ms[1..]
  }

  predicate Enterable(n: Matcher) {
    n.OptionalMatcher? || n.ListMatcher?
  }

  lemma TrailTurn(g: Graph, ms: seq<nat>, trail: seq<nat>)
    requires Closed(g) && InGraph(g, ms) && ms != []
    ensures Trail(g, ms, trail) <==> trail != [] && trail[0] == ms[0] && Enterable(g.nodes[ms[0]])
                                     && Trail(g, TrailRest(g, ms), trail[1..])
  {
    assert WellLinked(g, g.nodes[ms[0]]);
    if g.nodes[ms[0]].OptionalMatcher? {
      assert [] + ms[1..] == ms[1..];
    }
  }

  lemma {:induction false} TrailInGraph(g: Graph, ms: seq<nat>, trail: seq<nat>)
    requires Closed(g) && InGraph(g, ms) && Trail(g, ms, trail)
    ensures InGraph(g, trail)
    decreases |trail|
  {
    if ms != [] {
      TrailTurn(g, ms, trail);
      TrailInGraph(g, TrailRest(g, ms), trail[1..]);
    }
  }

  lemma {:induction false} ListSuggestionConcat(g: Graph, a: seq<nat>, b: seq<nat>, added: set<nat>)
    requires Closed(g) && InGraph(g, a) && InGraph(g, b)
    ensures var first := ListSuggestion(g, a, added);
            ListSuggestion(g, a + b, added)
              == if first.kind == MANDATORY then first else
                 var rest := ListSuggestion(g, b, first.added);
                 Suggested(rest.kind, rest.added, first.log + rest.log)
    decreases |a|
  {
    if a == [] {
      assert a + b == b;
    } else {
      assert (a + b)[1..] == a[1..] + b;
      ListSuggestionConcat(g, a[1..], b, Suggestion(g, a[0], added).added);
    }
  }

  lemma SuggestionTurn(g: Graph, m: nat, added: set<nat>)
    requires Closed(g) && m < |g.nodes|
    ensures WellLinked(g, g.nodes[m])
    ensures m in added || !Enterable(g.nodes[m]) ==> Suggestion(g, m, added).kind == MANDATORY
    ensures m !in added && g.nodes[m].OptionalMatcher? ==>
              Suggestion(g, m, added).kind == OPTIONAL && Suggestion(g, m, added).added == Visit(g, m, added)
    ensures m !in added && g.nodes[m].ListMatcher? ==>
              Suggestion(g, m, added) == ListSuggestion(g, g.nodes[m].matchers, added + {m})
  {
  }

  lemma ListSuggestionTurn(g: Graph, ms: seq<nat>, added: set<nat>)
    requires Closed(g) && InGraph(g, ms) && ms != []
    ensures var first := Suggestion(g, ms[0], added);
            ListSuggestion(g, ms, added).kind == OPTIONAL <==>
              first.kind == OPTIONAL && ListSuggestion(g, ms[1..], first.added).kind == OPTIONAL
  {
  }

  /** Suggesting members one at a time, with the members of a list put in front. */
  lemma ShortcutTurn(g: Graph, ms: seq<nat>, added: set<nat>)
    requires Closed(g) && InGraph(g, ms) && ms != []
    ensures ListSuggestion(g, ms, added).kind == OPTIONAL
       <==> ms[0] !in added && Enterable(g.nodes[ms[0]])
            && ListSuggestion(g, TrailRest(g, ms), Visit(g, ms[0], added)).kind == OPTIONAL
  {
    hide ListSuggestion, Suggestion;
    var m := ms[0];
    SuggestionTurn(g, m, added);
    ListSuggestionTurn(g, ms, added);
    if m !in added && Enterable(g.nodes[m]) {
      match g.nodes[m]
      case ListMatcher(cs) => ListSuggestionConcat(g, cs, ms[1..], added + {m});
      case OptionalMatcher(_) => assert TrailRest(g, ms) == ms[1..];
    }
  }

  lemma {:induction false} FollowTrail(g: Graph, ms: seq<nat>, trail: seq<nat>, added: set<nat>)
    requires Closed(g) && InGraph(g, ms) && Trail(g, ms, trail)
    ensures InGraph(g, trail)
    ensures ListSuggestion(g, ms, added).kind == OPTIONAL <==> Fresh(g, trail, added)
    decreases |trail|
  {
    TrailInGraph(g, ms, trail);
    if ms != [] {
      hide ListSuggestion, Visit, TrailRest, Trail;
      TrailTurn(g, ms, trail);
      ShortcutTurn(g, ms, added);
      FollowTrail(g, TrailRest(g, ms), trail[1..], Visit(g, ms[0], added));
    }
  }

  lemma VisitAdds(g: Graph, m: nat, added: set<nat>)
    requires Closed(g) && m < |g.nodes|
    ensures added + {m} <= Visit(g, m, added)
    ensures m !in added ==> Unvisited(g, Visit(g, m, added)) < Unvisited(g, added)
  {
    assert m !in added ==> m in Unvisited(g, added) && m !in Unvisited(g, Visit(g, m, added));
  }

  lemma {:induction false} OptionalHasTrail(g: Graph, ms: seq<nat>, added: set<nat>) returns (trail: seq<nat>)
    requires Closed(g) && InGraph(g, ms) && ListSuggestion(g, ms, added).kind == OPTIONAL
    ensures Trail(g, ms, trail)
    decreases Unvisited(g, added)
  {
    trail := [];
    if ms != [] {
      hide ListSuggestion, Visit, TrailRest, Trail;
      ShortcutTurn(g, ms, added);
      VisitAdds(g, ms[0], added);
      var rest := OptionalHasTrail(g, TrailRest(g, ms), Visit(g, ms[0], added));
      trail := [ms[0]] + rest;
      TrailTurn(g, ms, trail);
    }
  }

  /** The members can all be left out, and none that is come to has been visited before. */
  ghost predicate LeftOut(g: Graph, ms: seq<nat>, added: set<nat>)
    requires Closed(g) && InGraph(g, ms)
  {
    exists trail :: Trail(g, ms, trail) && InGraph(g, trail) && Fresh(g, trail, added)
  }

  /** The shortcut takes the members that are left for matched exactly if all of them can be left out and no matcher
      on the way has been visited before. */
  lemma ShortcutExactly(g: Graph, ms: seq<nat>, added: set<nat>)
    requires Closed(g) && InGraph(g, ms)
    ensures ListSuggestion(g, ms, added).kind == OPTIONAL <==> LeftOut(g, ms, added)
  {
    hide ListSuggestion, Fresh, Trail;
    if ListSuggestion(g, ms, added).kind == OPTIONAL {
      var trail := OptionalHasTrail(g, ms, added);
      FollowTrail(g, ms, trail, added);
    }
    if trail :| Trail(g, ms, trail) && InGraph(g, trail) && Fresh(g, trail, added) {
      FollowTrail(g, ms, trail, added);
    }
  }

  // ----- what derives no token -----

  /** All members derive the empty token sequence. */
  ghost predicate AllEmpty(g: Graph, ms: seq<nat>)
    requires Closed(g) && InGraph(g, ms)
  {
    exists ts :: DerivesAll(g, ms, ts) && YieldAll(ts) == []
  }

  /** A chain of lists from one of the members down to the last matcher of the path. */
  predicate MemberPath(g: Graph, ms: seq<nat>, path: seq<nat>)
    requires Closed(g) && InGraph(g, ms)
    decreases |path|
  {
    && path != [] && path[0] in ms
    && (|path| == 1 ||
        (g.nodes[path[0]].ListMatcher? &&
         (assert WellLinked(g, g.nodes[path[0]]);
          MemberPath(g, g.nodes[path[0]].matchers, path[1..]))))
  }

  predicate Mandatory(n: Matcher) {
    n.ChoiceMatcher? || n.RepeatMatcher?
  }

  /** Somewhere in the lists is a choice or a repeat, which is never suggested as optional. */
  ghost predicate HoldsChoiceOrRepeat(g: Graph, ms: seq<nat>)
    requires Closed(g) && InGraph(g, ms)
  {
    exists path :: ChoiceOrRepeatAt(g, ms, path)
  }

  predicate ChoiceOrRepeatAt(g: Graph, ms: seq<nat>, path: seq<nat>)
    requires Closed(g) && InGraph(g, ms)
  {
    && MemberPath(g, ms, path)
    && path[|path| - 1] < |g.nodes| && Mandatory(g.nodes[path[|path| - 1]])
  }

  /** Whatever the lists hold is on the trail. */
  lemma {:induction false} PathOnTrail(g: Graph, ms: seq<nat>, trail: seq<nat>, path: seq<nat>)
    requires Closed(g) && InGraph(g, ms) && Trail(g, ms, trail) && MemberPath(g, ms, path)
    ensures path[|path| - 1] < |g.nodes| && Enterable(g.nodes[path[|path| - 1]])
    decreases |trail|
  {
    assert WellLinked(g, g.nodes[ms[0]]);
    var rest := TrailRest(g, ms);
    TrailTurn(g, ms, trail);
    if path[0] == ms[0] {
      if |path| > 1 {
        PathOnTrail(g, rest, trail[1..], path[1..]);
      }
    } else {
      assert path[0] in rest;
      PathOnTrail(g, rest, trail[1..], path);
    }
  }

  function TreeSize(t: Tree): (n: nat)
    ensures n > 0
  {
    match t
    case Sequence(ts) => 1 + TreesSize(ts)
    case _ => 1
  }

  function TreesSize(ts: seq<Tree>): nat {
    if ts == [] then 0 else TreeSize(ts[0]) + TreesSize(ts[1..])
  }

  lemma {:induction false} YieldConcat(ts: seq<Tree>, ts': seq<Tree>)
    ensures YieldAll(ts + ts') == YieldAll(ts) + YieldAll(ts')
    ensures TreesSize(ts + ts') == TreesSize(ts) + TreesSize(ts')
  {
    if ts == [] {
      assert ts + ts' == ts';
    } else {
      assert (ts + ts')[1..] == ts[1..] + ts';
      YieldConcat(ts[1..], ts');
    }
  }

  lemma {:induction false} DerivesConcat(g: Graph, ms: seq<nat>, ts: seq<Tree>, ms': seq<nat>, ts': seq<Tree>)
    requires Closed(g) && InGraph(g, ms) && InGraph(g, ms')
    requires DerivesAll(g, ms, ts) && DerivesAll(g, ms', ts')
    ensures DerivesAll(g, ms + ms', ts + ts')
    decreases |ts|
  {
    hide Derives;
    if ts == [] {
      assert ms + ms' == ms' && ts + ts' == ts';
    } else {
      assert (ms + ms')[1..] == ms[1..] + ms' && (ts + ts')[1..] == ts[1..] + ts';
      DerivesConcat(g, ms[1..], ts[1..], ms', ts');
    }
  }

  /** Members that derive no token have a trail, unless there is a choice or a repeat among them. */
  lemma {:induction false} EmptyHasTrail(g: Graph, ms: seq<nat>, ts: seq<Tree>) returns (trail: seq<nat>)
    requires Closed(g) && InGraph(g, ms) && DerivesAll(g, ms, ts) && YieldAll(ts) == []
    requires !HoldsChoiceOrRepeat(g, ms)
    ensures Trail(g, ms, trail)
    decreases TreesSize(ts)
  {
    trail := [];
    if ms != [] {
      assert WellLinked(g, g.nodes[ms[0]]);
      assert Yield(ts[0]) == [] && YieldAll(ts[1..]) == [];
      assert MemberPath(g, ms, [ms[0]]) && !ChoiceOrRepeatAt(g, ms, [ms[0]]);
      var rest := TrailRest(g, ms);
      forall path | ChoiceOrRepeatAt(g, rest, path) ensures false {
        PathFromRest(g, ms, path);
      }
      match g.nodes[ms[0]]
      case OptionalMatcher(_) =>
        assert rest == ms[1..];
        var below := EmptyHasTrail(g, rest, ts[1..]);
        trail := [ms[0]] + below;
      case ListMatcher(cs) =>
        assert TreesSize(ts) == TreeSize(ts[0]) + TreesSize(ts[1..]) && ts[0].Sequence?;
        DerivesConcat(g, cs, ts[0].parts, ms[1..], ts[1..]);
        YieldConcat(ts[0].parts, ts[1..]);
        var below := EmptyHasTrail(g, rest, ts[0].parts + ts[1..]);
        trail := [ms[0]] + below;
      case _ => assert false;
      TrailTurn(g, ms, trail);
    }
  }

  lemma PathFromRest(g: Graph, ms: seq<nat>, path: seq<nat>)
    requires Closed(g) && InGraph(g, ms) && ms != [] && ChoiceOrRepeatAt(g, TrailRest(g, ms), path)
    ensures HoldsChoiceOrRepeat(g, ms)
  {
    assert WellLinked(g, g.nodes[ms[0]]);
    if path[0] in ms[1..] {
      assert ChoiceOrRepeatAt(g, ms, path);
    } else {
      assert ([ms[0]] + path)[1..] == path;
      assert MemberPath(g, ms, [ms[0]] + path);
      assert ChoiceOrRepeatAt(g, ms, [ms[0]] + path);
    }
  }

  /** Some matcher on the trail of the members has been visited before it is come to. */
  ghost predicate Revisits(g: Graph, ms: seq<nat>, added: set<nat>)
    requires Closed(g) && InGraph(g, ms)
  {
    exists trail :: Trail(g, ms, trail) && InGraph(g, trail) && !Fresh(g, trail, added)
  }

  /** Members that could be left out are taken for mandatory for two reasons only: a choice or a repeat that derives
      no token, or a matcher that is come to twice. */
  lemma ShortcutMisses(g: Graph, ms: seq<nat>, added: set<nat>)
    requires Closed(g) && InGraph(g, ms) && AllEmpty(g, ms)
    ensures ListSuggestion(g, ms, added).kind == MANDATORY <==> HoldsChoiceOrRepeat(g, ms) || Revisits(g, ms, added)
  {
    hide ListSuggestion, Fresh, Trail;
    if HoldsChoiceOrRepeat(g, ms) {
      var path :| ChoiceOrRepeatAt(g, ms, path);
      forall trail | Trail(g, ms, trail) ensures false {
        PathOnTrail(g, ms, trail, path);
      }
      ShortcutExactly(g, ms, added);
    } else {
      var ts :| DerivesAll(g, ms, ts) && YieldAll(ts) == [];
      var trail := EmptyHasTrail(g, ms, ts);
      FollowTrail(g, ms, trail, added);
      if Revisits(g, ms, added) {
        var stale :| Trail(g, ms, stale) && InGraph(g, stale) && !Fresh(g, stale, added);
        FollowTrail(g, ms, stale, added);
      }
    }
  }

  // ----- what a suggestion visits -----

  ghost predicate HasTrail(g: Graph, ms: seq<nat>)
    requires Closed(g) && InGraph(g, ms)
  {
    exists trail :: Trail(g, ms, trail)
  }

  /** Suggesting a matcher may suggest this matcher next: of a list, any member that only optional ones precede. */
  ghost predicate Refers(g: Graph, m: nat, c: nat)
    requires Closed(g) && m < |g.nodes|
  {
    assert WellLinked(g, g.nodes[m]);
    match g.nodes[m]
    case LeafMatcher(_) => false
    case ListMatcher(ms) => exists k :: 0 <= k < |ms| && ms[k] == c && HasTrail(g, ms[..k])
    case OptionalMatcher(x) => c == x
    case ChoiceMatcher(cs) => c in cs
    case RepeatMatcher(x) => c == x
  }

  /** Suggesting a matcher always suggests this matcher too: of a list, only the first member for certain. */
  predicate SurelyRefers(g: Graph, m: nat, c: nat)
    requires Closed(g) && m < |g.nodes|
  {
    match g.nodes[m]
    case LeafMatcher(_) => false
    case ListMatcher(ms) => ms != [] && c == ms[0]
    case OptionalMatcher(x) => c == x
    case ChoiceMatcher(cs) => c in cs
    case RepeatMatcher(x) => c == x
  }

  /** A path of references past the matchers to avoid. */
  ghost predicate Path(g: Graph, path: seq<nat>, avoid: set<nat>)
    requires Closed(g)
  {
    && path != [] && path[0] < |g.nodes| && path[0] !in avoid
    && (|path| == 1 || (Refers(g, path[0], path[1]) && Path(g, path[1..], avoid)))
  }

  predicate SurePath(g: Graph, path: seq<nat>, avoid: set<nat>)
    requires Closed(g)
  {
    && path != [] && path[0] < |g.nodes| && path[0] !in avoid
    && (|path| == 1 || (SurelyRefers(g, path[0], path[1]) && SurePath(g, path[1..], avoid)))
  }

  ghost predicate Reaches(g: Graph, m: nat, x: nat, avoid: set<nat>)
    requires Closed(g)
  {
    exists path :: Path(g, path, avoid) && path[0] == m && path[|path| - 1] == x
  }

  ghost predicate SurelyReaches(g: Graph, m: nat, x: nat, avoid: set<nat>)
    requires Closed(g)
  {
    exists path :: SurePath(g, path, avoid) && path[0] == m && path[|path| - 1] == x
  }

  lemma {:induction false} AvoidLess(g: Graph, path: seq<nat>, avoid: set<nat>, less: set<nat>)
    requires Closed(g) && Path(g, path, avoid) && less <= avoid
    ensures Path(g, path, less)
  {
    if |path| > 1 {
      AvoidLess(g, path[1..], avoid, less);
    }
  }

  lemma ReachesNext(g: Graph, m: nat, c: nat, x: nat, avoid: set<nat>, less: set<nat>)
    requires Closed(g) && m < |g.nodes| && m !in less && Refers(g, m, c) && Reaches(g, c, x, avoid) && less <= avoid
    ensures Reaches(g, m, x, less)
  {
    var path :| Path(g, path, avoid) && path[0] == c && path[|path| - 1] == x;
    AvoidLess(g, path, avoid, less);
    assert ([m] + path)[1..] == path;
    assert Path(g, [m] + path, less);
  }

  /** Whatever a suggestion visits is reached past the matchers visited before. */
  lemma {:induction false} VisitedIsReached(g: Graph, m: nat, added: set<nat>, x: nat)
    requires Closed(g) && m < |g.nodes|
    requires x in Suggestion(g, m, added).added && x !in added
    ensures Reaches(g, m, x, added)
    decreases Unvisited(g, added), 0, 0
  {
    assert m in Unvisited(g, added) && m !in Unvisited(g, added + {m});
    assert WellLinked(g, g.nodes[m]);
    assert Path(g, [m], added);
    if x != m {
      match g.nodes[m]
      case ListMatcher(ms) =>
        assert ms[0..] == ms && ms[..0] == [];
        assert Trail(g, [], []);
        ListVisited(g, m, 0, added + {m}, added, x);
      case ChoiceMatcher(cs) =>
        assert cs[0..] == cs;
        ChoiceVisited(g, m, 0, added + {m}, added, x);
      case OptionalMatcher(c) =>
        VisitedIsReached(g, c, added + {m}, x);
        ReachesNext(g, m, c, x, added + {m}, added);
      case RepeatMatcher(c) =>
        VisitedIsReached(g, c, added + {m}, x);
        ReachesNext(g, m, c, x, added + {m}, added);
    }
  }

  lemma {:induction false} ListVisited(g: Graph, m: nat, k: nat, added: set<nat>, before: set<nat>, x: nat)
    requires Closed(g) && m < |g.nodes| && WellLinked(g, g.nodes[m]) && g.nodes[m].ListMatcher?
    requires k <= |g.nodes[m].matchers| && HasTrail(g, g.nodes[m].matchers[..k]) && before <= added && m !in before
    requires x in ListSuggestion(g, g.nodes[m].matchers[k..], added).added && x !in added
    ensures Reaches(g, m, x, before)
    decreases Unvisited(g, added), 1, |g.nodes[m].matchers| - k
  {
    hide Suggestion, Reaches, HasTrail;
    var ms := g.nodes[m].matchers;
    var first := Suggestion(g, ms[k], added);
    if x in first.added {
      VisitedIsReached(g, ms[k], added, x);
      assert Refers(g, m, ms[k]);
      ReachesNext(g, m, ms[k], x, added, before);
    } else {
      assert ms[k..][1..] == ms[k + 1..];
      UnvisitedShrinks(g, added, first.added);
      TrailOneMore(g, ms, k, added);
      ListVisited(g, m, k + 1, first.added, before, x);
    }
  }

  lemma {:induction false} ChoiceVisited(g: Graph, m: nat, k: nat, added: set<nat>, before: set<nat>, x: nat)
    requires Closed(g) && m < |g.nodes| && WellLinked(g, g.nodes[m]) && g.nodes[m].ChoiceMatcher?
    requires k <= |g.nodes[m].choices| && before <= added && m !in before
    requires x in ChoiceSuggestion(g, g.nodes[m].choices[k..], added).added && x !in added
    ensures Reaches(g, m, x, before)
    decreases Unvisited(g, added), 1, |g.nodes[m].choices| - k
  {
    hide Suggestion, Reaches;
    var cs := g.nodes[m].choices;
    var first := Suggestion(g, cs[k], added);
    if x in first.added {
      VisitedIsReached(g, cs[k], added, x);
      assert Refers(g, m, cs[k]);
      ReachesNext(g, m, cs[k], x, added, before);
    } else {
      assert cs[k..][1..] == cs[k + 1..];
      UnvisitedShrinks(g, added, first.added);
      ChoiceVisited(g, m, k + 1, first.added, before, x);
    }
  }

  lemma {:induction false} TrailConcat(g: Graph, a: seq<nat>, s: seq<nat>, b: seq<nat>, t: seq<nat>)
    requires Closed(g) && InGraph(g, a) && InGraph(g, b) && Trail(g, a, s) && Trail(g, b, t)
    ensures Trail(g, a + b, s + t)
    decreases |s|
  {
    if a == [] {
      assert a + b == b && s + t == t;
    } else {
      hide TrailRest, Trail;
      TrailTurn(g, a, s);
      TrailConcat(g, TrailRest(g, a), s[1..], b, t);
      assert (s + t)[1..] == s[1..] + t;
      RestConcat(g, a, b);
      TrailTurn(g, a + b, s + t);
    }
  }

  lemma RestConcat(g: Graph, a: seq<nat>, b: seq<nat>)
    requires Closed(g) && InGraph(g, a) && InGraph(g, b) && a != []
    ensures TrailRest(g, a + b) == TrailRest(g, a) + b
  {
    assert (a + b)[1..] == a[1..] + b;
  }

  lemma TrailOneMore(g: Graph, ms: seq<nat>, k: nat, added: set<nat>)
    requires Closed(g) && InGraph(g, ms) && k < |ms| && HasTrail(g, ms[..k])
    requires Suggestion(g, ms[k], added).kind == OPTIONAL
    ensures HasTrail(g, ms[..k + 1])
  {
    hide Suggestion, ListSuggestion, Trail;
    var s :| Trail(g, ms[..k], s);
    ListSuggestionTurn(g, [ms[k]], added);
    NothingLeft(g, Suggestion(g, ms[k], added).added);
    assert [ms[k]][1..] == [];
    var t := OptionalHasTrail(g, [ms[k]], added);
    TrailConcat(g, ms[..k], s, [ms[k]], t);
    assert ms[..k] + [ms[k]] == ms[..k + 1];
  }

  lemma NothingLeft(g: Graph, added: set<nat>)
    requires Closed(g)
    ensures ListSuggestion(g, [], added).kind == OPTIONAL
  {
  }

  // ----- what is surely visited -----

  lemma SelfVisited(g: Graph, m: nat, added: set<nat>)
    requires Closed(g) && m < |g.nodes|
    ensures m in Suggestion(g, m, added).added
  {
  }

  lemma FirstVisited(g: Graph, ms: seq<nat>, added: set<nat>)
    requires Closed(g) && InGraph(g, ms) && ms != []
    ensures ms[0] in ListSuggestion(g, ms, added).added
  {
    SelfVisited(g, ms[0], added);
    assert Suggestion(g, ms[0], added).added <= ListSuggestion(g, ms, added).added;
  }

  lemma {:induction false} ChoicesVisited(g: Graph, cs: seq<nat>, added: set<nat>, c: nat)
    requires Closed(g) && InGraph(g, cs) && c in cs
    ensures c in ChoiceSuggestion(g, cs, added).added
    decreases |cs|
  {
    SelfVisited(g, cs[0], added);
    if c != cs[0] {
      ChoicesVisited(g, cs[1..], Suggestion(g, cs[0], added).added, c);
    }
  }

  /** A matcher that a suggestion visits has its sure references visited too. */
  lemma {:induction false} VisitedIsClosed(g: Graph, m: nat, added: set<nat>, x: nat, c: nat)
    requires Closed(g) && m < |g.nodes|
    requires x in Suggestion(g, m, added).added && x !in added && x < |g.nodes| && SurelyRefers(g, x, c)
    ensures c in Suggestion(g, m, added).added
    decreases Unvisited(g, added), 0, 0
  {
    assert m in Unvisited(g, added) && m !in Unvisited(g, added + {m});
    assert WellLinked(g, g.nodes[m]);
    match g.nodes[m]
    case LeafMatcher(_) =>
    case ListMatcher(ms) =>
      if x == m {
        FirstVisited(g, ms, added + {m});
      } else {
        ListIsClosed(g, ms, added + {m}, x, c);
      }
    case ChoiceMatcher(cs) =>
      if x == m {
        ChoicesVisited(g, cs, added + {m}, c);
      } else {
        ChoiceIsClosed(g, cs, added + {m}, x, c);
      }
    case OptionalMatcher(o) =>
      if x == m {
        SelfVisited(g, o, added + {m});
      } else {
        VisitedIsClosed(g, o, added + {m}, x, c);
      }
    case RepeatMatcher(o) =>
      if x == m {
        SelfVisited(g, o, added + {m});
      } else {
        VisitedIsClosed(g, o, added + {m}, x, c);
      }
  }

  lemma {:induction false} ListIsClosed(g: Graph, ms: seq<nat>, added: set<nat>, x: nat, c: nat)
    requires Closed(g) && InGraph(g, ms)
    requires x in ListSuggestion(g, ms, added).added && x !in added && x < |g.nodes| && SurelyRefers(g, x, c)
    ensures c in ListSuggestion(g, ms, added).added
    decreases Unvisited(g, added), 1, |ms|
  {
    hide Suggestion, SurelyRefers;
    var first := Suggestion(g, ms[0], added);
    if x in first.added {
      VisitedIsClosed(g, ms[0], added, x, c);
    } else {
      UnvisitedShrinks(g, added, first.added);
      ListIsClosed(g, ms[1..], first.added, x, c);
    }
  }

  lemma {:induction false} ChoiceIsClosed(g: Graph, cs: seq<nat>, added: set<nat>, x: nat, c: nat)
    requires Closed(g) && InGraph(g, cs)
    requires x in ChoiceSuggestion(g, cs, added).added && x !in added && x < |g.nodes| && SurelyRefers(g, x, c)
    ensures c in ChoiceSuggestion(g, cs, added).added
    decreases Unvisited(g, added), 1, |cs|
  {
    hide Suggestion, SurelyRefers;
    var first := Suggestion(g, cs[0], added);
    if x in first.added {
      VisitedIsClosed(g, cs[0], added, x, c);
    } else {
      UnvisitedShrinks(g, added, first.added);
      ChoiceIsClosed(g, cs[1..], first.added, x, c);
    }
  }

  lemma {:induction false} PathIsVisited(g: Graph, m: nat, added: set<nat>, path: seq<nat>)
    requires Closed(g) && m < |g.nodes| && SurePath(g, path, added) && path[0] in Suggestion(g, m, added).added
    ensures path[|path| - 1] in Suggestion(g, m, added).added
    decreases |path|
  {
    hide Suggestion, SurelyRefers;
    if |path| > 1 {
      VisitedIsClosed(g, m, added, path[0], path[1]);
      PathIsVisited(g, m, added, path[1..]);
    }
  }

  /** What a suggestion visits lies between what is surely reached and what is reached, past the matchers visited
      before. */
  lemma VisitedBetween(g: Graph, m: nat, added: set<nat>, x: nat)
    requires Closed(g) && m < |g.nodes| && x !in added
    ensures SurelyReaches(g, m, x, added) ==> x in Suggestion(g, m, added).added
    ensures x in Suggestion(g, m, added).added ==> Reaches(g, m, x, added)
  {
    hide Suggestion, Path;
    if x in Suggestion(g, m, added).added {
      VisitedIsReached(g, m, added, x);
    }
    if path :| SurePath(g, path, added) && path[0] == m && path[|path| - 1] == x {
      SelfVisited(g, m, added);
      PathIsVisited(g, m, added, path);
    }
  }

  // ----- revisits in terms of reachability -----

  /** No entry has been visited to begin with, or is the same as an earlier one or reached from it. */
  ghost predicate Apart(g: Graph, trail: seq<nat>, added: set<nat>)
    requires Closed(g)
  {
    && (forall k :: 0 <= k < |trail| ==> trail[k] !in added)
    && forall j, k :: 0 <= j < k < |trail| ==> trail[j] != trail[k] && !Reaches(g, trail[j], trail[k], {})
  }

  lemma {:induction false} ApartIsFresh(g: Graph, trail: seq<nat>, added: set<nat>)
    requires Closed(g) && InGraph(g, trail) && Apart(g, trail, added)
    ensures Fresh(g, trail, added)
    decreases |trail|
  {
    if trail != [] {
      var m, rest := trail[0], trail[1..];
      forall k | 0 <= k < |rest| ensures rest[k] !in Visit(g, m, added) {
        assert rest[k] == trail[k + 1];
        if rest[k] in Visit(g, m, added) {
          VisitIsReached(g, m, added, rest[k]);
        }
      }
      assert Apart(g, rest, Visit(g, m, added)) by {
        forall j, k | 0 <= j < k < |rest| ensures rest[j] != rest[k] && !Reaches(g, rest[j], rest[k], {}) {
          assert rest[j] == trail[j + 1] && rest[k] == trail[k + 1];
        }
      }
      hide Visit, Apart;
      ApartIsFresh(g, rest, Visit(g, m, added));
    }
  }

  lemma VisitIsReached(g: Graph, m: nat, added: set<nat>, x: nat)
    requires Closed(g) && m < |g.nodes| && x in Visit(g, m, added) && x !in added && x != m
    ensures Reaches(g, m, x, {})
  {
    hide Suggestion, Reaches;
    assert WellLinked(g, g.nodes[m]);
    var c := g.nodes[m].matcher;
    VisitedIsReached(g, c, added + {m}, x);
    ReachesNext(g, m, c, x, added + {m}, {});
  }

  /** Every sure reference of what has been visited since `base` has been visited as well, or is the next entry. */
  ghost predicate Chained(g: Graph, base: set<nat>, added: set<nat>, trail: seq<nat>)
    requires Closed(g)
  {
    forall x, c :: x in added && x !in base && x < |g.nodes| && SurelyRefers(g, x, c) ==>
                     c in added || (trail != [] && c == trail[0])
  }

  lemma StillChained(g: Graph, ms: seq<nat>, trail: seq<nat>, base: set<nat>, added: set<nat>)
    requires Closed(g) && InGraph(g, ms) && Trail(g, ms, trail) && trail != [] && trail[0] < |g.nodes|
    requires Chained(g, base, added, trail) && trail[0] !in added
    ensures Chained(g, base, Visit(g, trail[0], added), trail[1..])
    ensures g.nodes[trail[0]].OptionalMatcher? ==> Chained(g, base, Visit(g, trail[0], added), [])
  {
    var m, now := trail[0], Visit(g, trail[0], added);
    hide Trail, TrailRest, Suggestion;
    TrailTurn(g, ms, trail);
    VisitAdds(g, m, added);
    forall x, c | x in now && x !in base && x < |g.nodes| && SurelyRefers(g, x, c)
      ensures c in now || (g.nodes[m].ListMatcher? && trail[1..] != [] && c == trail[1])
    {
      if x !in added && x != m {
        VisitedIsClosed(g, g.nodes[m].matcher, added + {m}, x, c);
      } else if x == m {
        if g.nodes[m].OptionalMatcher? {
          SelfVisited(g, c, added + {m});
        } else {
          TrailEntersList(g, ms, trail);
        }
      }
    }
  }

  lemma TrailEntersList(g: Graph, ms: seq<nat>, trail: seq<nat>)
    requires Closed(g) && InGraph(g, ms) && Trail(g, ms, trail) && trail != []
    requires trail[0] < |g.nodes| && g.nodes[trail[0]].ListMatcher? && g.nodes[trail[0]].matchers != []
    ensures |trail| > 1 && trail[1] == g.nodes[trail[0]].matchers[0]
  {
    TrailTurn(g, ms, trail);
    var rest := TrailRest(g, ms);
    assert rest[0] == g.nodes[trail[0]].matchers[0];
    assert trail[1..] != [];
  }

  lemma {:induction false} FreshIsUnvisited(g: Graph, trail: seq<nat>, added: set<nat>, k: nat)
    requires Closed(g) && InGraph(g, trail) && Fresh(g, trail, added) && k < |trail|
    ensures trail[k] !in added
    decreases |trail|
  {
    if k > 0 {
      VisitAdds(g, trail[0], added);
      FreshIsUnvisited(g, trail[1..], Visit(g, trail[0], added), k - 1);
    }
  }

  lemma {:induction false} ChainedPath(g: Graph, base: set<nat>, added: set<nat>, path: seq<nat>)
    requires Closed(g) && Chained(g, base, added, []) && SurePath(g, path, base) && path[0] in added
    ensures path[|path| - 1] in added
    decreases |path|
  {
    if |path| > 1 {
      ChainedPath(g, base, added, path[1..]);
    }
  }

  /** On a fresh trail nothing is surely reached from an optional matcher that stands before it. */
  lemma {:induction false} FreshIsApart(g: Graph, ms: seq<nat>, trail: seq<nat>, base: set<nat>, added: set<nat>,
                                        j: nat, k: nat)
    requires Closed(g) && InGraph(g, ms) && Trail(g, ms, trail) && InGraph(g, trail) && Fresh(g, trail, added)
    requires Chained(g, base, added, trail)
    requires j < k < |trail| && g.nodes[trail[j]].OptionalMatcher?
    ensures !SurelyReaches(g, trail[j], trail[k], base)
    decreases |trail|
  {
    assert ms != [];
    hide Trail, TrailRest, Visit, Chained;
    var m, now := trail[0], Visit(g, trail[0], added);
    TrailTurn(g, ms, trail);
    StillChained(g, ms, trail, base, added);
    if j > 0 {
      FreshIsApart(g, TrailRest(g, ms), trail[1..], base, now, j - 1, k - 1);
    } else {
      VisitAdds(g, m, added);
      FreshIsUnvisited(g, trail[1..], now, k - 1);
      forall path | SurePath(g, path, base) && path[0] == m ensures path[|path| - 1] != trail[k] {
        ChainedPath(g, base, now, path);
      }
    }
  }

  lemma {:induction false} FreshHasNoRepeats(g: Graph, trail: seq<nat>, added: set<nat>, j: nat, k: nat)
    requires Closed(g) && InGraph(g, trail) && Fresh(g, trail, added) && j < k < |trail|
    ensures trail[j] != trail[k]
    decreases |trail|
  {
    var now := Visit(g, trail[0], added);
    if j > 0 {
      FreshHasNoRepeats(g, trail[1..], now, j - 1, k - 1);
    } else {
      VisitAdds(g, trail[0], added);
      FreshIsUnvisited(g, trail[1..], now, k - 1);
    }
  }

  /** A trail is fresh if its entries are apart, and only if none has been visited to begin with, occurs twice, or is
      surely reached from an optional matcher before it. */
  lemma FreshBetween(g: Graph, ms: seq<nat>, trail: seq<nat>, added: set<nat>)
    requires Closed(g) && InGraph(g, ms) && Trail(g, ms, trail) && InGraph(g, trail)
    ensures Apart(g, trail, added) ==> Fresh(g, trail, added)
    ensures Fresh(g, trail, added) ==>
              && (forall k :: 0 <= k < |trail| ==> trail[k] !in added)
              && (forall j, k :: 0 <= j < k < |trail| ==> trail[j] != trail[k])
              && (forall j, k :: 0 <= j < k < |trail| && g.nodes[trail[j]].OptionalMatcher? ==>
                    !SurelyReaches(g, trail[j], trail[k], added))
  {
    hide Fresh, Apart, Trail, SurelyReaches;
    if Apart(g, trail, added) {
      ApartIsFresh(g, trail, added);
    }
    if Fresh(g, trail, added) {
      forall k | 0 <= k < |trail| ensures trail[k] !in added {
        FreshIsUnvisited(g, trail, added, k);
      }
      forall j, k | 0 <= j < k < |trail| ensures trail[j] != trail[k] {
        FreshHasNoRepeats(g, trail, added, j, k);
      }
      forall j, k | 0 <= j < k < |trail| && g.nodes[trail[j]].OptionalMatcher?
        ensures !SurelyReaches(g, trail[j], trail[k], added)
      {
        FreshIsApart(g, ms, trail, added, added, j, k);
      }
    }
  }

  // ----- examples -----

  /** A choice that derives no token is mandatory all the same, although nothing is shared. */
  lemma EmptyChoice(accepts: (Leaf, string) -> bool)
    ensures var g := Graph([ChoiceMatcher([1]), OptionalMatcher(2), LeafMatcher(StringLiteral)], accepts);
            && Closed(g) && AllEmpty(g, [0]) && HoldsChoiceOrRepeat(g, [0])
            && ListSuggestion(g, [0], {}).kind == MANDATORY
  {
    var g := Graph([ChoiceMatcher([1]), OptionalMatcher(2), LeafMatcher(StringLiteral)], accepts);
    assert Closed(g);
    assert Derives(g, 0, Alternative(0, Absent));
    assert DerivesAll(g, [0], [Alternative(0, Absent)]) && YieldAll([Alternative(0, Absent)]) == [];
    assert ChoiceOrRepeatAt(g, [0], [0]);
    ShortcutMisses(g, [0], {});
  }

  function CutGraph(accepts: (Leaf, string) -> bool): (g: Graph)
    ensures Closed(g)
  {
    Graph([OptionalMatcher(1), ListMatcher([2, 3, 4]), OptionalMatcher(3), OptionalMatcher(5), OptionalMatcher(5),
           LeafMatcher(StringLiteral)], accepts)
  }

  lemma CutListVisits(accepts: (Leaf, string) -> bool)
    ensures var s := Suggestion(CutGraph(accepts), 0, {}); s.kind == OPTIONAL && s.added == {0, 1, 2, 3, 5}
  {
    var g := CutGraph(accepts);
    assert [2, 3, 4][1..] == [3, 4];
    assert {} + {0} == {0} && {0} + {1} == {0, 1} && {0, 1} + {2} == {0, 1, 2} && {0, 1, 2} + {3} == {0, 1, 2, 3};
    assert {0, 1, 2, 3} + {5} == {0, 1, 2, 3, 5};
    assert Suggestion(g, 5, {0, 1, 2, 3}).added == {0, 1, 2, 3, 5};
    assert Suggestion(g, 3, {0, 1, 2}).added == {0, 1, 2, 3, 5};
    assert Suggestion(g, 2, {0, 1}) == Suggestion(g, 3, {0, 1, 2}).(kind := OPTIONAL);
    assert ListSuggestion(g, [3, 4], {0, 1, 2, 3, 5}).added == {0, 1, 2, 3, 5};
    assert ListSuggestion(g, [2, 3, 4], {0, 1}).added == {0, 1, 2, 3, 5};
    assert Suggestion(g, 1, {0}).added == {0, 1, 2, 3, 5};
  }

  /** Reaching alone does not make a revisit: the list below the first member refers to the second member, but is left
      before it comes to it, because it meets one of its own members again. */
  lemma CutList(accepts: (Leaf, string) -> bool)
    ensures Reaches(CutGraph(accepts), 0, 4, {}) && ListSuggestion(CutGraph(accepts), [0, 4], {}).kind == OPTIONAL
  {
    var g := CutGraph(accepts);
    assert Reaches(g, 0, 4, {}) by {
      assert [2, 3, 4][..2] == [2, 3] && [2, 3][1..] == [3];
      assert Trail(g, [3], [3]) && Trail(g, [2, 3], [2, 3]);
      assert Refers(g, 1, 4);
      assert [0, 1, 4][1..] == [1, 4] && [1, 4][1..] == [4];
      assert Path(g, [4], {}) && Path(g, [1, 4], {}) && Path(g, [0, 1, 4], {});
    }
    hide Suggestion, ListSuggestion;
    var visited := {0, 1, 2, 3, 5};
    CutListVisits(accepts);
    assert [0, 4][1..] == [4] && [4][1..] == [];
    ListSuggestionTurn(g, [0, 4], {});
    ListSuggestionTurn(g, [4], visited);
    SuggestionTurn(g, 4, visited);
    NothingLeft(g, Suggestion(g, 4, visited).added);
  }
}
