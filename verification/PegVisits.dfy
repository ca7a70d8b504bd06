/** Exactly which matchers the suggestion of a matcher visits, and so which members the end-of-input shortcut comes to
    twice. */
module PegVisits {
  import opened Sequences
  import opened PegMatcher
  import opened PegLanguage
  import opened PegShortcut

  // ----- when a matcher is come to -----

  /** The matchers that have been visited when the suggestion of `m` first comes to `x`. */
  function Entry(g: Graph, m: nat, added: set<nat>, x: nat): Option<set<nat>>
    requires Closed(g) && m < |g.nodes|
    decreases Unvisited(g, added), 0, 0
  {
    if m in added then None
    else if m == x then Some(added)
    else
      assert m in Unvisited(g, added) && m !in Unvisited(g, added + {m});
      assert WellLinked(g, g.nodes[m]);
      match g.nodes[m]
      case LeafMatcher(_) => None
      case ListMatcher(ms) => ListEntry(g, ms, added + {m}, x)
      case OptionalMatcher(c) => Entry(g, c, added + {m}, x)
      case ChoiceMatcher(cs) => ChoiceEntry(g, cs, added + {m}, x)
      case RepeatMatcher(c) => Entry(g, c, added + {m}, x)
  }

  function ListEntry(g: Graph, ms: seq<nat>, added: set<nat>, x: nat): Option<set<nat>>
    requires Closed(g) && InGraph(g, ms)
    decreases Unvisited(g, added), 1, |ms|
  {
    if ms == [] then None else
    var first := Entry(g, ms[0], added, x);
    var s := Suggestion(g, ms[0], added);
    assert Unvisited(g, s.added) <= Unvisited(g, added);
    if first.Some? then first else if s.kind == MANDATORY then None else ListEntry(g, ms[1..], s.added, x)
  }

  function ChoiceEntry(g: Graph, cs: seq<nat>, added: set<nat>, x: nat): Option<set<nat>>
    requires Closed(g) && InGraph(g, cs)
    decreases Unvisited(g, added), 1, |cs|
  {
    if cs == [] then None else
    var first := Entry(g, cs[0], added, x);
    var s := Suggestion(g, cs[0], added);
    assert Unvisited(g, s.added) <= Unvisited(g, added);
    if first.Some? then first else ChoiceEntry(g, cs[1..], s.added, x)
  }

  /** It is between the matchers visited before and those visited in the end. */
  predicate Enters(entry: Option<set<nat>>, added: set<nat>, after: set<nat>, x: nat) {
    && (entry.Some? <==> x in after && x !in added)
    && (entry.Some? ==> added <= entry.value <= after && x !in entry.value)
  }

  lemma {:induction false} EntryEnters(g: Graph, m: nat, added: set<nat>, x: nat)
    requires Closed(g) && m < |g.nodes|
    ensures Enters(Entry(g, m, added, x), added, Suggestion(g, m, added).added, x)
    decreases Unvisited(g, added), 0, 0
  {
    if m !in added {
      assert m in Unvisited(g, added) && m !in Unvisited(g, added + {m});
      assert WellLinked(g, g.nodes[m]);
      match g.nodes[m]
      case LeafMatcher(_) =>
      case ListMatcher(ms) => ListEnters(g, ms, added + {m}, x);
      case OptionalMatcher(c) => EntryEnters(g, c, added + {m}, x);
      case ChoiceMatcher(cs) => ChoiceEnters(g, cs, added + {m}, x);
      case RepeatMatcher(c) => EntryEnters(g, c, added + {m}, x);
    }
  }

  lemma {:induction false} ListEnters(g: Graph, ms: seq<nat>, added: set<nat>, x: nat)
    requires Closed(g) && InGraph(g, ms)
    ensures Enters(ListEntry(g, ms, added, x), added, ListSuggestion(g, ms, added).added, x)
    decreases Unvisited(g, added), 1, |ms|
  {
    hide Suggestion, Entry;
    if ms != [] {
      EntryEnters(g, ms[0], added, x);
      UnvisitedShrinks(g, added, Suggestion(g, ms[0], added).added);
      ListEnters(g, ms[1..], Suggestion(g, ms[0], added).added, x);
    }
  }

  lemma {:induction false} ChoiceEnters(g: Graph, cs: seq<nat>, added: set<nat>, x: nat)
    requires Closed(g) && InGraph(g, cs)
    ensures Enters(ChoiceEntry(g, cs, added, x), added, ChoiceSuggestion(g, cs, added).added, x)
    decreases Unvisited(g, added), 1, |cs|
  {
    hide Suggestion, Entry;
    if cs != [] {
      EntryEnters(g, cs[0], added, x);
      UnvisitedShrinks(g, added, Suggestion(g, cs[0], added).added);
      ChoiceEnters(g, cs[1..], Suggestion(g, cs[0], added).added, x);
    }
  }

  // ----- what is come to next -----

  /** A matcher that is come to when those in `before` have been visited suggests this matcher: of a list, a member in
      front of which all others are left out. */
  ghost predicate Next(g: Graph, m: nat, before: set<nat>, c: nat)
    requires Closed(g) && m < |g.nodes|
  {
    assert WellLinked(g, g.nodes[m]);
    match g.nodes[m]
    case LeafMatcher(_) => false
    case ListMatcher(ms) => exists k :: 0 <= k < |ms| && ms[k] == c && LeftOut(g, ms[..k], before + {m})
    case OptionalMatcher(x) => c == x
    case ChoiceMatcher(cs) => c in cs
    case RepeatMatcher(x) => c == x
  }

  lemma NextIsVisited(g: Graph, m: nat, added: set<nat>, c: nat)
    requires Closed(g) && m < |g.nodes| && m !in added && Next(g, m, added, c)
    ensures c in Suggestion(g, m, added).added
  {
    assert WellLinked(g, g.nodes[m]);
    match g.nodes[m]
    case ListMatcher(ms) =>
      var k :| 0 <= k < |ms| && ms[k] == c && LeftOut(g, ms[..k], added + {m});
      ShortcutExactly(g, ms[..k], added + {m});
      assert ms[..k] + ms[k..] == ms;
      ListSuggestionConcat(g, ms[..k], ms[k..], added + {m});
      FirstVisited(g, ms[k..], ListSuggestion(g, ms[..k], added + {m}).added);
    case OptionalMatcher(x) => SelfVisited(g, x, added + {m});
    case ChoiceMatcher(cs) => ChoicesVisited(g, cs, added + {m}, c);
    case RepeatMatcher(x) => SelfVisited(g, x, added + {m});
  }

  /** What a visited matcher suggests is visited. */
  lemma {:induction false} NextOfEntry(g: Graph, m: nat, added: set<nat>, a: nat, c: nat)
    requires Closed(g) && m < |g.nodes| && a < |g.nodes|
    requires Entry(g, m, added, a).Some? && Next(g, a, Entry(g, m, added, a).value, c)
    ensures c in Suggestion(g, m, added).added
    decreases Unvisited(g, added), 0, 0
  {
    hide Next;
    if a == m {
      NextIsVisited(g, m, added, c);
    } else {
      assert m in Unvisited(g, added) && m !in Unvisited(g, added + {m});
      assert WellLinked(g, g.nodes[m]);
      match g.nodes[m]
      case ListMatcher(ms) => NextOfListEntry(g, ms, added + {m}, a, c);
      case OptionalMatcher(x) => NextOfEntry(g, x, added + {m}, a, c);
      case ChoiceMatcher(cs) => NextOfChoiceEntry(g, cs, added + {m}, a, c);
      case RepeatMatcher(x) => NextOfEntry(g, x, added + {m}, a, c);
    }
  }

  lemma {:induction false} NextOfListEntry(g: Graph, ms: seq<nat>, added: set<nat>, a: nat, c: nat)
    requires Closed(g) && InGraph(g, ms) && a < |g.nodes|
    requires ListEntry(g, ms, added, a).Some? && Next(g, a, ListEntry(g, ms, added, a).value, c)
    ensures c in ListSuggestion(g, ms, added).added
    decreases Unvisited(g, added), 1, |ms|
  {
    hide Next, Suggestion, Entry;
    var first := Suggestion(g, ms[0], added);
    if Entry(g, ms[0], added, a).Some? {
      NextOfEntry(g, ms[0], added, a, c);
    } else {
      UnvisitedShrinks(g, added, first.added);
      NextOfListEntry(g, ms[1..], first.added, a, c);
    }
  }

  lemma {:induction false} NextOfChoiceEntry(g: Graph, cs: seq<nat>, added: set<nat>, a: nat, c: nat)
    requires Closed(g) && InGraph(g, cs) && a < |g.nodes|
    requires ChoiceEntry(g, cs, added, a).Some? && Next(g, a, ChoiceEntry(g, cs, added, a).value, c)
    ensures c in ChoiceSuggestion(g, cs, added).added
    decreases Unvisited(g, added), 1, |cs|
  {
    hide Next, Suggestion, Entry;
    var first := Suggestion(g, cs[0], added);
    if Entry(g, cs[0], added, a).Some? {
      NextOfEntry(g, cs[0], added, a, c);
    } else {
      UnvisitedShrinks(g, added, first.added);
      NextOfChoiceEntry(g, cs[1..], first.added, a, c);
    }
  }

  // ----- what is come to has been suggested -----

  /** `a` was come to before `x`, and suggests it. */
  ghost predicate Parent(g: Graph, a: nat, entry: Option<set<nat>>, x: nat, before: set<nat>)
    requires Closed(g)
  {
    && a < |g.nodes| && entry.Some? && entry.value <= before && a in before && a !in entry.value
    && Next(g, a, entry.value, x)
  }

  lemma {:induction false} FindParent(g: Graph, m: nat, added: set<nat>, x: nat) returns (a: nat)
    requires Closed(g) && m < |g.nodes| && x != m && Entry(g, m, added, x).Some?
    ensures Parent(g, a, Entry(g, m, added, a), x, Entry(g, m, added, x).value)
    decreases Unvisited(g, added), 0, 0
  {
    assert m in Unvisited(g, added) && m !in Unvisited(g, added + {m});
    assert WellLinked(g, g.nodes[m]);
    var now := added + {m};
    match g.nodes[m]
    case ListMatcher(ms) =>
      var k;
      k, a := FindListParent(g, ms, now, x);
      ListEnters(g, ms, now, x);
      if k < |ms| {
        ShortcutExactly(g, ms[..k], now);
        assert Next(g, m, added, x);
        a := m;
      } else {
        ListEnters(g, ms, now, a);
      }
    case ChoiceMatcher(cs) =>
      var direct;
      direct, a := FindChoiceParent(g, cs, now, x);
      ChoiceEnters(g, cs, now, x);
      if direct {
        a := m;
      } else {
        ChoiceEnters(g, cs, now, a);
      }
    case OptionalMatcher(c) => a := ParentBelow(g, m, c, added, x);
    case RepeatMatcher(c) => a := ParentBelow(g, m, c, added, x);
  }

  lemma {:induction false} ParentBelow(g: Graph, m: nat, c: nat, added: set<nat>, x: nat) returns (a: nat)
    requires Closed(g) && m < |g.nodes| && m !in added && c < |g.nodes| && x != m
    requires g.nodes[m] == OptionalMatcher(c) || g.nodes[m] == RepeatMatcher(c)
    requires Entry(g, m, added, x) == Entry(g, c, added + {m}, x) != None
    ensures Parent(g, a, Entry(g, m, added, a), x, Entry(g, m, added, x).value)
    decreases Unvisited(g, added + {m}), 0, 1
  {
    EntryEnters(g, c, added + {m}, x);
    if x == c {
      a := m;
    } else {
      a := FindParent(g, c, added + {m}, x);
      EntryEnters(g, c, added + {m}, a);
    }
  }

  /** Either the list itself suggests it, as member `k`, or one of its members does. */
  lemma {:induction false} FindListParent(g: Graph, ms: seq<nat>, added: set<nat>, x: nat) returns (k: nat, a: nat)
    requires Closed(g) && InGraph(g, ms) && ListEntry(g, ms, added, x).Some?
    ensures k <= |ms|
    ensures if k < |ms| then ms[k] == x && ListSuggestion(g, ms[..k], added).kind == OPTIONAL
            else Parent(g, a, ListEntry(g, ms, added, a), x, ListEntry(g, ms, added, x).value)
    decreases Unvisited(g, added), 1, |ms|
  {
    hide Suggestion, Entry, Next;
    var first := Suggestion(g, ms[0], added);
    k, a := |ms|, 0;
    if ms[0] == x {
      k := 0;
    } else if Entry(g, ms[0], added, x).Some? {
      a := FindParent(g, ms[0], added, x);
    } else {
      UnvisitedShrinks(g, added, first.added);
      var k', a' := FindListParent(g, ms[1..], first.added, x);
      k, a := k' + 1, a';
      if k' < |ms| - 1 {
        assert ms[..k][1..] == ms[1..][..k'];
        ListSuggestionTurn(g, ms[..k], added);
      } else {
        EntryEnters(g, ms[0], added, a);
        ListEnters(g, ms[1..], first.added, a);
      }
    }
  }

  lemma {:induction false} FindChoiceParent(g: Graph, cs: seq<nat>, added: set<nat>, x: nat)
    returns (direct: bool, a: nat)
    requires Closed(g) && InGraph(g, cs) && ChoiceEntry(g, cs, added, x).Some?
    ensures if direct then x in cs else Parent(g, a, ChoiceEntry(g, cs, added, a), x, ChoiceEntry(g, cs, added, x).value)
    decreases Unvisited(g, added), 1, |cs|
  {
    hide Suggestion, Entry, Next;
    var first := Suggestion(g, cs[0], added);
    direct, a := cs[0] == x, 0;
    if !direct {
      if Entry(g, cs[0], added, x).Some? {
        a := FindParent(g, cs[0], added, x);
      } else {
        UnvisitedShrinks(g, added, first.added);
        direct, a := FindChoiceParent(g, cs[1..], first.added, x);
        if !direct {
          EntryEnters(g, cs[0], added, a);
          ChoiceEnters(g, cs[1..], first.added, a);
        }
      }
    }
  }

  // ----- exactly what is visited -----

  /** A path on which every matcher suggests the next one when it is come to. */
  ghost predicate Walk(g: Graph, m: nat, added: set<nat>, path: seq<nat>)
    requires Closed(g) && m < |g.nodes|
  {
    && path != [] && path[0] == m
    && forall k :: 0 <= k < |path| - 1 ==> SuggestsNext(g, m, added, path[k], path[k + 1])
  }

  ghost predicate SuggestsNext(g: Graph, m: nat, added: set<nat>, a: nat, c: nat)
    requires Closed(g) && m < |g.nodes|
  {
    a < |g.nodes| && Entry(g, m, added, a).Some? && Next(g, a, Entry(g, m, added, a).value, c)
  }

  ghost predicate Walks(g: Graph, m: nat, added: set<nat>, x: nat)
    requires Closed(g) && m < |g.nodes|
  {
    exists path :: Walk(g, m, added, path) && path[|path| - 1] == x
  }

  lemma {:induction false} EntryHasWalk(g: Graph, m: nat, added: set<nat>, x: nat)
    requires Closed(g) && m < |g.nodes| && Entry(g, m, added, x).Some?
    ensures Walks(g, m, added, x)
    decreases |Entry(g, m, added, x).value|
  {
    if x == m {
      assert Walk(g, m, added, [m]);
    } else {
      var a := FindParent(g, m, added, x);
      SmallerSet(Entry(g, m, added, a).value, Entry(g, m, added, x).value, a);
      EntryHasWalk(g, m, added, a);
      hide Entry, Next;
      var path :| Walk(g, m, added, path) && path[|path| - 1] == a;
      forall k | 0 <= k < |path| ensures SuggestsNext(g, m, added, (path + [x])[k], (path + [x])[k + 1]) {
        if k < |path| - 1 {
          assert SuggestsNext(g, m, added, path[k], path[k + 1]);
        }
      }
      assert Walk(g, m, added, path + [x]);
    }
  }

  lemma SmallerSet(a: set<nat>, b: set<nat>, x: nat)
    requires a <= b && x in b && x !in a
    ensures |a| < |b|
  {
    assert b == a + (b - a) && x in b - a;
  }

  /** The suggestion of a matcher visits exactly those matchers, besides the ones visited before, to which there is a
      path on which every matcher suggests the next one when it is come to: of a list, a member in front of which all
      others are left out then. */
  lemma VisitedExactly(g: Graph, m: nat, added: set<nat>, x: nat)
    requires Closed(g) && m < |g.nodes| && m !in added && x !in added
    ensures x in Suggestion(g, m, added).added <==> Walks(g, m, added, x)
  {
    EntryEnters(g, m, added, x);
    if x in Suggestion(g, m, added).added {
      EntryHasWalk(g, m, added, x);
    }
    if path :| Walk(g, m, added, path) && path[|path| - 1] == x {
      if |path| == 1 {
        SelfVisited(g, m, added);
      } else {
        assert SuggestsNext(g, m, added, path[|path| - 2], path[|path| - 2 + 1]);
        NextOfEntry(g, m, added, path[|path| - 2], x);
      }
    }
  }

  // ----- revisits -----

  /** What has been visited when the trail has been followed. */
  function After(g: Graph, trail: seq<nat>, added: set<nat>): set<nat>
    requires Closed(g) && InGraph(g, trail)
  {
    if trail == [] then added else
    var before := After(g, trail[..|trail| - 1], added);
    Visit(g, trail[|trail| - 1], before)
  }

  /** The trail's entry `j` is an optional matcher, and the suggestion of what is below it comes to `x`. */
  ghost predicate WalksFrom(g: Graph, trail: seq<nat>, added: set<nat>, j: nat, x: nat)
    requires Closed(g) && InGraph(g, trail) && j < |trail|
  {
    assert WellLinked(g, g.nodes[trail[j]]);
    g.nodes[trail[j]].OptionalMatcher? &&
    var c, now := g.nodes[trail[j]].matcher, After(g, trail[..j], added) + {trail[j]};
    c !in now && x !in now && Walks(g, c, now, x)
  }

  lemma {:induction false} AfterExactly(g: Graph, trail: seq<nat>, added: set<nat>, x: nat)
    requires Closed(g) && InGraph(g, trail)
    ensures x in After(g, trail, added) <==>
              x in added || x in trail || exists j :: 0 <= j < |trail| && WalksFrom(g, trail, added, j, x)
    decreases |trail|
  {
    if trail != [] {
      var before, last := trail[..|trail| - 1], |trail| - 1;
      AfterExactly(g, before, added, x);
      VisitExactly(g, trail, added, x);
      assert trail == before + [trail[last]];
      forall j | 0 <= j < last ensures WalksFrom(g, trail, added, j, x) <==> WalksFrom(g, before, added, j, x) {
        assert trail[..j] == before[..j];
      }
      hide After, WalksFrom, Visit;
    }
  }

  lemma VisitExactly(g: Graph, trail: seq<nat>, added: set<nat>, x: nat)
    requires Closed(g) && InGraph(g, trail) && trail != []
    ensures x in After(g, trail, added) <==>
              x in After(g, trail[..|trail| - 1], added) || x == trail[|trail| - 1]
              || WalksFrom(g, trail, added, |trail| - 1, x)
  {
    var m, before := trail[|trail| - 1], After(g, trail[..|trail| - 1], added);
    assert WellLinked(g, g.nodes[m]);
    hide Suggestion, Walks, After;
    if g.nodes[m].OptionalMatcher? && x !in before + {m} {
      var c := g.nodes[m].matcher;
      if c in before + {m} {
        KnownAddsNothing(g, c, before + {m});
      } else {
        VisitedExactly(g, c, before + {m}, x);
      }
    }
  }

  lemma KnownAddsNothing(g: Graph, m: nat, added: set<nat>)
    requires Closed(g) && m < |g.nodes| && m in added
    ensures Suggestion(g, m, added).added == added
  {
  }

  lemma {:induction false} AfterFront(g: Graph, trail: seq<nat>, added: set<nat>)
    requires Closed(g) && InGraph(g, trail) && trail != []
    ensures After(g, trail, added) == After(g, trail[1..], Visit(g, trail[0], added))
    decreases |trail|
  {
    hide Visit;
    if |trail| == 1 {
      assert trail[..0] == [] && trail[1..] == [];
    } else {
      AfterFront(g, trail[..|trail| - 1], added);
      assert trail[1..][..|trail| - 2] == trail[..|trail| - 1][1..];
    }
  }

  lemma {:induction false} FreshIsNotAfter(g: Graph, trail: seq<nat>, added: set<nat>)
    requires Closed(g) && InGraph(g, trail)
    ensures Fresh(g, trail, added) <==> forall k :: 0 <= k < |trail| ==> trail[k] !in After(g, trail[..k], added)
    decreases |trail|
  {
    hide Visit;
    if trail != [] {
      var rest, now := trail[1..], Visit(g, trail[0], added);
      FreshIsNotAfter(g, rest, now);
      assert trail[..0] == [];
      forall k | 0 <= k < |rest| ensures After(g, trail[..k + 1], added) == After(g, rest[..k], now) {
        AfterFront(g, trail[..k + 1], added);
        assert trail[..k + 1][1..] == rest[..k];
      }
      hide After;
      if forall k :: 0 <= k < |trail| ==> trail[k] !in After(g, trail[..k], added) {
        forall k | 0 <= k < |rest| ensures rest[k] !in After(g, rest[..k], now) {
          assert trail[k + 1] !in After(g, trail[..k + 1], added);
        }
        assert trail[0] !in After(g, trail[..0], added);
      }
      if Fresh(g, trail, added) {
        forall k | 0 <= k < |trail| ensures trail[k] !in After(g, trail[..k], added) {
          if k > 0 {
            assert rest[k - 1] !in After(g, rest[..k - 1], now);
          } else {
            NothingAfter(g, added);
          }
        }
      }
    }
  }

  lemma NothingAfter(g: Graph, added: set<nat>)
    requires Closed(g)
    ensures After(g, [], added) == added
  {
  }

  /** A trail is fresh exactly if no entry has been visited to begin with, occurs twice, or is come to by the suggestion
      of what is below an optional matcher in front of it. */
  lemma FreshExactly(g: Graph, trail: seq<nat>, added: set<nat>)
    requires Closed(g) && InGraph(g, trail)
    ensures Fresh(g, trail, added) <==>
              && (forall k :: 0 <= k < |trail| ==> trail[k] !in added)
              && (forall j, k :: 0 <= j < k < |trail| ==> trail[j] != trail[k])
              && (forall j, k :: 0 <= j < k < |trail| ==> !WalksFrom(g, trail, added, j, trail[k]))
  {
    FreshIsNotAfter(g, trail, added);
    forall k | 0 <= k < |trail|
      ensures trail[k] in After(g, trail[..k], added) <==>
                || trail[k] in added
                || exists j :: 0 <= j < k && (trail[j] == trail[k] || WalksFrom(g, trail, added, j, trail[k]))
    {
      AfterExactly(g, trail[..k], added, trail[k]);
      forall j | 0 <= j < k
        ensures WalksFrom(g, trail[..k], added, j, trail[k]) <==> WalksFrom(g, trail, added, j, trail[k])
      {
        assert trail[..k][..j] == trail[..j];
      }
      hide After, WalksFrom;
      if trail[k] in trail[..k] {
        var j :| 0 <= j < k && trail[..k][j] == trail[k];
        assert trail[j] == trail[k];
      }
      if j :| 0 <= j < k && WalksFrom(g, trail[..k], added, j, trail[k]) {
        assert WalksFrom(g, trail, added, j, trail[k]);
      }
    }
    hide After, WalksFrom, Fresh;
  }

  // ----- what a suggestion pushes -----

  predicate Suggester(g: Graph, m: nat) {
    m < |g.nodes| && g.nodes[m].LeafMatcher? && Suggests(g.nodes[m].leaf)
  }

  /** The log holds the leaves of these matchers: those that suggest something and have been visited in between, each
      of them once. */
  ghost predicate Pushes(g: Graph, ids: seq<nat>, log: seq<Leaf>, added: set<nat>, after: set<nat>) {
    && |ids| == |log|
    && (forall k :: 0 <= k < |ids| ==> ids[k] < |g.nodes| && g.nodes[ids[k]] == LeafMatcher(log[k]))
    && (forall j, k :: 0 <= j < k < |ids| ==> ids[j] != ids[k])
    && (forall x :: x in ids <==> x in after && x !in added && Suggester(g, x))
  }

  lemma PushesConcat(g: Graph, a: seq<nat>, la: seq<Leaf>, b: seq<nat>, lb: seq<Leaf>, added: set<nat>, mid: set<nat>,
                     after: set<nat>)
    requires Pushes(g, a, la, added, mid) && Pushes(g, b, lb, mid, after) && added <= mid <= after
    ensures Pushes(g, a + b, la + lb, added, after)
  {
    forall j, k | 0 <= j < k < |a + b| ensures (a + b)[j] != (a + b)[k] {
      if j < |a| <= k {
        assert a[j] in a && b[k - |a|] in b;
      }
    }
    forall x ensures x in a + b <==> x in after && x !in added && Suggester(g, x) {
      assert x in a + b <==> x in a || x in b;
    }
  }

  /** A suggestion pushes the keywords and identifiers among the matchers that it is the first to visit, each once. */
  lemma {:induction false} EachPushedOnce(g: Graph, m: nat, added: set<nat>) returns (ids: seq<nat>)
    requires Closed(g) && m < |g.nodes|
    ensures var s := Suggestion(g, m, added); Pushes(g, ids, s.log, added, s.added)
    decreases Unvisited(g, added), 0, 0
  {
    ids := [];
    if m !in added {
      assert m in Unvisited(g, added) && m !in Unvisited(g, added + {m});
      assert WellLinked(g, g.nodes[m]);
      match g.nodes[m]
      case LeafMatcher(leaf) => ids := if Suggests(leaf) then [m] else [];
      case ListMatcher(ms) => ids := ListPushedOnce(g, ms, added + {m});
      case OptionalMatcher(c) => ids := EachPushedOnce(g, c, added + {m});
      case ChoiceMatcher(cs) => ids := ChoicePushedOnce(g, cs, added + {m});
      case RepeatMatcher(c) => ids := EachPushedOnce(g, c, added + {m});
    }
  }

  lemma {:induction false} ListPushedOnce(g: Graph, ms: seq<nat>, added: set<nat>) returns (ids: seq<nat>)
    requires Closed(g) && InGraph(g, ms)
    ensures var s := ListSuggestion(g, ms, added); Pushes(g, ids, s.log, added, s.added)
    decreases Unvisited(g, added), 1, |ms|
  {
    hide Suggestion, Pushes, Unvisited;
    if ms == [] {
      ids := [];
      NothingPushed(g, added);
    } else {
      var first := Suggestion(g, ms[0], added);
      ids := EachPushedOnce(g, ms[0], added);
      if first.kind == OPTIONAL {
        UnvisitedShrinks(g, added, first.added);
        var rest := ListSuggestion(g, ms[1..], first.added);
        var below := ListPushedOnce(g, ms[1..], first.added);
        PushesConcat(g, ids, first.log, below, rest.log, added, first.added, rest.added);
        ids := ids + below;
      }
    }
  }

  lemma {:induction false} ChoicePushedOnce(g: Graph, cs: seq<nat>, added: set<nat>) returns (ids: seq<nat>)
    requires Closed(g) && InGraph(g, cs)
    ensures var s := ChoiceSuggestion(g, cs, added); Pushes(g, ids, s.log, added, s.added)
    decreases Unvisited(g, added), 1, |cs|
  {
    hide Suggestion, Pushes, Unvisited;
    if cs == [] {
      ids := [];
      NothingPushed(g, added);
    } else {
      var first := Suggestion(g, cs[0], added);
      ids := EachPushedOnce(g, cs[0], added);
      UnvisitedShrinks(g, added, first.added);
      var rest := ChoiceSuggestion(g, cs[1..], first.added);
      var below := ChoicePushedOnce(g, cs[1..], first.added);
      PushesConcat(g, ids, first.log, below, rest.log, added, first.added, rest.added);
      ids := ids + below;
    }
  }

  lemma NothingPushed(g: Graph, added: set<nat>)
    ensures Pushes(g, [], [], added, added)
  {
  }
}
