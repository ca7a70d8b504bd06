/** When there is a certificate that matching terminates: exactly without left recursion and repeats of what derives no
    token. */
module PegCertificate {
  import opened PegMatcher
  import opened PegLanguage
  import opened PegTermination

  ghost predicate Empty(g: Graph, m: nat)
    requires Closed(g) && m < |g.nodes|
  {
    InLanguage(g, m, [])
  }

  predicate Child(n: Matcher, c: nat) {
    match n
    case LeafMatcher(_) => false
    case ListMatcher(ms) => c in ms
    case OptionalMatcher(x) => c == x
    case ChoiceMatcher(cs) => c in cs
    case RepeatMatcher(x) => c == x
  }

  /** A matcher may be run before any token has been consumed: of a list, the members in front derive no token. */
  ghost predicate LeftCall(g: Graph, m: nat, c: nat)
    requires Closed(g) && m < |g.nodes|
  {
    assert WellLinked(g, g.nodes[m]);
    match g.nodes[m]
    case LeafMatcher(_) => false
    case ListMatcher(ms) => exists k :: 0 <= k < |ms| && ms[k] == c && forall j :: 0 <= j < k ==> Empty(g, ms[j])
    case OptionalMatcher(x) => c == x
    case ChoiceMatcher(cs) => c in cs
    case RepeatMatcher(x) => c == x
  }

  predicate ChildPath(g: Graph, path: seq<nat>) {
    path != [] && path[0] < |g.nodes| && (|path| == 1 || (Child(g.nodes[path[0]], path[1]) && ChildPath(g, path[1..])))
  }

  ghost predicate LeftPath(g: Graph, path: seq<nat>)
    requires Closed(g)
  {
    path != [] && path[0] < |g.nodes| && (|path| == 1 || (LeftCall(g, path[0], path[1]) && LeftPath(g, path[1..])))
  }

  ghost predicate Reached(g: Graph, root: nat, m: nat) {
    exists path :: ChildPath(g, path) && path[0] == root && path[|path| - 1] == m
  }

  /** One or more left calls lead from one matcher to the other. */
  ghost predicate LeftReached(g: Graph, m: nat, x: nat)
    requires Closed(g)
  {
    exists path :: LeftPath(g, path) && |path| > 1 && path[0] == m && path[|path| - 1] == x
  }

  /** No matcher that the root uses runs itself before a token has been consumed. */
  ghost predicate NoLeftRecursion(g: Graph, root: nat)
    requires Closed(g)
  {
    forall m: nat :: Reached(g, root, m) ==> !LeftReached(g, m, m)
  }

  /** No matcher that the root uses repeats what derives no token. */
  ghost predicate NoEmptyRepeat(g: Graph, root: nat)
    requires Closed(g)
  {
    forall m: nat :: Reached(g, root, m) && m < |g.nodes| && g.nodes[m].RepeatMatcher? ==>
                  WellLinked(g, g.nodes[m]) && !Empty(g, g.nodes[m].element)
  }

  lemma ChildInGraph(g: Graph, m: nat, c: nat)
    requires Closed(g) && m < |g.nodes| && Child(g.nodes[m], c)
    ensures c < |g.nodes|
  {
    assert WellLinked(g, g.nodes[m]);
  }

  lemma LeftCallIsChild(g: Graph, m: nat, c: nat)
    requires Closed(g) && m < |g.nodes| && LeftCall(g, m, c)
    ensures Child(g.nodes[m], c)
  {
  }

  lemma {:induction false} PathSnoc(g: Graph, path: seq<nat>, c: nat)
    requires Closed(g) && ChildPath(g, path) && path[|path| - 1] < |g.nodes| && Child(g.nodes[path[|path| - 1]], c)
    ensures ChildPath(g, path + [c])
    decreases |path|
  {
    var longer := path + [c];
    if |path| == 1 {
      ChildInGraph(g, path[0], c);
      assert longer[1..] == [c];
    } else {
      assert longer[1..] == path[1..] + [c];
      PathSnoc(g, path[1..], c);
    }
  }

  lemma ChildIsReached(g: Graph, root: nat, m: nat, c: nat)
    requires Closed(g) && Reached(g, root, m) && m < |g.nodes| && Child(g.nodes[m], c)
    ensures Reached(g, root, c)
  {
    var path :| ChildPath(g, path) && path[0] == root && path[|path| - 1] == m;
    PathSnoc(g, path, c);
    assert (path + [c])[0] == root && (path + [c])[|path + [c]| - 1] == c;
  }

  lemma RootIsReached(g: Graph, root: nat)
    requires root < |g.nodes|
    ensures Reached(g, root, root)
  {
    assert ChildPath(g, [root]);
  }

  // ----- what a certificate says -----

  lemma ChildIsLive(g: Graph, cert: Certificate, m: nat, c: nat)
    requires Certified(g, cert) && m in cert.live && Child(g.nodes[m], c)
    ensures c in cert.live
  {
    assert NodeCertified(g, cert, m);
  }

  lemma {:induction false} PathIsLive(g: Graph, cert: Certificate, path: seq<nat>)
    requires Certified(g, cert) && ChildPath(g, path) && path[0] in cert.live
    ensures path[|path| - 1] in cert.live
    decreases |path|
  {
    if |path| > 1 {
      ChildIsLive(g, cert, path[0], path[1]);
      PathIsLive(g, cert, path[1..]);
    }
  }

  /** What derives no token is nullable. */
  lemma {:induction false} EmptyIsNullable(g: Graph, cert: Certificate, m: nat, t: Tree)
    requires Certified(g, cert) && m in cert.live && Derives(g, m, t) && Yield(t) == []
    ensures m in cert.nullable
    decreases t
  {
    assert NodeCertified(g, cert, m) && WellLinked(g, g.nodes[m]);
    match g.nodes[m]
    case LeafMatcher(_) =>
    case ListMatcher(ms) => EmptyAreNullable(g, cert, ms, t.parts);
    case OptionalMatcher(_) =>
    case ChoiceMatcher(cs) => EmptyIsNullable(g, cert, cs[t.which], t.chosen);
    case RepeatMatcher(c) => EmptyIsNullable(g, cert, c, t.repeats[0]);
  }

  lemma {:induction false} EmptyAreNullable(g: Graph, cert: Certificate, ms: seq<nat>, ts: seq<Tree>)
    requires Certified(g, cert) && InGraph(g, ms) && AllLive(cert, ms) && DerivesAll(g, ms, ts) && YieldAll(ts) == []
    ensures AllNullable(cert, ms)
    decreases ts
  {
    if ms != [] {
      EmptyIsNullable(g, cert, ms[0], ts[0]);
      EmptyAreNullable(g, cert, ms[1..], ts[1..]);
      assert forall k :: 0 < k < |ms| ==> ms[k] == ms[1..][k - 1];
    }
  }

  lemma LeftCallIsRanked(g: Graph, cert: Certificate, m: nat, c: nat)
    requires Certified(g, cert) && m in cert.live && LeftCall(g, m, c)
    ensures c in cert.live && Ranked(g, cert, m, c)
  {
    LeftCallIsChild(g, m, c);
    ChildIsLive(g, cert, m, c);
    assert NodeCertified(g, cert, m) && WellLinked(g, g.nodes[m]);
    if g.nodes[m].ListMatcher? {
      var ms := g.nodes[m].matchers;
      var k :| 0 <= k < |ms| && ms[k] == c && forall j :: 0 <= j < k ==> Empty(g, ms[j]);
      forall j | 0 <= j < k ensures ms[..k][j] in cert.nullable {
        var t :| Derives(g, ms[j], t) && Yield(t) == [];
        EmptyIsNullable(g, cert, ms[j], t);
      }
    }
  }

  lemma {:induction false} PathIsRanked(g: Graph, cert: Certificate, path: seq<nat>)
    requires Certified(g, cert) && LeftPath(g, path) && path[0] in cert.live && |path| > 1
    ensures Ranked(g, cert, path[0], path[|path| - 1])
    decreases |path|
  {
    LeftCallIsRanked(g, cert, path[0], path[1]);
    if |path| > 2 {
      PathIsRanked(g, cert, path[1..]);
    }
  }

  // ----- making a certificate -----

  ghost function LeftReach(g: Graph, m: nat): set<nat>
    requires Closed(g)
  {
    set x | x in Below(|g.nodes|) && LeftReached(g, m, x)
  }

  lemma {:induction false} BelowSize(n: nat)
    ensures |Below(n)| == n
  {
    if n > 0 {
      BelowSize(n - 1);
    }
  }

  lemma SubsetSize(a: set<nat>, b: set<nat>)
    requires a <= b
    ensures |a| <= |b| && (a != b ==> |a| < |b|)
  {
    assert b == a + (b - a) && |b| == |a| + |b - a|;
    if a != b {
      var x :| x in b && x !in a;
      assert x in b - a;
    }
  }

  lemma ReachOfCall(g: Graph, m: nat, c: nat)
    requires Closed(g) && m < |g.nodes| && LeftCall(g, m, c)
    ensures c < |g.nodes| && LeftReached(g, m, c)
    ensures forall x :: LeftReached(g, c, x) ==> LeftReached(g, m, x)
  {
    LeftCallIsChild(g, m, c);
    ChildInGraph(g, m, c);
    assert [m, c][1..] == [c];
    assert LeftPath(g, [m, c]);
    forall x | LeftReached(g, c, x) ensures LeftReached(g, m, x) {
      var path :| LeftPath(g, path) && |path| > 1 && path[0] == c && path[|path| - 1] == x;
      assert ([m] + path)[1..] == path;
      assert LeftPath(g, [m] + path);
    }
  }

  lemma RankFalls(g: Graph, m: nat, c: nat)
    requires Closed(g) && m < |g.nodes| && LeftCall(g, m, c) && !LeftReached(g, c, c)
    ensures c < |g.nodes| && |LeftReach(g, c)| < |LeftReach(g, m)|
  {
    ReachOfCall(g, m, c);
    assert c in LeftReach(g, m) && c !in LeftReach(g, c);
    SubsetSize(LeftReach(g, c), LeftReach(g, m));
  }

  ghost function Ranks(g: Graph): seq<nat>
    requires Closed(g)
  {
    seq(|g.nodes|, m requires 0 <= m < |g.nodes| => |LeftReach(g, m)|)
  }

  ghost function MakeCertificate(g: Graph, root: nat): Certificate
    requires Closed(g)
  {
    var live := set m | m in Below(|g.nodes|) && Reached(g, root, m);
    var nullable := set m | m in Below(|g.nodes|) && Empty(g, m);
    Certificate(live, nullable, Ranks(g), |g.nodes| + 1)
  }

  lemma {:induction false} EmptyList(g: Graph, ms: seq<nat>) returns (ts: seq<Tree>)
    requires Closed(g) && InGraph(g, ms) && forall k :: 0 <= k < |ms| ==> Empty(g, ms[k])
    ensures DerivesAll(g, ms, ts) && YieldAll(ts) == []
    decreases |ms|
  {
    ts := [];
    if ms != [] {
      var t :| Derives(g, ms[0], t) && Yield(t) == [];
      assert forall k :: 0 < k < |ms| ==> ms[k] == ms[1..][k - 1];
      var rest := EmptyList(g, ms[1..]);
      ts := [t] + rest;
    }
  }

  /** Matchers of empty matchers are empty. */
  lemma EmptyFromChildren(g: Graph, m: nat)
    requires Closed(g) && m < |g.nodes| && WellLinked(g, g.nodes[m])
    ensures g.nodes[m].OptionalMatcher? ==> Empty(g, m)
    ensures g.nodes[m].ListMatcher? && (forall k :: 0 <= k < |g.nodes[m].matchers| ==> Empty(g, g.nodes[m].matchers[k])) ==>
              Empty(g, m)
    ensures g.nodes[m].ChoiceMatcher? && (exists k :: 0 <= k < |g.nodes[m].choices| && Empty(g, g.nodes[m].choices[k])) ==>
              Empty(g, m)
  {
    match g.nodes[m]
    case OptionalMatcher(_) => assert Derives(g, m, Absent) && Yield(Absent) == [];
    case ListMatcher(ms) =>
      if forall k :: 0 <= k < |ms| ==> Empty(g, ms[k]) {
        var ts := EmptyList(g, ms);
        assert Derives(g, m, Sequence(ts)) && Yield(Sequence(ts)) == [];
      }
    case ChoiceMatcher(cs) =>
      if k :| 0 <= k < |cs| && Empty(g, cs[k]) {
        var t :| Derives(g, cs[k], t) && Yield(t) == [];
        assert Derives(g, m, Alternative(k, t)) && Yield(Alternative(k, t)) == [];
      }
    case _ =>
  }

  lemma ChildInCertificate(g: Graph, root: nat, m: nat, c: nat)
    requires Closed(g) && NoLeftRecursion(g, root) && m in MakeCertificate(g, root).live && Child(g.nodes[m], c)
    ensures c < |g.nodes| && c in MakeCertificate(g, root).live
    ensures LeftCall(g, m, c) ==> Ranked(g, MakeCertificate(g, root), m, c)
  {
    ChildIsReached(g, root, m, c);
    ChildInGraph(g, m, c);
    if LeftCall(g, m, c) {
      RankFalls(g, m, c);
    }
  }

  lemma RankBelowBound(g: Graph, root: nat, m: nat)
    requires Closed(g) && m < |g.nodes|
    ensures MakeCertificate(g, root).rank[m] < MakeCertificate(g, root).bound
  {
    BelowSize(|g.nodes|);
    SubsetSize(LeftReach(g, m), Below(|g.nodes|));
  }

  lemma NullableIsEmpty(g: Graph, root: nat, m: nat)
    requires Closed(g) && m < |g.nodes|
    ensures m in MakeCertificate(g, root).nullable <==> Empty(g, m)
  {
  }

  lemma CertificateAt(g: Graph, root: nat, m: nat)
    requires Closed(g) && NoLeftRecursion(g, root) && NoEmptyRepeat(g, root) && m in MakeCertificate(g, root).live
    ensures m < |g.nodes| && NodeCertified(g, MakeCertificate(g, root), m)
  {
    assert WellLinked(g, g.nodes[m]) && Reached(g, root, m);
    RankBelowBound(g, root, m);
    NullableIsEmpty(g, root, m);
    EmptyFromChildren(g, m);
    match g.nodes[m]
    case LeafMatcher(_) =>
    case ListMatcher(ms) => ListCertificate(g, root, m);
    case OptionalMatcher(c) => ChildInCertificate(g, root, m, c);
    case ChoiceMatcher(cs) => ChoiceCertificate(g, root, m);
    case RepeatMatcher(c) =>
      ChildInCertificate(g, root, m, c);
      NullableIsEmpty(g, root, c);
  }

  lemma ListCertificate(g: Graph, root: nat, m: nat)
    requires Closed(g) && NoLeftRecursion(g, root) && m in MakeCertificate(g, root).live && g.nodes[m].ListMatcher?
    ensures m < |g.nodes| && NodeCertified(g, MakeCertificate(g, root), m)
  {
    var cert, ms := MakeCertificate(g, root), g.nodes[m].matchers;
    assert WellLinked(g, g.nodes[m]);
    RankBelowBound(g, root, m);
    NullableIsEmpty(g, root, m);
    EmptyFromChildren(g, m);
    hide MakeCertificate, Empty, Reached;
    forall k | 0 <= k < |ms|
      ensures ms[k] in cert.live && (ms[k] in cert.nullable <==> Empty(g, ms[k]))
      ensures AllNullable(cert, ms[..k]) ==> Ranked(g, cert, m, ms[k])
    {
      assert Child(g.nodes[m], ms[k]);
      ChildInCertificate(g, root, m, ms[k]);
      NullableIsEmpty(g, root, ms[k]);
      if AllNullable(cert, ms[..k]) {
        forall j | 0 <= j < k ensures Empty(g, ms[j]) {
          assert ms[..k][j] == ms[j];
          NullableIsEmpty(g, root, ms[j]);
        }
        assert LeftCall(g, m, ms[k]);
      }
    }
  }

  lemma ChoiceCertificate(g: Graph, root: nat, m: nat)
    requires Closed(g) && NoLeftRecursion(g, root) && m in MakeCertificate(g, root).live && g.nodes[m].ChoiceMatcher?
    ensures m < |g.nodes| && NodeCertified(g, MakeCertificate(g, root), m)
  {
    var cert, cs := MakeCertificate(g, root), g.nodes[m].choices;
    assert WellLinked(g, g.nodes[m]);
    RankBelowBound(g, root, m);
    NullableIsEmpty(g, root, m);
    EmptyFromChildren(g, m);
    hide MakeCertificate, Empty, Reached;
    forall k | 0 <= k < |cs|
      ensures cs[k] in cert.live && (cs[k] in cert.nullable <==> Empty(g, cs[k])) && Ranked(g, cert, m, cs[k])
    {
      assert Child(g.nodes[m], cs[k]);
      ChildInCertificate(g, root, m, cs[k]);
      NullableIsEmpty(g, root, cs[k]);
    }
  }

  /** Matching from a root is certified to terminate exactly if no matcher it uses runs itself before a token has been
      consumed, and none repeats what derives no token. */
  lemma CertificateExactly(g: Graph, root: nat)
    requires Closed(g) && root < |g.nodes|
    ensures (exists cert :: Certified(g, cert) && root in cert.live) <==> NoLeftRecursion(g, root) && NoEmptyRepeat(g, root)
  {
    if cert :| Certified(g, cert) && root in cert.live {
      forall m: nat | Reached(g, root, m)
        ensures !LeftReached(g, m, m)
        ensures m < |g.nodes| && g.nodes[m].RepeatMatcher? ==>
                  WellLinked(g, g.nodes[m]) && !Empty(g, g.nodes[m].element)
      {
        CertifiedAt(g, cert, root, m);
      }
    }
    if NoLeftRecursion(g, root) && NoEmptyRepeat(g, root) {
      var cert := MakeCertificate(g, root);
      forall m | m in cert.live ensures m < |g.nodes| && NodeCertified(g, cert, m) {
        CertificateAt(g, root, m);
      }
      RootIsReached(g, root);
      assert Certified(g, cert) && root in cert.live;
    }
  }

  lemma CertifiedAt(g: Graph, cert: Certificate, root: nat, m: nat)
    requires Certified(g, cert) && root in cert.live && Reached(g, root, m)
    ensures !LeftReached(g, m, m)
    ensures m < |g.nodes| && g.nodes[m].RepeatMatcher? ==>
              WellLinked(g, g.nodes[m]) && !Empty(g, g.nodes[m].element)
  {
    var path :| ChildPath(g, path) && path[0] == root && path[|path| - 1] == m;
    PathIsLive(g, cert, path);
    assert NodeCertified(g, cert, m) && WellLinked(g, g.nodes[m]);
    if left :| LeftPath(g, left) && |left| > 1 && left[0] == m && left[|left| - 1] == m {
      PathIsRanked(g, cert, left);
    }
    if g.nodes[m].RepeatMatcher? && Empty(g, g.nodes[m].element) {
      var t :| Derives(g, g.nodes[m].element, t) && Yield(t) == [];
      EmptyIsNullable(g, cert, g.nodes[m].element, t);
    }
  }
}
