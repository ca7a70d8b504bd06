/** The check that no inheritance path of a schema repeats a member's id or name. */
module SerializationDuplicates {
  import opened Sequences
  import opened Serialization

  // ----- the members along a path -----

  function AllMembers(path: seq<Class>): seq<Member> {
    if path == [] then [] else AllMembers(path[..|path| - 1]) + path[|path| - 1].members
  }

  predicate DistinctIds(ms: seq<Member>) {
    forall j, k :: 0 <= j < k < |ms| ==> ms[j].id != ms[k].id
  }

  predicate DistinctNames(ms: seq<Member>) {
    forall j, k :: 0 <= j < k < |ms| ==> ms[j].name != ms[k].name
  }

  lemma {:induction false} AllMembersJoin(p: seq<Class>, q: seq<Class>)
    ensures AllMembers(p + q) == AllMembers(p) + AllMembers(q)
    decreases |q|
  {
    if q == [] {
      assert p + q == p;
    } else {
      assert (p + q)[..|p + q| - 1] == p + q[..|q| - 1];
      AllMembersJoin(p, q[..|q| - 1]);
    }
  }

  lemma AllMembersFront(path: seq<Class>)
    requires path != []
    ensures AllMembers(path) == path[0].members + AllMembers(path[1..])
  {
    assert [path[0]] + path[1..] == path;
    AllMembersJoin([path[0]], path[1..]);
    assert AllMembers([path[0]]) == AllMembers([]) + path[0].members;
  }

  /** Classes that follow one another from `c` down. */
  predicate PathFrom(c: Class, path: seq<Class>) {
    && path != [] && path[0] == c
    && forall i :: 0 <= i < |path| - 1 ==> path[i].Base? && IsChild(path[i], path[i + 1])
  }

  predicate IsChild(c: Class, child: Class)
    requires c.Base?
  {
    exists k :: 0 <= k < |c.children| && c.children[k].cls == child
  }

  /** No id or name occurs twice, or has been seen already. */
  predicate Fresh(ms: seq<Member>, names: set<string>, ids: set<nat>) {
    && DistinctIds(ms) && DistinctNames(ms)
    && forall k :: 0 <= k < |ms| ==> ms[k].name !in names && ms[k].id !in ids
  }

  function Ids(ms: seq<Member>): set<nat> {
    set k | 0 <= k < |ms| :: ms[k].id
  }

  lemma FreshParts(a: seq<Member>, b: seq<Member>, names: set<string>, ids: set<nat>)
    ensures Fresh(a + b, names, ids) <==> Fresh(a, names, ids) && Fresh(b, names + Names(a), ids + Ids(a))
  {
    assert forall j :: 0 <= j < |a| ==> (a + b)[j] == a[j];
    assert forall k :: 0 <= k < |b| ==> (a + b)[|a| + k] == b[k];
    if Fresh(a, names, ids) && Fresh(b, names + Names(a), ids + Ids(a)) {
      forall k | 0 <= k < |b| ensures forall j :: 0 <= j < |a| ==> a[j].name != b[k].name && a[j].id != b[k].id {
        assert b[k].name !in Names(a) && b[k].id !in Ids(a);
      }
      forall j, k | 0 <= j < k < |a + b| ensures (a + b)[j].id != (a + b)[k].id && (a + b)[j].name != (a + b)[k].name {
        if |a| <= j {
          assert (a + b)[j] == b[j - |a|] && (a + b)[k] == b[k - |a|];
        }
      }
    }
  }

  /** The members of one class, checked one after the other against what has been seen. */
  method CheckMembers(ms: seq<Member>, seenNames: set<string>, seenIds: set<nat>)
    returns (ok: bool, names: set<string>, ids: set<nat>)
    ensures ok <==> Fresh(ms, seenNames, seenIds)
    ensures ok ==> names == seenNames + Names(ms) && ids == seenIds + Ids(ms)
  {
    names, ids := seenNames, seenIds;
    var k := 0;
    while k < |ms|
      invariant 0 <= k <= |ms|
      invariant Fresh(ms[..k], seenNames, seenIds)
      invariant names == seenNames + Names(ms[..k]) && ids == seenIds + Ids(ms[..k])
    {
      assert ms[..k] + [ms[k]] == ms[..k + 1];
      assert [ms[k]][0] == ms[k];
      FreshParts(ms[..k], [ms[k]], seenNames, seenIds);
      assert ms[..k + 1] + ms[k + 1..] == ms;
      FreshParts(ms[..k + 1], ms[k + 1..], seenNames, seenIds);
      SeenSnoc(ms[..k], ms[k]);
      hide Fresh, Names, Ids;
      assert Fresh([ms[k]], names, ids) <==> ms[k].name !in names && ms[k].id !in ids by {
        FreshOne(ms[k], names, ids);
      }
      if ms[k].name in names {
        return false, names, ids;
      }
      names := names + {ms[k].name};
      if ms[k].id in ids {
        return false, names, ids;
      }
      ids := ids + {ms[k].id};
      k := k + 1;
    }
    assert ms[..k] == ms;
    ok := true;
  }

  lemma FreshOne(m: Member, names: set<string>, ids: set<nat>)
    ensures Fresh([m], names, ids) <==> m.name !in names && m.id !in ids
  {
    assert [m][0] == m;
  }

  lemma SeenSnoc(ms: seq<Member>, m: Member)
    ensures Names(ms + [m]) == Names(ms) + {m.name} && Ids(ms + [m]) == Ids(ms) + {m.id}
  {
    assert forall k :: 0 <= k < |ms| ==> (ms + [m])[k] == ms[k];
    assert (ms + [m])[|ms|] == m;
  }

  /** No inheritance path down from a class repeats an id or a name. */
  ghost predicate NoDuplicates(c: Class, names: set<string>, ids: set<nat>) {
    forall path :: PathFrom(c, path) ==> Fresh(AllMembers(path), names, ids)
  }

  lemma NoDuplicatesLeaf(c: Class, names: set<string>, ids: set<nat>)
    requires c.Leaf?
    ensures NoDuplicates(c, names, ids) <==> Fresh(c.members, names, ids)
  {
    PathAlone(c);
    if Fresh(c.members, names, ids) {
      forall path | PathFrom(c, path) ensures Fresh(AllMembers(path), names, ids) {
        assert path == [c];
      }
    }
  }

  lemma DuplicatesHere(c: Class, names: set<string>, ids: set<nat>)
    requires !Fresh(c.members, names, ids)
    ensures !NoDuplicates(c, names, ids)
  {
    PathAlone(c);
  }

  lemma NoDuplicatesBase(c: Class, names: set<string>, ids: set<nat>)
    requires c.Base? && Fresh(c.members, names, ids)
    requires forall k :: 0 <= k < |c.children| ==>
               NoDuplicates(c.children[k].cls, names + Names(c.members), ids + Ids(c.members))
    ensures NoDuplicates(c, names, ids)
  {
    PathAlone(c);
    forall path | PathFrom(c, path) ensures Fresh(AllMembers(path), names, ids) {
      if |path| > 1 {
        AllMembersFront(path);
        var j := ChildOf(c, path);
        FreshParts(c.members, AllMembers(path[1..]), names, ids);
      } else {
        assert path == [c];
      }
    }
  }

  lemma DuplicatesBelow(c: Class, names: set<string>, ids: set<nat>, k: nat)
    requires c.Base? && k < |c.children|
    requires !NoDuplicates(c.children[k].cls, names + Names(c.members), ids + Ids(c.members))
    ensures !NoDuplicates(c, names, ids)
  {
    var path :| PathFrom(c.children[k].cls, path)
                && !Fresh(AllMembers(path), names + Names(c.members), ids + Ids(c.members));
    PathBelow(c, k, path);
    FreshParts(c.members, AllMembers(path), names, ids);
  }

  /** The check accepts a class exactly when no inheritance path down from it repeats an id or a name. */
  method CheckChildrenForDuplicateMembers(node: Class, seenNames: set<string>, seenIds: set<nat>) returns (ok: bool)
    ensures ok <==> NoDuplicates(node, seenNames, seenIds)
    decreases node
  {
    var names, ids;
    ok, names, ids := CheckMembers(node.members, seenNames, seenIds);
    hide *;
    if !ok {
      DuplicatesHere(node, seenNames, seenIds);
      return;
    }
    if node.Leaf? {
      NoDuplicatesLeaf(node, seenNames, seenIds);
      return;
    }
    var k := 0;
    while k < |node.children|
      invariant 0 <= k <= |node.children|
      invariant forall j :: 0 <= j < k ==> NoDuplicates(node.children[j].cls, names, ids)
    {
      ok := CheckChildrenForDuplicateMembers(node.children[k].cls, names, ids);
      if !ok {
        DuplicatesBelow(node, seenNames, seenIds, k);
        return;
      }
      k := k + 1;
    }
    NoDuplicatesBase(node, seenNames, seenIds);
    ok := true;
  }

  lemma PathAlone(c: Class)
    ensures PathFrom(c, [c]) && AllMembers([c]) == c.members
  {
    AllMembersFront([c]);
    assert [c][1..] == [];
  }

  lemma PathBelow(c: Class, k: nat, path: seq<Class>)
    requires c.Base? && k < |c.children| && PathFrom(c.children[k].cls, path)
    ensures PathFrom(c, [c] + path) && AllMembers([c] + path) == c.members + AllMembers(path)
  {
    AllMembersFront([c] + path);
    assert ([c] + path)[1..] == path;
    forall i | 0 <= i < |path| ensures ([c] + path)[i].Base? && IsChild(([c] + path)[i], ([c] + path)[i + 1]) {
      if i > 0 {
        assert ([c] + path)[i] == path[i - 1] && ([c] + path)[i + 1] == path[i];
      }
    }
  }

  lemma ChildOf(c: Class, path: seq<Class>) returns (k: nat)
    requires PathFrom(c, path) && |path| > 1
    ensures c.Base? && k < |c.children| && PathFrom(c.children[k].cls, path[1..])
  {
    assert IsChild(path[0], path[1]);
    k :| 0 <= k < |c.children| && c.children[k].cls == path[1];
    forall i | 0 <= i < |path| - 2 ensures path[1..][i].Base? && IsChild(path[1..][i], path[1..][i + 1]) {
      assert IsChild(path[i + 1], path[i + 2]);
    }
  }
}
