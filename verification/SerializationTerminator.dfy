/** When a stream that ends in the terminator is read to its end: exactly unless a member that is left out takes the
    terminator for its own id. */
module SerializationTerminator {
  import opened Sequences
  import opened Serialization
  import opened SerializationDuplicates
  import opened SerializationRoundTrip

  // ----- a reader that misses the end of the object -----

  /** No statement puts anything back into the stream. */
  lemma {:induction false} RunReadShrinks(c: Class, op: ReadOp, s: Machine)
    requires RunRead(c, op, s).Some?
    ensures |RunRead(c, op, s).value.tokens| <= |s.tokens|
    decreases c, 0, 0
  {
    if op.Dispatch? {
      DeserializeShrinks(FindChild(c.children, s.locals[op.variable]).value, s.tokens);
    }
  }

  lemma {:induction false} RunReadsShrinks(c: Class, ops: seq<ReadOp>, s: Machine)
    requires RunReads(c, ops, s).Some?
    ensures |RunReads(c, ops, s).value.tokens| <= |s.tokens|
    decreases c, 1, |ops|
  {
    if ops != [] {
      RunReadShrinks(c, ops[0], s);
      RunReadsShrinks(c, ops[1..], RunRead(c, ops[0], s).value);
    }
  }

  lemma {:induction false} DeserializeShrinks(c: Class, tokens: seq<Token>)
    requires Deserialize(c, tokens).Some?
    ensures |Deserialize(c, tokens).value.1| <= |tokens|
    decreases c, 2, 0
  {
    RunReadsShrinks(c, ReadCode(c), Machine(tokens, map[], None));
  }

  /** A reader in this state has failed, or has taken the id that ends the object; if a field id follows or nothing
      does, it has failed. */
  predicate Overran(s: Option<Machine>, rest: seq<Token>) {
    s.Some? ==> |s.value.tokens| <= |rest| && rest != [] && !rest[0].FieldId?
  }

  lemma OverranStays(c: Class, ops: seq<ReadOp>, s: Option<Machine>, rest: seq<Token>)
    requires Overran(s, rest)
    ensures Overran(if s.None? then None else RunReads(c, ops, s.value), rest)
  {
    if s.Some? && RunReads(c, ops, s.value).Some? {
      RunReadsShrinks(c, ops, s.value);
    }
  }

  /** A member that is not written and has the id that comes next takes it. */
  lemma ReadOneOverruns(c: Class, m: Member, fields: map<string, Value>, writeDefaults: bool, s: Machine, local: bool,
                        rest: seq<Token>)
    requires (m.status == EXISTING ==> m.name in fields) && (m.status == READ_ONLY ==> m.hasDefault)
    requires local || s.result.Some?
    requires OwnToken(m, fields, writeDefaults) == [] && s.tokens == [FieldId(m.id)] + rest
    ensures var op := Reading(m, local);
            op.Ok? && Overran(RunRead(c, op.value, s), rest)
  {
  }

  lemma {:induction false} ReadManyOverruns(c: Class, ms: seq<Member>, fields: map<string, Value>, writeDefaults: bool,
                                            s: Machine, local: bool, id: nat, rest: seq<Token>)
    requires Has(ms, fields) && Readable(ms) && DistinctIds(ms) && (local || s.result.Some?)
    requires s.tokens == OwnTokens(ms, fields, writeDefaults) + ([FieldId(id)] + rest)
    requires Sought(ms, fields, writeDefaults, id)
    ensures Overran(RunReads(c, Reads(ms, local), s), rest)
    decreases |ms|
  {
    var m, later, end := ms[0], ms[1..], [FieldId(id)] + rest;
    var middle := OwnTokens(later, fields, writeDefaults) + end;
    assert s.tokens == OwnToken(m, fields, writeDefaults) + middle;
    hide *;
    FirstAndLater(ms, fields);
    ReadsFirst(c, ms, local, s);
    SoughtParts([m], later, fields, writeDefaults, id);
    if Sought(later, fields, writeDefaults, id) {
      var next := ReadPast(c, m, later, fields, writeDefaults, s, local, id, rest);
      ReadManyOverruns(c, later, fields, writeDefaults, next, local, id, rest);
    } else {
      OverrunsHere(c, m, later, fields, writeDefaults, s, local, id, rest);
      OverranStays(c, Reads(later, local), RunRead(c, Reading(m, local).value, s), rest);
    }
  }

  /** A member in front of the one that is sought is read as ever. */
  lemma ReadPast(c: Class, m: Member, later: seq<Member>, fields: map<string, Value>, writeDefaults: bool,
                 s: Machine, local: bool, id: nat, rest: seq<Token>)
    returns (next: Machine)
    requires (m.status == EXISTING ==> m.name in fields) && (m.status == READ_ONLY ==> m.hasDefault)
    requires local || s.result.Some?
    requires forall k :: 0 <= k < |later| ==> later[k].id != m.id
    requires Sought(later, fields, writeDefaults, id)
    requires s.tokens == OwnToken(m, fields, writeDefaults)
                         + (OwnTokens(later, fields, writeDefaults) + ([FieldId(id)] + rest))
    ensures Reading(m, local).Ok? && RunRead(c, Reading(m, local).value, s) == Some(next)
    ensures next.tokens == OwnTokens(later, fields, writeDefaults) + ([FieldId(id)] + rest)
    ensures local || next.result.Some?
  {
    hide RunRead, Reading, Sought, OwnToken, OwnTokens, GoesOn;
    var end := [FieldId(id)] + rest;
    var middle := OwnTokens(later, fields, writeDefaults) + end;
    SoughtIsOne(m, later, fields, writeDefaults, id);
    OwnStartsApart([m], later, fields, writeDefaults, end);
    ReadOne(c, m, fields, writeDefaults, s, local, middle);
    next := Loaded(s, local, AfterOne(m, fields, Into(s, local)), middle);
  }

  lemma OverrunsHere(c: Class, m: Member, later: seq<Member>, fields: map<string, Value>, writeDefaults: bool,
                     s: Machine, local: bool, id: nat, rest: seq<Token>)
    requires (m.status == EXISTING ==> m.name in fields) && (m.status == READ_ONLY ==> m.hasDefault)
    requires local || s.result.Some?
    requires Sought([m], fields, writeDefaults, id) && OwnTokens(later, fields, writeDefaults) == []
    requires s.tokens == OwnToken(m, fields, writeDefaults)
                         + (OwnTokens(later, fields, writeDefaults) + ([FieldId(id)] + rest))
    ensures Reading(m, local).Ok? && Overran(RunRead(c, Reading(m, local).value, s), rest)
  {
    hide RunRead, Reading, Sought, OwnToken, OwnTokens, Overran;
    LoneSoughtIs(m, fields, writeDefaults, id);
    NothingBefore([FieldId(id)] + rest);
    ReadOneOverruns(c, m, fields, writeDefaults, s, local, rest);
  }

  lemma LoneSoughtIs(m: Member, fields: map<string, Value>, writeDefaults: bool, id: nat)
    requires Sought([m], fields, writeDefaults, id)
    ensures m.id == id && OwnToken(m, fields, writeDefaults) == []
  {
    OwnTokensOne(m, fields, writeDefaults);
    assert [m][0..] == [m];
  }

  /** Another member with the same id is not sought in front of it. */
  lemma SoughtIsOne(m: Member, later: seq<Member>, fields: map<string, Value>, writeDefaults: bool, id: nat)
    requires forall k :: 0 <= k < |later| ==> later[k].id != m.id
    requires Sought(later, fields, writeDefaults, id)
    ensures m.id != id && !Sought([m], fields, writeDefaults, id)
  {
    var k :| 0 <= k < |later| && SoughtAt(later, k, fields, writeDefaults, id);
    UnnumberedNotSought([m], fields, writeDefaults, id);
  }

  /** A class that seeks one of its members at the end of the object does not stop there. */
  lemma LeafOverruns(c: Class, fields: map<string, Value>, writeDefaults: bool, id: nat, rest: seq<Token>)
    requires c.Leaf? && Acceptable(c) && Constructible(c) && DistinctNames(c.members) && DistinctIds(c.members)
    requires Has(c.members, fields) && Sought(c.members, fields, writeDefaults, id)
    ensures Overran(RunReads(c, ReadCode(c), Machine(OwnTokens(c.members, fields, writeDefaults) + ([FieldId(id)] + rest),
                                                    map[], None)), rest)
  {
    hide RunRead, RunReads, GoesOn, Has, Readable, DistinctIds, DistinctNames, Assigned, After, OwnTokens, Prefix, Reads,
      Assigns, SetOf, ConstructorArguments, ConstructorPrefix, ReadCode, Acceptable, Constructible, Taken, Names, Sought, Overran, Deserialize;
    LeafCode(c);
    PrefixDistinct(c);
    var arguments, prefix, end := ConstructorArguments(c), Prefix(c), [FieldId(id)] + rest;
    var later := c.members[|prefix|..];
    AllAssignable(c, fields);
    ReadableParts(prefix, later);
    PartsDistinct(prefix, later);
    HasParts(prefix, later, fields);
    SoughtParts(prefix, later, fields, writeDefaults, id);
    OwnJoin(prefix, later, fields, writeDefaults, end);
    var middle := OwnTokens(later, fields, writeDefaults) + end;
    var locals := After(prefix, fields, map[]);
    var s0 := Machine(OwnTokens(c.members, fields, writeDefaults) + end, map[], None);
    var s1 := Machine(middle, locals, None);
    var s2 := Machine(middle, locals, Some(Object(c.name, Taken(c, fields))));
    var s3 := s2.(result := Some(Object(c.name, Constructed(c, fields))));
    FourParts(c, Reads(prefix, true), [Construct(arguments)], Assigns(prefix, SetOf(arguments)), Reads(later, false), s0);
    if Sought(later, fields, writeDefaults, id) {
      SoughtIsLater(prefix, later, fields, writeDefaults, id);
      OwnStartsApart(prefix, later, fields, writeDefaults, end);
      ReadMany(c, prefix, fields, writeDefaults, s0, true, middle);
      ConstructRuns(c, fields, middle);
      RunOnly(c, Construct(arguments), s1);
      RunAssigns(c, prefix, SetOf(arguments), s2);
      ReadManyOverruns(c, later, fields, writeDefaults, s3, false, id, rest);
    } else {
      assert middle == end;
      ReadManyOverruns(c, prefix, fields, writeDefaults, s0, true, id, rest);
      ThreeMore(c, RunReads(c, Reads(prefix, true), s0), [Construct(arguments)], Assigns(prefix, SetOf(arguments)),
                Reads(later, false), rest);
    }
  }

  lemma ThreeMore(c: Class, s: Option<Machine>, q: seq<ReadOp>, r: seq<ReadOp>, t: seq<ReadOp>, rest: seq<Token>)
    requires Overran(s, rest)
    ensures Overran(if s.None? then None else
                    var s2 := RunReads(c, q, s.value);
                    if s2.None? then None else
                    var s3 := RunReads(c, r, s2.value);
                    if s3.None? then None else RunReads(c, t, s3.value), rest)
  {
    hide RunReads, Overran;
    OverranStays(c, q, s, rest);
    if s.Some? {
      var s2 := RunReads(c, q, s.value);
      OverranStays(c, r, s2, rest);
      if s2.Some? {
        OverranStays(c, t, RunReads(c, r, s2.value), rest);
      }
    }
  }

  lemma SoughtIsLater(a: seq<Member>, b: seq<Member>, fields: map<string, Value>, writeDefaults: bool, id: nat)
    requires forall j, k :: 0 <= j < |a| && 0 <= k < |b| ==> a[j].id != b[k].id
    requires Sought(b, fields, writeDefaults, id)
    ensures !Sought(a, fields, writeDefaults, id)
  {
    var k :| 0 <= k < |b| && SoughtAt(b, k, fields, writeDefaults, id);
    UnnumberedNotSought(a, fields, writeDefaults, id);
  }

  lemma BaseOverruns(c: Class, fields: map<string, Value>, writeDefaults: bool, id: nat, rest: seq<Token>)
    requires c.Base? && Acceptable(c) && DistinctIds(c.members) && Has(c.members, fields)
    requires Sought(c.members, fields, writeDefaults, id)
    ensures Overran(RunReads(c, ReadCode(c), Machine(OwnTokens(c.members, fields, writeDefaults) + ([FieldId(id)] + rest),
                                                    map[], None)), rest)
  {
    assert ReadCode(c) == Reads(c.members, true) + [Dispatch(c.enumValue)] + Assigns(c.members, Skipped(c)) + [];
    hide RunRead, RunReads, Has, Readable, DistinctIds, OwnTokens, ReadCode, Sought, Overran, Reads, Assigns, Skipped;
    var s0 := Machine(OwnTokens(c.members, fields, writeDefaults) + ([FieldId(id)] + rest), map[], None);
    FourParts(c, Reads(c.members, true), [Dispatch(c.enumValue)], Assigns(c.members, Skipped(c)), [], s0);
    ReadManyOverruns(c, c.members, fields, writeDefaults, s0, true, id, rest);
    ThreeMore(c, RunReads(c, Reads(c.members, true), s0), [Dispatch(c.enumValue)], Assigns(c.members, Skipped(c)), [],
              rest);
  }

  /** The same of what is left behind an object. */
  predicate Missed(r: Option<(Object, seq<Token>)>, rest: seq<Token>) {
    r.Some? ==> |r.value.1| <= |rest| && rest != [] && !rest[0].FieldId?
  }

  lemma DispatchMisses(c: Class, child: Class, fields: map<string, Value>, tokens: seq<Token>, rest: seq<Token>)
    requires Dispatches(c, child, fields) && DistinctNames(c.members) && Missed(Deserialize(child, tokens), rest)
    ensures Overran(RunRead(c, Dispatch(c.enumValue), Machine(tokens, After(c.members, fields, map[]), None)), rest)
  {
    var k :| 0 <= k < |c.members| && c.members[k].name == c.enumValue && c.members[k].status == EXISTING;
    AfterAt(c.members, fields, map[], k);
  }

  /** A class whose child does not stop at the end of the object does not stop there. */
  lemma ChildOverruns(c: Class, child: Class, fields: map<string, Value>, writeDefaults: bool, middle: seq<Token>,
                      rest: seq<Token>)
    requires Dispatches(c, child, fields) && Acceptable(c) && DistinctNames(c.members) && DistinctIds(c.members)
    requires Has(c.members, fields) && GoesOn(middle, c.members, fields, writeDefaults)
    requires Missed(Deserialize(child, middle), rest)
    ensures Overran(RunReads(c, ReadCode(c), Machine(OwnTokens(c.members, fields, writeDefaults) + middle, map[], None)),
                    rest)
  {
    var locals := After(c.members, fields, map[]);
    var s0, s1 := Machine(OwnTokens(c.members, fields, writeDefaults) + middle, map[], None), Machine(middle, locals, None);
    DispatchMisses(c, child, fields, middle, rest);
    assert ReadCode(c) == Reads(c.members, true) + [Dispatch(c.enumValue)] + Assigns(c.members, Skipped(c)) + [];
    hide RunRead, RunReads, GoesOn, Has, Readable, DistinctIds, DistinctNames, After, OwnTokens, Dispatches, ReadCode,
      Reads, Assigns, Skipped, Overran;
    FourParts(c, Reads(c.members, true), [Dispatch(c.enumValue)], Assigns(c.members, Skipped(c)), [], s0);
    ReadMany(c, c.members, fields, writeDefaults, s0, true, middle);
    RunOnly(c, Dispatch(c.enumValue), s1);
    var dispatched := RunRead(c, Dispatch(c.enumValue), s1);
    OverranStays(c, Assigns(c.members, Skipped(c)), dispatched, rest);
    if dispatched.Some? {
      OverranStays(c, [], RunReads(c, Assigns(c.members, Skipped(c)), dispatched.value), rest);
    }
  }

  lemma OverranMisses(c: Class, tokens: seq<Token>, rest: seq<Token>)
    requires Acceptable(c) && Overran(RunReads(c, ReadCode(c), Machine(tokens, map[], None)), rest)
    ensures Missed(Deserialize(c, tokens), rest)
  {
  }

  /** The members of a base class and those below it, and the stream in between. */
  lemma BaseParts(path: seq<Class>, fields: map<string, Value>, writeDefaults: bool, end: seq<Token>)
    requires ValidPath(path, fields) && Has(AllMembers(path), fields) && |path| > 1
    requires DistinctIds(AllMembers(path)) && DistinctNames(AllMembers(path))
    ensures var c, below := path[0], path[1..];
            var later := AllMembers(below);
            && AllMembers(path) == c.members + later
            && ValidPath(below, fields) && c.Base? && Acceptable(c) && Dispatches(c, below[0], fields)
            && DistinctIds(c.members) && DistinctIds(later) && DistinctNames(c.members) && DistinctNames(later)
            && (forall j, k :: 0 <= j < |c.members| && 0 <= k < |later| ==> c.members[j].id != later[k].id)
            && Has(c.members, fields) && Has(later, fields)
            && OwnTokens(AllMembers(path), fields, writeDefaults) + end
               == OwnTokens(c.members, fields, writeDefaults) + (OwnTokens(later, fields, writeDefaults) + end)
  {
    hide *;
    AllMembersFront(path);
    PathTail(path, fields);
    PartsDistinct(path[0].members, AllMembers(path[1..]));
    HasParts(path[0].members, AllMembers(path[1..]), fields);
    OwnJoin(path[0].members, AllMembers(path[1..]), fields, writeDefaults, end);
  }

  lemma {:induction false} PathMisses(path: seq<Class>, fields: map<string, Value>, writeDefaults: bool, id: nat,
                                      rest: seq<Token>)
    requires ValidPath(path, fields) && Has(AllMembers(path), fields)
    requires DistinctIds(AllMembers(path)) && DistinctNames(AllMembers(path))
    requires Sought(AllMembers(path), fields, writeDefaults, id)
    ensures Missed(Deserialize(path[0], OwnTokens(AllMembers(path), fields, writeDefaults) + ([FieldId(id)] + rest)), rest)
  {
    PathParts(path, fields);
    hide *;
    if |path| == 1 {
      LeafMisses(path, fields, writeDefaults, id, rest);
    } else {
      var c, later, end := path[0], AllMembers(path[1..]), [FieldId(id)] + rest;
      var middle := OwnTokens(later, fields, writeDefaults) + end;
      BaseParts(path, fields, writeDefaults, end);
      SoughtParts(c.members, later, fields, writeDefaults, id);
      if Sought(later, fields, writeDefaults, id) {
        SoughtIsLater(c.members, later, fields, writeDefaults, id);
        OwnStartsApart(c.members, later, fields, writeDefaults, end);
        PathMisses(path[1..], fields, writeDefaults, id, rest);
        ChildOverruns(c, path[1..][0], fields, writeDefaults, middle, rest);
      } else {
        NothingBefore(end);
        BaseOverruns(c, fields, writeDefaults, id, rest);
      }
      OverranMisses(c, OwnTokens(AllMembers(path), fields, writeDefaults) + end, rest);
    }
  }

  lemma NothingBefore(tokens: seq<Token>)
    ensures [] + tokens == tokens
  {
  }

  lemma LeafMisses(path: seq<Class>, fields: map<string, Value>, writeDefaults: bool, id: nat, rest: seq<Token>)
    requires ValidPath(path, fields) && Has(AllMembers(path), fields) && |path| == 1
    requires DistinctIds(AllMembers(path)) && DistinctNames(AllMembers(path))
    requires Sought(AllMembers(path), fields, writeDefaults, id)
    ensures Missed(Deserialize(path[0], OwnTokens(AllMembers(path), fields, writeDefaults) + ([FieldId(id)] + rest)), rest)
  {
    var c := path[0];
    assert c.Leaf? && Acceptable(c) && Constructible(c);
    hide *;
    OneClass(path);
    LeafOverruns(c, fields, writeDefaults, id, rest);
    OverranMisses(c, OwnTokens(c.members, fields, writeDefaults) + ([FieldId(id)] + rest), rest);
  }

  lemma OneClass(path: seq<Class>)
    requires |path| == 1
    ensures AllMembers(path) == path[0].members
  {
    AllMembersFront(path);
    assert path[1..] == [];
  }

  /** For every schema the duplicate check accepts and every object: reading what was written stops at the end of the
      object exactly if no member has the id that ends an object, or something is written of it or behind it. */
  lemma RoundTripExactly(path: seq<Class>, fields: map<string, Value>, writeDefaults: bool, rest: seq<Token>)
    requires ValidPath(path, fields) && Has(AllMembers(path), fields) && NoDuplicates(path[0], {}, {})
    ensures Serialize(path, fields, writeDefaults).Some?
    ensures var end := [FieldId(MESSAGE_TERMINATOR_FIELD_ID)] + rest;
            var r := Deserialize(path[0], Serialize(path, fields, writeDefaults).value + end);
            var sought := Sought(AllMembers(path), fields, writeDefaults, MESSAGE_TERMINATOR_FIELD_ID);
            && (r.Some? && r.value.1 == end <==> !sought)
            && (rest == [] || rest[0].FieldId? ==> (r.Some? <==> !sought))
  {
    IsPath(path, fields);
    assert Fresh(AllMembers(path), {}, {});
    hide Sought, ValidPath, Has, NoDuplicates, Deserialize, Serialize, RestoresPath, OwnTokens;
    SerializeIs(path, fields, writeDefaults);
    if Sought(AllMembers(path), fields, writeDefaults, MESSAGE_TERMINATOR_FIELD_ID) {
      PathMisses(path, fields, writeDefaults, MESSAGE_TERMINATOR_FIELD_ID, rest);
    } else {
      var o := RoundTrip(path, fields, writeDefaults, rest);
    }
  }

  /** The shortest case: one member, left out for its default. */
  lemma TerminatorIsNoMember(rest: seq<Token>)
    requires rest == [] || rest[0].FieldId?
    ensures var m := Member(MESSAGE_TERMINATOR_FIELD_ID, "x", EXISTING, true, None, Number(0));
            var c := Leaf("C", [m], Default);
            && Serialize([c], map["x" := Number(0)], false) == Some([])
            && Deserialize(c, [FieldId(MESSAGE_TERMINATOR_FIELD_ID)] + rest) == None
  {
    var m := Member(MESSAGE_TERMINATOR_FIELD_ID, "x", EXISTING, true, None, Number(0));
    var c, fields := Leaf("C", [m], Default), map["x" := Number(0)];
    assert [m][0] == m && ConstructorArguments(c) == [];
    assert ValidPath([c], fields) && Has([m], fields);
    hide *;
    OneClass([c]);
    OwnTokensOne(m, fields, false);
    LoneSought(m, fields, false);
    LoneLeftOut(m, fields);
    SerializeIs([c], fields, false);
    PathMisses([c], fields, false, MESSAGE_TERMINATOR_FIELD_ID, rest);
    NothingBefore([FieldId(MESSAGE_TERMINATOR_FIELD_ID)] + rest);
    FailsAltogether(Deserialize(c, [FieldId(MESSAGE_TERMINATOR_FIELD_ID)] + rest), rest);
  }

  const FRONT: Member := Member(MESSAGE_TERMINATOR_FIELD_ID, "x", EXISTING, true, None, Number(0))
  const BACK: Member := Member(1, "y", EXISTING, false, None, Number(0))
  const TWO_MEMBERS: Class := Leaf("C", [FRONT, BACK], Default)
  const TWO_FIELDS: map<string, Value> := map["x" := Number(0), "y" := Number(7)]

  lemma TwoMembersPath()
    ensures ValidPath([TWO_MEMBERS], TWO_FIELDS) && Has([FRONT, BACK], TWO_FIELDS)
  {
    assert ConstructorArguments(TWO_MEMBERS) == [] && FRONT.name[0] != BACK.name[0];
    assert Has([FRONT, BACK], TWO_FIELDS) by {
      assert "x" in TWO_FIELDS && "y" in TWO_FIELDS;
    }
  }

  lemma TwoMembersFresh()
    ensures Fresh([FRONT, BACK], {}, {}) && [FRONT] + [BACK] == [FRONT, BACK]
    ensures OwnToken(FRONT, TWO_FIELDS, false) == [] && OwnToken(BACK, TWO_FIELDS, false) != []
  {
    assert FRONT.name[0] != BACK.name[0];
  }

  /** Left out for its default as well, but with a member behind it that is written, it is not sought there. */
  lemma TerminatorInFront(rest: seq<Token>)
    ensures OwnToken(FRONT, TWO_FIELDS, false) == [] && Serialize([TWO_MEMBERS], TWO_FIELDS, false).Some?
    ensures var end := [FieldId(MESSAGE_TERMINATOR_FIELD_ID)] + rest;
            var r := Deserialize(TWO_MEMBERS, Serialize([TWO_MEMBERS], TWO_FIELDS, false).value + end);
            r.Some? && r.value.1 == end
  {
    TwoMembersPath();
    TwoMembersFresh();
    assert BACK.id == 1 && TWO_MEMBERS.Leaf? && TWO_MEMBERS.members == [FRONT, BACK];
    hide *;
    OneClass([TWO_MEMBERS]);
    NoDuplicatesLeaf(TWO_MEMBERS, {}, {});
    SoughtParts([FRONT], [BACK], TWO_FIELDS, false, MESSAGE_TERMINATOR_FIELD_ID);
    OwnTokensOne(BACK, TWO_FIELDS, false);
    OneUnnumbered(BACK);
    UnnumberedNotSought([BACK], TWO_FIELDS, false, MESSAGE_TERMINATOR_FIELD_ID);
    RoundTripExactly([TWO_MEMBERS], TWO_FIELDS, false, rest);
  }

  lemma OneUnnumbered(n: Member)
    ensures forall k :: 0 <= k < |[n]| ==> [n][k].id == n.id
  {
  }

  lemma LoneLeftOut(m: Member, fields: map<string, Value>)
    requires m.name in fields && m.hasDefault && fields[m.name] == DefaultOf(m)
    ensures OwnToken(m, fields, false) == [] && DistinctIds([m]) && DistinctNames([m])
  {
  }

  lemma FailsAltogether(r: Option<(Object, seq<Token>)>, rest: seq<Token>)
    requires Missed(r, rest) && (rest == [] || rest[0].FieldId?)
    ensures r == None
  {
  }
}
