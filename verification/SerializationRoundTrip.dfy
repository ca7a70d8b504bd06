/** What a generated writer writes, the generated reader reads back. */
module SerializationRoundTrip {
  import opened Sequences
  import opened Serialization
  import opened SerializationDuplicates

  // ----- what is written -----

  predicate Has(ms: seq<Member>, fields: map<string, Value>) {
    forall k :: 0 <= k < |ms| && ms[k].status == EXISTING ==> ms[k].name in fields
  }

  /** A member is written unless it is gone or has its default. */
  function OwnToken(m: Member, fields: map<string, Value>, writeDefaults: bool): seq<Token> {
    if m.status != EXISTING || m.name !in fields then []
    else if m.hasDefault && fields[m.name] == DefaultOf(m) && !writeDefaults then []
    else [FieldId(m.id), Payload(fields[m.name])]
  }

  function OwnTokens(ms: seq<Member>, fields: map<string, Value>, writeDefaults: bool): seq<Token> {
    if ms == [] then [] else OwnToken(ms[0], fields, writeDefaults) + OwnTokens(ms[1..], fields, writeDefaults)
  }

  lemma {:induction false} OwnConcat(a: seq<Member>, b: seq<Member>, fields: map<string, Value>, writeDefaults: bool)
    ensures OwnTokens(a + b, fields, writeDefaults)
        == OwnTokens(a, fields, writeDefaults) + OwnTokens(b, fields, writeDefaults)
  {
    if a == [] {
      assert a + b == b;
    } else {
      assert (a + b)[1..] == a[1..] + b;
      OwnConcat(a[1..], b, fields, writeDefaults);
    }
  }

  lemma OwnJoin(a: seq<Member>, b: seq<Member>, fields: map<string, Value>, writeDefaults: bool, rest: seq<Token>)
    ensures OwnTokens(a, fields, writeDefaults) + (OwnTokens(b, fields, writeDefaults) + rest) ==
              OwnTokens(a + b, fields, writeDefaults) + rest
  {
    OwnConcat(a, b, fields, writeDefaults);
    hide OwnTokens;
  }

  lemma {:induction false} WritesOwn(ms: seq<Member>, fields: map<string, Value>, base: seq<Token>, writeDefaults: bool)
    requires Has(ms, fields)
    ensures RunWrites(Writes(ms), fields, base, writeDefaults) == Some(OwnTokens(ms, fields, writeDefaults))
  {
    if ms != [] {
      assert forall k :: 0 <= k < |ms| - 1 ==> ms[1..][k] == ms[k + 1];
      assert Writes(ms)[1..] == Writes(ms[1..]);
      WritesOwn(ms[1..], fields, base, writeDefaults);
      assert [] + OwnTokens(ms[1..], fields, writeDefaults) == OwnTokens(ms[1..], fields, writeDefaults);
      assert Writes(ms)[0] == SerializeElement(ms[0]) && (ms[0].status == EXISTING ==> ms[0].name in fields);
      hide Has, Writes;
    }
  }

  lemma WriteCodeOwn(c: Class, hasBase: bool, fields: map<string, Value>, base: seq<Token>, writeDefaults: bool)
    requires Has(c.members, fields)
    ensures RunWrites(WriteCode(c, hasBase), fields, base, writeDefaults) ==
              Some((if hasBase then base else []) + OwnTokens(c.members, fields, writeDefaults))
  {
    WritesOwn(c.members, fields, base, writeDefaults);
    if hasBase {
      assert WriteCode(c, true)[1..] == Writes(c.members);
    } else {
      assert WriteCode(c, false) == Writes(c.members);
      assert [] + OwnTokens(c.members, fields, writeDefaults) == OwnTokens(c.members, fields, writeDefaults);
    }
  }

  /** The writers along an inheritance path write the members of all classes, base classes first. */
  lemma {:induction false} SerializeIs(path: seq<Class>, fields: map<string, Value>, writeDefaults: bool)
    requires Has(AllMembers(path), fields)
    ensures Serialize(path, fields, writeDefaults) == Some(OwnTokens(AllMembers(path), fields, writeDefaults))
  {
    if path != [] {
      var before, c := path[..|path| - 1], path[|path| - 1];
      HasParts(AllMembers(before), c.members, fields);
      SerializeIs(before, fields, writeDefaults);
      WriteCodeOwn(c, |path| > 1, fields, OwnTokens(AllMembers(before), fields, writeDefaults), writeDefaults);
      OwnConcat(AllMembers(before), c.members, fields, writeDefaults);
    }
  }

  lemma HasParts(a: seq<Member>, b: seq<Member>, fields: map<string, Value>)
    ensures Has(a + b, fields) <==> Has(a, fields) && Has(b, fields)
  {
    assert forall k :: 0 <= k < |a| ==> (a + b)[k] == a[k];
    assert forall k :: 0 <= k < |b| ==> (a + b)[|a| + k] == b[k];
  }

  // ----- what is read -----

  /** The value a member has after reading. */
  function Restored(m: Member, fields: map<string, Value>): Value {
    if m.status == EXISTING && m.name in fields then fields[m.name] else DefaultOf(m)
  }

  /** What reading members puts into a map of variables or fields. */
  function After(ms: seq<Member>, fields: map<string, Value>, into: map<string, Value>): map<string, Value> {
    if ms == [] then into else After(ms[1..], fields, AfterOne(ms[0], fields, into))
  }

  function AfterOne(m: Member, fields: map<string, Value>, into: map<string, Value>): map<string, Value> {
    if m.status == DELETED then into else into[m.name := Restored(m, fields)]
  }

  /** Some member has this id, and nothing is written of it or of those behind it: behind what the members write, the
      reader takes the id for that member's. */
  predicate Sought(ms: seq<Member>, fields: map<string, Value>, writeDefaults: bool, id: nat) {
    exists k :: 0 <= k < |ms| && SoughtAt(ms, k, fields, writeDefaults, id)
  }

  predicate SoughtAt(ms: seq<Member>, k: nat, fields: map<string, Value>, writeDefaults: bool, id: nat)
    requires k < |ms|
  {
    ms[k].id == id && OwnTokens(ms[k..], fields, writeDefaults) == []
  }

  /** Behind these members the stream goes on with a field id that is not taken for one of theirs. */
  predicate GoesOn(tokens: seq<Token>, ms: seq<Member>, fields: map<string, Value>, writeDefaults: bool) {
    tokens != [] && tokens[0].FieldId? && !Sought(ms, fields, writeDefaults, tokens[0].id)
  }

  function Loaded(s: Machine, local: bool, into: map<string, Value>, tokens: seq<Token>): Machine
    requires local || s.result.Some?
  {
    if local then s.(locals := into, tokens := tokens)
    else s.(result := Some(s.result.value.(fields := into)), tokens := tokens)
  }

  function Into(s: Machine, local: bool): map<string, Value>
    requires local || s.result.Some?
  {
    if local then s.locals else s.result.value.fields
  }

  /** The stream that members write starts with the id of one of them. */
  lemma {:induction false} OwnHead(ms: seq<Member>, fields: map<string, Value>, writeDefaults: bool)
    requires OwnTokens(ms, fields, writeDefaults) != []
    ensures OwnTokens(ms, fields, writeDefaults)[0].FieldId?
    ensures exists k :: 0 <= k < |ms| && ms[k].id == OwnTokens(ms, fields, writeDefaults)[0].id
  {
    if OwnToken(ms[0], fields, writeDefaults) == [] {
      assert OwnTokens(ms, fields, writeDefaults) == OwnTokens(ms[1..], fields, writeDefaults);
      OwnHead(ms[1..], fields, writeDefaults);
      assert forall k :: 0 <= k < |ms| - 1 ==> ms[1..][k] == ms[k + 1];
    } else {
      assert ms[0].id == OwnTokens(ms, fields, writeDefaults)[0].id;
    }
  }

  lemma SoughtInSecond(a: seq<Member>, b: seq<Member>, k: nat, fields: map<string, Value>, writeDefaults: bool, id: nat)
    requires k < |b|
    ensures SoughtAt(a + b, |a| + k, fields, writeDefaults, id) <==> SoughtAt(b, k, fields, writeDefaults, id)
  {
    assert (a + b)[|a| + k..] == b[k..];
  }

  lemma SoughtInFirst(a: seq<Member>, b: seq<Member>, k: nat, fields: map<string, Value>, writeDefaults: bool, id: nat)
    requires k < |a|
    ensures SoughtAt(a + b, k, fields, writeDefaults, id)
       <==> SoughtAt(a, k, fields, writeDefaults, id) && OwnTokens(b, fields, writeDefaults) == []
  {
    hide OwnTokens;
    assert (a + b)[k..] == a[k..] + b;
    OwnConcat(a[k..], b, fields, writeDefaults);
  }

  /** What is sought behind two groups of members is sought behind the second one, or behind the first one when the
      second writes nothing. */
  lemma SoughtParts(a: seq<Member>, b: seq<Member>, fields: map<string, Value>, writeDefaults: bool, id: nat)
    ensures Sought(a + b, fields, writeDefaults, id)
       <==> Sought(b, fields, writeDefaults, id)
            || (OwnTokens(b, fields, writeDefaults) == [] && Sought(a, fields, writeDefaults, id))
  {
    hide OwnTokens, SoughtAt;
    if k :| 0 <= k < |b| && SoughtAt(b, k, fields, writeDefaults, id) {
      SoughtInSecond(a, b, k, fields, writeDefaults, id);
    }
    if k :| 0 <= k < |a| && SoughtAt(a, k, fields, writeDefaults, id) {
      SoughtInFirst(a, b, k, fields, writeDefaults, id);
    }
    if k :| 0 <= k < |a + b| && SoughtAt(a + b, k, fields, writeDefaults, id) {
      if k >= |a| {
        SoughtInSecond(a, b, k - |a|, fields, writeDefaults, id);
      } else {
        SoughtInFirst(a, b, k, fields, writeDefaults, id);
      }
    }
  }

  lemma UnnumberedNotSought(ms: seq<Member>, fields: map<string, Value>, writeDefaults: bool, id: nat)
    requires forall k :: 0 <= k < |ms| ==> ms[k].id != id
    ensures !Sought(ms, fields, writeDefaults, id)
  {
  }

  /** The first group of members goes on with what the second one writes, and with the rest if it writes nothing. */
  lemma OwnGoesOn(a: seq<Member>, b: seq<Member>, fields: map<string, Value>, writeDefaults: bool, rest: seq<Token>)
    requires GoesOn(rest, a + b, fields, writeDefaults)
    requires forall j, k :: 0 <= j < |a| && 0 <= k < |b| ==> a[j].id != b[k].id
    ensures GoesOn(OwnTokens(b, fields, writeDefaults) + rest, a, fields, writeDefaults)
    ensures GoesOn(rest, b, fields, writeDefaults)
  {
    hide OwnTokens;
    SoughtParts(a, b, fields, writeDefaults, rest[0].id);
    OwnStartsApart(a, b, fields, writeDefaults, rest);
  }

  lemma OwnStartsApart(a: seq<Member>, b: seq<Member>, fields: map<string, Value>, writeDefaults: bool, rest: seq<Token>)
    requires forall j, k :: 0 <= j < |a| && 0 <= k < |b| ==> a[j].id != b[k].id
    requires rest != [] && rest[0].FieldId?
    requires OwnTokens(b, fields, writeDefaults) == [] ==> !Sought(a, fields, writeDefaults, rest[0].id)
    ensures GoesOn(OwnTokens(b, fields, writeDefaults) + rest, a, fields, writeDefaults)
  {
    hide OwnTokens;
    if OwnTokens(b, fields, writeDefaults) == [] {
      assert OwnTokens(b, fields, writeDefaults) + rest == rest;
    } else {
      OwnHead(b, fields, writeDefaults);
      UnnumberedNotSought(a, fields, writeDefaults, OwnTokens(b, fields, writeDefaults)[0].id);
    }
  }

  lemma OwnTokensOne(m: Member, fields: map<string, Value>, writeDefaults: bool)
    ensures OwnTokens([m], fields, writeDefaults) == OwnToken(m, fields, writeDefaults)
  {
    assert [m][1..] == [];
    assert OwnToken(m, fields, writeDefaults) + [] == OwnToken(m, fields, writeDefaults);
  }

  /** What reads a member. */
  function Reading(m: Member, local: bool): Generated<ReadOp> {
    DeserializeElement(m, if local then Local(m.name) else Field(m.name))
  }

  /** Reading one member takes what writing it put into the stream. */
  lemma ReadOne(c: Class, m: Member, fields: map<string, Value>, writeDefaults: bool, s: Machine, local: bool,
                rest: seq<Token>)
    requires (m.status == EXISTING ==> m.name in fields) && (m.status == READ_ONLY ==> m.hasDefault)
    requires local || s.result.Some?
    requires s.tokens == OwnToken(m, fields, writeDefaults) + rest && GoesOn(rest, [m], fields, writeDefaults)
    ensures var op := Reading(m, local);
            op.Ok? && RunRead(c, op.value, s) == Some(Loaded(s, local, AfterOne(m, fields, Into(s, local)), rest))
  {
    assert [m][0] == m && [m][0..] == [m];
    OwnTokensOne(m, fields, writeDefaults);
    hide Sought;
    if OwnToken(m, fields, writeDefaults) == [] {
      assert Sought([m], fields, writeDefaults, m.id) by {
        LoneSought(m, fields, writeDefaults);
      }
      assert s.tokens == rest;
    } else {
      assert s.tokens[2..] == rest;
    }
  }

  lemma LoneSought(m: Member, fields: map<string, Value>, writeDefaults: bool)
    requires OwnToken(m, fields, writeDefaults) == []
    ensures Sought([m], fields, writeDefaults, m.id)
  {
    OwnTokensOne(m, fields, writeDefaults);
    assert [m][0..] == [m] && SoughtAt([m], 0, fields, writeDefaults, m.id);
  }

  lemma FirstAndLater(ms: seq<Member>, fields: map<string, Value>)
    requires ms != [] && Has(ms, fields) && Readable(ms) && DistinctIds(ms)
    ensures ms == [ms[0]] + ms[1..]
    ensures Has(ms[1..], fields) && Readable(ms[1..]) && DistinctIds(ms[1..])
    ensures (ms[0].status == EXISTING ==> ms[0].name in fields) && (ms[0].status == READ_ONLY ==> ms[0].hasDefault)
    ensures forall k :: 0 <= k < |ms[1..]| ==> ms[1..][k].id != ms[0].id
  {
    assert forall k :: 0 <= k < |ms[1..]| ==> ms[1..][k] == ms[k + 1];
  }

  lemma ReadsFirst(c: Class, ms: seq<Member>, local: bool, s: Machine)
    requires ms != [] && Readable(ms)
    ensures Readable(ms[1..]) && Reading(ms[0], local).Ok?
    ensures RunReads(c, Reads(ms, local), s) ==
              var next := RunRead(c, Reading(ms[0], local).value, s);
              if next.None? then None else RunReads(c, Reads(ms[1..], local), next.value)
  {
    hide RunRead;
    assert forall k :: 0 <= k < |ms[1..]| ==> ms[1..][k] == ms[k + 1];
    assert Reads(ms, local)[1..] == Reads(ms[1..], local);
  }

  lemma {:induction false} ReadMany(c: Class, ms: seq<Member>, fields: map<string, Value>, writeDefaults: bool,
                                    s: Machine, local: bool, rest: seq<Token>)
    requires Has(ms, fields) && Readable(ms) && DistinctIds(ms) && (local || s.result.Some?)
    requires s.tokens == OwnTokens(ms, fields, writeDefaults) + rest && GoesOn(rest, ms, fields, writeDefaults)
    ensures RunReads(c, Reads(ms, local), s) == Some(Loaded(s, local, After(ms, fields, Into(s, local)), rest))
    decreases |ms|
  {
    if ms == [] {
      assert s.tokens == rest;
      assert Reads(ms, local) == [];
    } else {
      var m, later := ms[0], ms[1..];
      var middle := OwnTokens(later, fields, writeDefaults) + rest;
      var next := Loaded(s, local, AfterOne(m, fields, Into(s, local)), middle);
      assert s.tokens == OwnToken(m, fields, writeDefaults) + middle;
      hide RunRead, RunReads, Has, Readable, GoesOn, DistinctIds, OwnTokens, OwnToken, Reads;
      FirstAndLater(ms, fields);
      ReadsFirst(c, ms, local, s);
      OwnGoesOn([m], later, fields, writeDefaults, rest);
      ReadOne(c, m, fields, writeDefaults, s, local, middle);
      ReadMany(c, later, fields, writeDefaults, next, local, rest);
    }
  }

  lemma {:induction false} RunReadsConcat(c: Class, a: seq<ReadOp>, b: seq<ReadOp>, s: Machine)
    ensures var r := RunReads(c, a, s); RunReads(c, a + b, s) == if r.None? then None else RunReads(c, b, r.value)
    decreases |a|
  {
    if a == [] {
      assert a + b == b;
    } else {
      assert (a + b)[1..] == a[1..] + b;
      var next := RunRead(c, a[0], s);
      if next.Some? {
        RunReadsConcat(c, a[1..], b, next.value);
      }
    }
  }

  /** The result's fields after assignments. */
  function Assigned(ms: seq<Member>, skipped: set<string>, locals: map<string, Value>, into: map<string, Value>)
      : map<string, Value>
  {
    if ms == [] then into else
    var last := ms[|ms| - 1];
    var before := Assigned(ms[..|ms| - 1], skipped, locals, into);
    if last.status == EXISTING && last.name !in skipped && last.name in locals then before[last.name := locals[last.name]]
    else before
  }

  lemma {:induction false} RunAssigns(c: Class, ms: seq<Member>, skipped: set<string>, s: Machine)
    requires s.result.Some?
    requires forall k :: 0 <= k < |ms| && ms[k].status == EXISTING ==> ms[k].name in s.locals
    ensures RunReads(c, Assigns(ms, skipped), s) ==
              Some(s.(result := Some(s.result.value.(fields := Assigned(ms, skipped, s.locals, s.result.value.fields)))))
    decreases |ms|
  {
    if ms != [] {
      var before, last := ms[..|ms| - 1], ms[|ms| - 1];
      RunAssigns(c, before, skipped, s);
      var op := if last.status == EXISTING && last.name !in skipped then [Assign(last.name)] else [];
      RunReadsConcat(c, Assigns(before, skipped), op, s);
      if op != [] {
        assert op[1..] == [];
      }
    }
  }

  // ----- what ends up in the maps -----

  /** No member has this name. */
  predicate Unnamed(ms: seq<Member>, x: string) {
    forall k :: 0 <= k < |ms| ==> ms[k].name != x
  }

  lemma {:induction false} AfterElse(ms: seq<Member>, fields: map<string, Value>, into: map<string, Value>, x: string)
    requires forall k :: 0 <= k < |ms| && ms[k].name == x ==> ms[k].status == DELETED
    ensures var r := After(ms, fields, into); (x in r <==> x in into) && (x in r ==> r[x] == into[x])
    decreases |ms|
  {
    if ms != [] {
      assert forall k :: 0 <= k < |ms| - 1 ==> ms[1..][k] == ms[k + 1];
      AfterElse(ms[1..], fields, AfterOne(ms[0], fields, into), x);
    }
  }

  lemma {:induction false} AfterAt(ms: seq<Member>, fields: map<string, Value>, into: map<string, Value>, k: nat)
    requires DistinctNames(ms) && k < |ms| && ms[k].status != DELETED
    ensures var r := After(ms, fields, into); ms[k].name in r && r[ms[k].name] == Restored(ms[k], fields)
    decreases |ms|
  {
    assert forall i :: 0 <= i < |ms| - 1 ==> ms[1..][i] == ms[i + 1];
    if k == 0 {
      AfterElse(ms[1..], fields, AfterOne(ms[0], fields, into), ms[0].name);
    } else {
      AfterAt(ms[1..], fields, AfterOne(ms[0], fields, into), k - 1);
    }
  }

  lemma {:induction false} AssignedElse(ms: seq<Member>, skipped: set<string>, locals: map<string, Value>,
                                        into: map<string, Value>, x: string)
    requires x in skipped || forall k :: 0 <= k < |ms| && ms[k].name == x ==> ms[k].status != EXISTING
    ensures var r := Assigned(ms, skipped, locals, into); (x in r <==> x in into) && (x in r ==> r[x] == into[x])
    decreases |ms|
  {
    if ms != [] {
      var before := ms[..|ms| - 1];
      assert forall k :: 0 <= k < |before| ==> before[k] == ms[k];
      AssignedElse(before, skipped, locals, into, x);
    }
  }

  lemma {:induction false} AssignedAt(ms: seq<Member>, skipped: set<string>, locals: map<string, Value>,
                                      into: map<string, Value>, k: nat)
    requires DistinctNames(ms) && k < |ms| && ms[k].status == EXISTING && ms[k].name !in skipped && ms[k].name in locals
    ensures var r := Assigned(ms, skipped, locals, into); ms[k].name in r && r[ms[k].name] == locals[ms[k].name]
    decreases |ms|
  {
    var before := ms[..|ms| - 1];
    assert forall i :: 0 <= i < |before| ==> before[i] == ms[i];
    if k < |before| {
      AssignedAt(before, skipped, locals, into, k);
      assert before[k].name != ms[|ms| - 1].name;
    }
  }

  /** The value a member of a class has in the object that is read, if it has one: members that a base class routes
      elsewhere are not restored, and a member that is only read has its default where it is read at all. */
  function Expected(c: Class, k: nat, fields: map<string, Value>): Option<Value>
    requires k < |c.members|
  {
    var m := c.members[k];
    match c
    case Base(_, _, enumValue, setParameters, _) =>
      if m.status == EXISTING && m.name !in setParameters && m.name != enumValue then Some(Restored(m, fields)) else None
    case Leaf(_, ms, _) =>
      var arguments := ConstructorArguments(c);
      if m.status == EXISTING || (m.status == READ_ONLY && (m.name in arguments || k >= ConstructorPrefix(c)))
      then Some(Restored(m, fields)) else None
  }

  /** Exactly the members of the class that are expected have values, the expected ones. */
  predicate Restores(r: map<string, Value>, c: Class, fields: map<string, Value>) {
    forall k :: 0 <= k < |c.members| ==>
      (c.members[k].name in r <==> Expected(c, k, fields).Some?)
      && (c.members[k].name in r ==> Expected(c, k, fields) == Some(r[c.members[k].name]))
  }

  /** A class whose constructor takes no member that is gone. */
  predicate Constructible(c: Class) {
    c.Leaf? ==>
      forall k :: 0 <= k < |c.members| && c.members[k].status == DELETED ==> c.members[k].name !in ConstructorArguments(c)
  }

  // ----- a class that is constructed -----

  lemma PartsDistinct(a: seq<Member>, b: seq<Member>)
    requires DistinctIds(a + b) && DistinctNames(a + b)
    ensures DistinctIds(a) && DistinctIds(b) && DistinctNames(a) && DistinctNames(b)
    ensures forall j, k :: 0 <= j < |a| && 0 <= k < |b| ==> a[j].id != b[k].id && a[j].name != b[k].name
  {
    assert forall j :: 0 <= j < |a| ==> (a + b)[j] == a[j];
    assert forall k :: 0 <= k < |b| ==> (a + b)[|a| + k] == b[k];
  }

  /** The members read before the constructor is called. */
  function Prefix(c: Class): seq<Member>
    requires c.Leaf?
  {
    c.members[..ConstructorPrefix(c)]
  }

  /** What the constructor takes. */
  function Taken(c: Class, fields: map<string, Value>): map<string, Value>
    requires c.Leaf?
  {
    var arguments, locals := ConstructorArguments(c), After(Prefix(c), fields, map[]);
    map x | x in arguments && x in locals :: locals[x]
  }

  /** What the constructor and the assignments behind it make of the variables. */
  function Constructed(c: Class, fields: map<string, Value>): map<string, Value>
    requires c.Leaf?
  {
    Assigned(Prefix(c), SetOf(ConstructorArguments(c)), After(Prefix(c), fields, map[]), Taken(c, fields))
  }

  function LeafFields(c: Class, fields: map<string, Value>): map<string, Value>
    requires c.Leaf?
  {
    After(c.members[ConstructorPrefix(c)..], fields, Constructed(c, fields))
  }

  lemma ArgumentsInPrefix(c: Class, x: string)
    requires c.Leaf? && Acceptable(c) && DistinctNames(c.members) && x in ConstructorArguments(c)
    ensures x in Names(c.members[..ConstructorPrefix(c)])
  {
    var arguments := ConstructorArguments(c);
    var n := ConstructorPrefix(c);
    assert x in SetOf(arguments);
    var k :| 0 <= k < |c.members| && c.members[k].name == x;
    if k >= n {
      var a :| 0 <= a < |arguments| && arguments[a] == x;
      BehindLastTaken(c.members, arguments, k, a);
    }
    assert c.members[..n][k].name == x;
  }

  lemma PrefixDistinct(c: Class)
    requires c.Leaf? && DistinctNames(c.members)
    ensures DistinctNames(Prefix(c)) && |Prefix(c)| <= |c.members|
    ensures forall k :: 0 <= k < |Prefix(c)| ==> Prefix(c)[k] == c.members[k]
  {
  }

  /** Every argument of the constructor has been read into its variable. */
  lemma ArgumentRead(c: Class, fields: map<string, Value>, x: string)
    requires c.Leaf? && Acceptable(c) && Constructible(c) && DistinctNames(c.members) && x in ConstructorArguments(c)
    ensures x in After(Prefix(c), fields, map[]) && !Unnamed(Prefix(c), x)
  {
    PrefixDistinct(c);
    ArgumentsInPrefix(c, x);
    var k :| 0 <= k < |Prefix(c)| && Prefix(c)[k].name == x;
    assert c.members[k].status != DELETED;
    AfterAt(Prefix(c), fields, map[], k);
  }

  lemma ConstructedAt(c: Class, fields: map<string, Value>, k: nat)
    requires c.Leaf? && Acceptable(c) && Constructible(c) && DistinctNames(c.members) && k < |Prefix(c)|
    ensures var name, r := c.members[k].name, Constructed(c, fields);
            (name in r <==> Expected(c, k, fields).Some?) && (name in r ==> Expected(c, k, fields) == Some(r[name]))
  {
    var m, arguments, prefix := c.members[k], ConstructorArguments(c), Prefix(c);
    PrefixDistinct(c);
    ExpectedInPrefix(c, fields, k);
    ConstructedIs(c, fields);
    assert prefix[k] == m && (m.name in SetOf(arguments) <==> m.name in arguments);
    hide *;
    if m.status == EXISTING && m.name !in arguments {
      AfterAt(prefix, fields, map[], k);
      AssignedAt(prefix, SetOf(arguments), After(prefix, fields, map[]), Taken(c, fields), k);
    } else {
      if m.status != EXISTING {
        OthersNotExisting(prefix, k);
      }
      AssignedElse(prefix, SetOf(arguments), After(prefix, fields, map[]), Taken(c, fields), m.name);
      TakenAt(c, fields, k);
    }
  }

  lemma TakenAt(c: Class, fields: map<string, Value>, k: nat)
    requires c.Leaf? && Acceptable(c) && Constructible(c) && DistinctNames(c.members) && k < |Prefix(c)|
    ensures var m := Prefix(c)[k]; var r := Taken(c, fields);
            (m.name in r <==> m.name in ConstructorArguments(c)) && (m.name in r ==> r[m.name] == Restored(m, fields))
  {
    PrefixDistinct(c);
    var m := Prefix(c)[k];
    if m.name in ConstructorArguments(c) {
      ArgumentRead(c, fields, m.name);
      ExpectedInPrefix(c, fields, k);
      AfterAt(Prefix(c), fields, map[], k);
    }
  }

  lemma OthersNotExisting(ms: seq<Member>, k: nat)
    requires DistinctNames(ms) && k < |ms| && ms[k].status != EXISTING
    ensures forall j :: 0 <= j < |ms| && ms[j].name == ms[k].name ==> ms[j].status != EXISTING
  {
  }

  lemma ConstructedIs(c: Class, fields: map<string, Value>)
    requires c.Leaf?
    ensures var locals := After(Prefix(c), fields, map[]);
            Constructed(c, fields) == Assigned(Prefix(c), SetOf(ConstructorArguments(c)), locals, Taken(c, fields))
  {
  }

  lemma ExpectedInPrefix(c: Class, fields: map<string, Value>, k: nat)
    requires c.Leaf? && Acceptable(c) && Constructible(c) && DistinctNames(c.members) && k < |Prefix(c)|
    ensures |Prefix(c)| <= |c.members|
    ensures var m := c.members[k]; var taken := m.name in ConstructorArguments(c);
            && (taken ==> m.status != DELETED)
            && Expected(c, k, fields) ==
                 if m.status == EXISTING || (m.status == READ_ONLY && taken) then Some(Restored(m, fields)) else None
  {
  }

  /** A constructed object has only members of the class. */
  lemma ConstructedElse(c: Class, fields: map<string, Value>, x: string)
    requires c.Leaf? && Acceptable(c) && Constructible(c) && DistinctNames(c.members) && Unnamed(Prefix(c), x)
    ensures x !in Constructed(c, fields)
  {
    var arguments, prefix := ConstructorArguments(c), Prefix(c);
    var locals := After(prefix, fields, map[]);
    AssignedElse(prefix, SetOf(arguments), locals, Taken(c, fields), x);
    if x in arguments {
      ArgumentRead(c, fields, x);
    }
  }

  lemma LeafAt(c: Class, fields: map<string, Value>, k: nat)
    requires c.Leaf? && Acceptable(c) && Constructible(c) && DistinctNames(c.members) && k < |c.members|
    ensures var name, r := c.members[k].name, LeafFields(c, fields);
            (name in r <==> Expected(c, k, fields).Some?) && (name in r ==> Expected(c, k, fields) == Some(r[name]))
  {
    var n, m := |Prefix(c)|, c.members[k];
    var later := c.members[n..];
    PrefixDistinct(c);
    assert LeafFields(c, fields) == After(later, fields, Constructed(c, fields));
    assert forall j :: 0 <= j < |later| ==> later[j] == c.members[n + j];
    assert DistinctNames(later);
    hide Constructed, LeafFields, DistinctNames, Acceptable, Constructible;
    if k < n {
      ConstructedAt(c, fields, k);
      AfterElse(later, fields, Constructed(c, fields), m.name) by {
        ElsewhereInLater(c, k);
      }
    } else if m.status == DELETED {
      ElsewhereInLater(c, k);
      AfterElse(later, fields, Constructed(c, fields), m.name);
      ConstructedElse(c, fields, m.name);
    } else {
      AfterAt(later, fields, Constructed(c, fields), k - n);
    }
  }

  lemma ElsewhereInLater(c: Class, k: nat)
    requires c.Leaf? && DistinctNames(c.members) && k < |c.members|
    ensures var n := |Prefix(c)|; var later := c.members[n..];
            && (k < n || c.members[k].status == DELETED ==>
                  forall j :: 0 <= j < |later| && later[j].name == c.members[k].name ==> later[j].status == DELETED)
            && (k >= n ==> Unnamed(Prefix(c), c.members[k].name))
  {
    PrefixDistinct(c);
    var n := |Prefix(c)|;
    assert forall j :: 0 <= j < |c.members[n..]| ==> c.members[n..][j] == c.members[n + j];
  }

  lemma LeafElse(c: Class, fields: map<string, Value>, x: string)
    requires c.Leaf? && Acceptable(c) && Constructible(c) && DistinctNames(c.members) && Unnamed(c.members, x)
    ensures x !in LeafFields(c, fields)
  {
    PrefixDistinct(c);
    var later := c.members[|Prefix(c)|..];
    assert forall j :: 0 <= j < |later| ==> later[j] == c.members[|Prefix(c)| + j];
    ConstructedElse(c, fields, x);
    AfterElse(later, fields, Constructed(c, fields), x);
  }

  /** What holds of the parts of the members, and of the stream in between. */
  lemma StreamParts(a: seq<Member>, b: seq<Member>, fields: map<string, Value>, writeDefaults: bool, rest: seq<Token>)
    requires Readable(a + b) && DistinctNames(a + b) && DistinctIds(a + b) && Has(a + b, fields)
    requires GoesOn(rest, a + b, fields, writeDefaults)
    ensures Readable(a) && Readable(b) && Has(a, fields) && Has(b, fields) && DistinctIds(a) && DistinctIds(b)
    ensures GoesOn(OwnTokens(b, fields, writeDefaults) + rest, a, fields, writeDefaults)
    ensures GoesOn(rest, b, fields, writeDefaults)
    ensures OwnTokens(a + b, fields, writeDefaults) + rest ==
              OwnTokens(a, fields, writeDefaults) + (OwnTokens(b, fields, writeDefaults) + rest)
  {
    hide *;
    PartsDistinct(a, b);
    HasParts(a, b, fields);
    ReadableParts(a, b);
    OwnJoin(a, b, fields, writeDefaults, rest);
    OwnGoesOn(a, b, fields, writeDefaults, rest);
  }

  lemma ReadableParts(a: seq<Member>, b: seq<Member>)
    ensures Readable(a + b) ==> Readable(a) && Readable(b)
  {
    assert forall k :: 0 <= k < |a| ==> (a + b)[k] == a[k];
    assert forall k :: 0 <= k < |b| ==> (a + b)[|a| + k] == b[k];
  }

  lemma ConstructRuns(c: Class, fields: map<string, Value>, tokens: seq<Token>)
    requires c.Leaf? && Acceptable(c) && Constructible(c) && DistinctNames(c.members)
    ensures var arguments, locals := ConstructorArguments(c), After(Prefix(c), fields, map[]);
            RunRead(c, Construct(arguments), Machine(tokens, locals, None)) ==
              Some(Machine(tokens, locals, Some(Object(c.name, Taken(c, fields)))))
  {
    var arguments, locals := ConstructorArguments(c), After(Prefix(c), fields, map[]);
    forall x | x in arguments ensures x in locals {
      ArgumentRead(c, fields, x);
    }
    assert (map x | x in arguments :: locals[x]) == Taken(c, fields);
  }

  /** The parts of the code that reads a class with a constructor. */
  lemma LeafCode(c: Class)
    requires c.Leaf? && Acceptable(c)
    ensures ConstructorPrefix(c) == |Prefix(c)| <= |c.members|
    ensures Prefix(c) + c.members[|Prefix(c)|..] == c.members && Readable(c.members)
    ensures ReadCode(c) == Reads(Prefix(c), true) + [Construct(ConstructorArguments(c))]
                             + Assigns(Prefix(c), SetOf(ConstructorArguments(c))) + Reads(c.members[|Prefix(c)|..], false)
  {
    hide Reads, Assigns, SetOf, ConstructorArguments, ConstructorPrefix, Readable;
  }

  /** Reading a class that is constructed. */
  lemma LeafReads(c: Class, fields: map<string, Value>, writeDefaults: bool, rest: seq<Token>)
    requires c.Leaf? && Acceptable(c) && Constructible(c) && DistinctNames(c.members) && DistinctIds(c.members)
    requires Has(c.members, fields) && GoesOn(rest, c.members, fields, writeDefaults)
    ensures Deserialize(c, OwnTokens(c.members, fields, writeDefaults) + rest) ==
              Some((Object(c.name, LeafFields(c, fields)), rest))
  {
    hide RunRead, RunReads, GoesOn, Has, Readable, DistinctIds, DistinctNames, Assigned, After, OwnTokens, Prefix, Reads,
      Assigns, SetOf, ConstructorArguments, ConstructorPrefix, ReadCode, Acceptable, Constructible, Taken, Names;
    LeafCode(c);
    PrefixDistinct(c);
    var arguments, prefix := ConstructorArguments(c), Prefix(c);
    var later := c.members[|prefix|..];
    StreamParts(prefix, later, fields, writeDefaults, rest);
    AllAssignable(c, fields);
    var middle := OwnTokens(later, fields, writeDefaults) + rest;
    var locals := After(prefix, fields, map[]);
    var s0 := Machine(OwnTokens(c.members, fields, writeDefaults) + rest, map[], None);
    var s1 := Machine(middle, locals, None);
    ReadMany(c, prefix, fields, writeDefaults, s0, true, middle);
    ConstructRuns(c, fields, middle);
    RunOnly(c, Construct(arguments), s1);
    var s2 := Machine(middle, locals, Some(Object(c.name, Taken(c, fields))));
    RunAssigns(c, prefix, SetOf(arguments), s2);
    var s3 := s2.(result := Some(Object(c.name, Constructed(c, fields))));
    ReadMany(c, later, fields, writeDefaults, s3, false, rest);
    FourParts(c, Reads(prefix, true), [Construct(arguments)], Assigns(prefix, SetOf(arguments)), Reads(later, false), s0);
  }

  lemma AllAssignable(c: Class, fields: map<string, Value>)
    requires c.Leaf? && DistinctNames(c.members)
    ensures forall k :: 0 <= k < |Prefix(c)| && Prefix(c)[k].status == EXISTING ==>
              Prefix(c)[k].name in After(Prefix(c), fields, map[])
  {
    PrefixDistinct(c);
    forall k | 0 <= k < |Prefix(c)| && Prefix(c)[k].status == EXISTING
      ensures Prefix(c)[k].name in After(Prefix(c), fields, map[])
    {
      AfterAt(Prefix(c), fields, map[], k);
    }
  }

  lemma RunOnly(c: Class, op: ReadOp, s: Machine)
    ensures RunReads(c, [op], s) == RunRead(c, op, s)
  {
    if RunRead(c, op, s).Some? {
      assert [op][1..] == [];
    }
  }

  lemma FourParts(c: Class, p: seq<ReadOp>, q: seq<ReadOp>, r: seq<ReadOp>, t: seq<ReadOp>, s: Machine)
    ensures RunReads(c, p + q + r + t, s) ==
              var s1 := RunReads(c, p, s);
              if s1.None? then None else
              var s2 := RunReads(c, q, s1.value);
              if s2.None? then None else
              var s3 := RunReads(c, r, s2.value);
              if s3.None? then None else RunReads(c, t, s3.value)
  {
    RunReadsConcat(c, p + q + r, t, s);
    RunReadsConcat(c, p + q, r, s);
    RunReadsConcat(c, p, q, s);
  }

  // ----- a class that dispatches -----

  /** The enum member is written, and its value picks the child. */
  predicate Dispatches(c: Class, child: Class, fields: map<string, Value>) {
    && c.Base? && c.enumValue in fields && FindChild(c.children, fields[c.enumValue]) == Some(child)
    && exists k :: 0 <= k < |c.members| && c.members[k].name == c.enumValue && c.members[k].status == EXISTING
  }

  function Skipped(c: Class): set<string>
    requires c.Base?
  {
    SetOf(c.setParameters) + {c.enumValue}
  }

  /** Reading a base class: its members, the child, and the assignments. */
  lemma BaseReads(c: Class, child: Class, fields: map<string, Value>, writeDefaults: bool, middle: seq<Token>, o: Object,
                  rest: seq<Token>)
    requires Dispatches(c, child, fields) && Acceptable(c) && DistinctNames(c.members) && DistinctIds(c.members)
    requires Has(c.members, fields) && GoesOn(middle, c.members, fields, writeDefaults)
    requires Deserialize(child, middle) == Some((o, rest))
    ensures var locals := After(c.members, fields, map[]);
            Deserialize(c, OwnTokens(c.members, fields, writeDefaults) + middle) ==
              Some((o.(fields := Assigned(c.members, Skipped(c), locals, o.fields)), rest))
  {
    var tokens, locals := OwnTokens(c.members, fields, writeDefaults) + middle, After(c.members, fields, map[]);
    var s0, s1 := Machine(tokens, map[], None), Machine(middle, locals, None);
    var s2 := Machine(rest, locals, Some(o));
    DispatchRuns(c, child, fields, middle, o, rest);
    BaseAssignable(c, fields);
    assert ReadCode(c) == Reads(c.members, true) + [Dispatch(c.enumValue)] + Assigns(c.members, Skipped(c)) + [];
    hide RunRead, RunReads, GoesOn, Has, Readable, DistinctIds, DistinctNames, Assigned, After, OwnTokens, Dispatches,
      ReadCode, Reads, Assigns, Skipped;
    ReadMany(c, c.members, fields, writeDefaults, s0, true, middle);
    RunOnly(c, Dispatch(c.enumValue), s1);
    RunAssigns(c, c.members, Skipped(c), s2);
    FourParts(c, Reads(c.members, true), [Dispatch(c.enumValue)], Assigns(c.members, Skipped(c)), [], s0);
    NothingToRun(c, s2.(result := Some(o.(fields := Assigned(c.members, Skipped(c), locals, o.fields)))));
  }

  lemma NothingToRun(c: Class, s: Machine)
    ensures RunReads(c, [], s) == Some(s)
  {
  }

  lemma DispatchRuns(c: Class, child: Class, fields: map<string, Value>, tokens: seq<Token>, o: Object, rest: seq<Token>)
    requires Dispatches(c, child, fields) && DistinctNames(c.members) && Deserialize(child, tokens) == Some((o, rest))
    ensures var locals := After(c.members, fields, map[]);
            RunRead(c, Dispatch(c.enumValue), Machine(tokens, locals, None)) == Some(Machine(rest, locals, Some(o)))
  {
    var k :| 0 <= k < |c.members| && c.members[k].name == c.enumValue && c.members[k].status == EXISTING;
    AfterAt(c.members, fields, map[], k);
  }

  lemma BaseAssignable(c: Class, fields: map<string, Value>)
    requires DistinctNames(c.members)
    ensures forall k :: 0 <= k < |c.members| && c.members[k].status == EXISTING ==>
              c.members[k].name in After(c.members, fields, map[])
  {
    forall k | 0 <= k < |c.members| && c.members[k].status == EXISTING
      ensures c.members[k].name in After(c.members, fields, map[])
    {
      AfterAt(c.members, fields, map[], k);
    }
  }

  lemma BaseAt(c: Class, fields: map<string, Value>, into: map<string, Value>, k: nat)
    requires c.Base? && DistinctNames(c.members) && Has(c.members, fields) && k < |c.members| && c.members[k].name !in into
    ensures var name, r := c.members[k].name, Assigned(c.members, Skipped(c), After(c.members, fields, map[]), into);
            (name in r <==> Expected(c, k, fields).Some?) && (name in r ==> Expected(c, k, fields) == Some(r[name]))
  {
    var m, locals := c.members[k], After(c.members, fields, map[]);
    assert m.name in SetOf(c.setParameters) <==> m.name in c.setParameters;
    if m.status == EXISTING && m.name !in Skipped(c) {
      AfterAt(c.members, fields, map[], k);
      AssignedAt(c.members, Skipped(c), locals, into, k);
    } else {
      AssignedElse(c.members, Skipped(c), locals, into, m.name);
    }
  }

  // ----- a whole inheritance path -----

  /** From a base class down to the class of an object, as the enum members of the object say. */
  predicate ValidPath(path: seq<Class>, fields: map<string, Value>) {
    && path != [] && path[|path| - 1].Leaf?
    && (forall i :: 0 <= i < |path| ==> Acceptable(path[i]) && Constructible(path[i]))
    && (forall i :: 0 <= i < |path| - 1 ==> Dispatches(path[i], path[i + 1], fields))
  }

  /** Exactly the expected members have values, for every class on the path, and nothing else has. */
  predicate RestoresPath(r: map<string, Value>, path: seq<Class>, fields: map<string, Value>) {
    && (forall i :: 0 <= i < |path| ==> Restores(r, path[i], fields))
    && (forall x :: x in r ==> !Unnamed(AllMembers(path), x))
  }

  lemma LeafRestores(c: Class, fields: map<string, Value>)
    requires c.Leaf? && Acceptable(c) && Constructible(c) && DistinctNames(c.members)
    ensures RestoresPath(LeafFields(c, fields), [c], fields)
  {
    var r := LeafFields(c, fields);
    AllMembersFront([c]);
    assert AllMembers([c]) == c.members;
    assert Restores(r, c, fields) by {
      forall k | 0 <= k < |c.members|
        ensures (c.members[k].name in r <==> Expected(c, k, fields).Some?)
                && (c.members[k].name in r ==> Expected(c, k, fields) == Some(r[c.members[k].name]))
      {
        LeafAt(c, fields, k);
      }
    }
    forall x | x in r ensures !Unnamed(c.members, x) {
      if Unnamed(c.members, x) {
        LeafElse(c, fields, x);
      }
    }
  }

  /** The assignments of a base class add its own members to what the child has restored. */
  lemma BaseRestores(path: seq<Class>, fields: map<string, Value>, o: map<string, Value>)
    requires |path| > 1 && path[0].Base? && DistinctNames(AllMembers(path)) && Has(path[0].members, fields)
    requires RestoresPath(o, path[1..], fields)
    ensures var c := path[0];
            RestoresPath(Assigned(c.members, Skipped(c), After(c.members, fields, map[]), o), path, fields)
  {
    var c, later := path[0], AllMembers(path[1..]);
    var locals := After(c.members, fields, map[]);
    var r := Assigned(c.members, Skipped(c), locals, o);
    AllMembersFront(path);
    NamesApart(c.members, later);
    assert Restores(r, c, fields) by {
      forall k | 0 <= k < |c.members|
        ensures (c.members[k].name in r <==> Expected(c, k, fields).Some?)
                && (c.members[k].name in r ==> Expected(c, k, fields) == Some(r[c.members[k].name]))
      {
        BaseAt(c, fields, o, k);
      }
    }
    forall i | 1 <= i < |path| ensures Restores(r, path[i], fields) {
      assert path[1..][i - 1] == path[i] && Restores(o, path[i], fields);
      StillRestores(c, path[i], path[1..], i - 1, fields, locals, o);
    }
    forall x | x in r ensures !Unnamed(AllMembers(path), x) {
      if Unnamed(AllMembers(path), x) {
        UnnamedParts(c.members, later, x);
        AssignedElse(c.members, Skipped(c), locals, o, x);
      }
    }
  }

  lemma NamesApart(a: seq<Member>, b: seq<Member>)
    requires DistinctNames(a + b)
    ensures DistinctNames(a) && DistinctNames(b) && forall k :: 0 <= k < |a| ==> Unnamed(b, a[k].name)
    ensures forall k :: 0 <= k < |b| ==> Unnamed(a, b[k].name)
  {
    assert forall j :: 0 <= j < |a| ==> (a + b)[j] == a[j];
    assert forall k :: 0 <= k < |b| ==> (a + b)[|a| + k] == b[k];
  }

  lemma UnnamedParts(a: seq<Member>, b: seq<Member>, x: string)
    ensures Unnamed(a + b, x) <==> Unnamed(a, x) && Unnamed(b, x)
  {
    assert forall j :: 0 <= j < |a| ==> (a + b)[j] == a[j];
    assert forall k :: 0 <= k < |b| ==> (a + b)[|a| + k] == b[k];
  }

  /** The members of a class are among those of every path through it. */
  lemma {:induction false} OnPath(path: seq<Class>, i: nat, k: nat)
    requires i < |path| && k < |path[i].members|
    ensures !Unnamed(AllMembers(path), path[i].members[k].name)
  {
    var before, last := path[..|path| - 1], path[|path| - 1];
    UnnamedParts(AllMembers(before), last.members, path[i].members[k].name);
    if i < |before| {
      OnPath(before, i, k);
    }
  }

  lemma StillRestores(c: Class, d: Class, path: seq<Class>, i: nat, fields: map<string, Value>,
                      locals: map<string, Value>, o: map<string, Value>)
    requires c.Base? && i < |path| && path[i] == d && Restores(o, d, fields)
    requires DistinctNames(c.members + AllMembers(path))
    ensures Restores(Assigned(c.members, Skipped(c), locals, o), d, fields)
  {
    var r := Assigned(c.members, Skipped(c), locals, o);
    NamesApart(c.members, AllMembers(path));
    forall k | 0 <= k < |d.members|
      ensures (d.members[k].name in r <==> Expected(d, k, fields).Some?)
              && (d.members[k].name in r ==> Expected(d, k, fields) == Some(r[d.members[k].name]))
    {
      OnPath(path, i, k);
      AssignedElse(c.members, Skipped(c), locals, o, d.members[k].name);
    }
  }

  /** Reading what was written along a path gives an object of the class at its end, with all that is to be restored,
      and leaves the rest of the stream. */
  lemma {:induction false} ReadsPath(path: seq<Class>, fields: map<string, Value>, writeDefaults: bool, rest: seq<Token>)
    returns (o: Object)
    requires ValidPath(path, fields) && Has(AllMembers(path), fields)
    requires DistinctIds(AllMembers(path)) && DistinctNames(AllMembers(path))
    requires GoesOn(rest, AllMembers(path), fields, writeDefaults)
    ensures Deserialize(path[0], OwnTokens(AllMembers(path), fields, writeDefaults) + rest) == Some((o, rest))
    ensures o.class_ == path[|path| - 1].name && RestoresPath(o.fields, path, fields)
  {
    PathParts(path, fields);
    hide *;
    if |path| == 1 {
      o := ReadsLeaf(path, fields, writeDefaults, rest);
    } else {
      var c, below := path[0], path[1..];
      var later := AllMembers(below);
      AllMembersFront(path);
      PathTail(path, fields);
      PartsDistinct(c.members, later);
      HasParts(c.members, later, fields);
      var middle := OwnTokens(later, fields, writeDefaults) + rest;
      OwnGoesOn(c.members, later, fields, writeDefaults, rest);
      var child := ReadsPath(below, fields, writeDefaults, rest);
      OwnJoin(c.members, later, fields, writeDefaults, rest);
      BaseReads(c, below[0], fields, writeDefaults, middle, child, rest);
      BaseRestores(path, fields, child.fields);
      o := child.(fields := Assigned(c.members, Skipped(c), After(c.members, fields, map[]), child.fields));
    }
  }

  lemma ReadsLeaf(path: seq<Class>, fields: map<string, Value>, writeDefaults: bool, rest: seq<Token>)
    returns (o: Object)
    requires ValidPath(path, fields) && Has(AllMembers(path), fields) && |path| == 1
    requires DistinctIds(AllMembers(path)) && DistinctNames(AllMembers(path))
    requires GoesOn(rest, AllMembers(path), fields, writeDefaults)
    ensures Deserialize(path[0], OwnTokens(AllMembers(path), fields, writeDefaults) + rest) == Some((o, rest))
    ensures o.class_ == path[0].name && RestoresPath(o.fields, path, fields)
  {
    var c := path[0];
    AllMembersFront(path);
    assert path == [c] && path[1..] == [] && AllMembers(path) == c.members + [] == c.members;
    LeafRestores(c, fields);
    LeafReads(c, fields, writeDefaults, rest);
    o := Object(c.name, LeafFields(c, fields));
  }

  lemma PathParts(path: seq<Class>, fields: map<string, Value>)
    requires ValidPath(path, fields)
    ensures path != []
  {
  }

  lemma PathTail(path: seq<Class>, fields: map<string, Value>)
    requires ValidPath(path, fields) && |path| > 1
    ensures ValidPath(path[1..], fields) && path[0].Base? && Acceptable(path[0])
    ensures Dispatches(path[0], path[1..][0], fields) && path[1..][|path| - 2] == path[|path| - 1]
  {
    assert Dispatches(path[0], path[1], fields);
    forall i | 0 <= i < |path| - 2 ensures Dispatches(path[1..][i], path[1..][i + 1], fields) {
      assert Dispatches(path[i + 1], path[i + 2], fields);
    }
  }

  // ----- the round trip -----

  lemma {:induction false} IsPath(path: seq<Class>, fields: map<string, Value>)
    requires ValidPath(path, fields)
    ensures PathFrom(path[0], path)
  {
    forall i | 0 <= i < |path| - 1 ensures path[i].Base? && IsChild(path[i], path[i + 1]) {
      assert Dispatches(path[i], path[i + 1], fields);
    }
  }

  /** For every schema the duplicate check accepts: the reader of the base class, run on what the writer of a child
      writes, gives an object of that child that has every written member back, apart from those the base class routes
      elsewhere, and stops at the end of the object. Defaults that were left out are filled in again. */
  lemma RoundTrip(path: seq<Class>, fields: map<string, Value>, writeDefaults: bool, rest: seq<Token>) returns (o: Object)
    requires ValidPath(path, fields) && Has(AllMembers(path), fields) && NoDuplicates(path[0], {}, {})
    requires !Sought(AllMembers(path), fields, writeDefaults, MESSAGE_TERMINATOR_FIELD_ID)
    ensures Serialize(path, fields, writeDefaults).Some?
    ensures var end := [FieldId(MESSAGE_TERMINATOR_FIELD_ID)] + rest;
            Deserialize(path[0], Serialize(path, fields, writeDefaults).value + end) == Some((o, end))
    ensures o.class_ == path[|path| - 1].name && RestoresPath(o.fields, path, fields)
  {
    IsPath(path, fields);
    assert Fresh(AllMembers(path), {}, {});
    SerializeIs(path, fields, writeDefaults);
    o := ReadsPath(path, fields, writeDefaults, [FieldId(MESSAGE_TERMINATOR_FIELD_ID)] + rest);
  }
}
