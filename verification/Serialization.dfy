/** The serialization compiler: from the description of a class it emits the statements of a writer and of a reader.
    Statements are values here, and an interpreter runs them on a stream of field ids and values. */
module Serialization {
  import opened Sequences

  // ----- class descriptions -----

  datatype Value = Number(int) | Text(string) | Nested(parts: seq<Value>)

  datatype Status = EXISTING | READ_ONLY | DELETED

  /** A member: its default, if one is given, and the default of its type. */
  datatype Member = Member(id: nat, name: string, status: Status, hasDefault: bool, explicitDefault: Option<Value>,
                           typeDefault: Value)

  /** A constructor takes members, or something from elsewhere; a constructor method takes all members. */
  datatype ConstructorEntry = OfMember(name: string) | FromElsewhere

  datatype Constructor = Default | Listed(entries: seq<ConstructorEntry>) | Method

  datatype Child = Child(enumEntry: Value, cls: Class)

  /** A base class dispatches on the member `enumValue` to one of its children; any other class is constructed. */
  datatype Class =
    | Base(name: string, members: seq<Member>, enumValue: string, setParameters: seq<string>, children: seq<Child>)
    | Leaf(name: string, members: seq<Member>, constructor_: Constructor)

  function DefaultOf(m: Member): Value {
    if m.explicitDefault.Some? then m.explicitDefault.value else m.typeDefault
  }

  // ----- statements -----

  datatype WriteOp =
    | SerializeBase
    | WriteProperty(id: nat, property: string)
    | WritePropertyWithDefault(id: nat, property: string, default_: Value)
    | Removed

  datatype Target = Local(variable: string) | Field(property: string)

  datatype ReadOp =
    | ReadProperty(id: nat, target: Target)
    | ReadPropertyWithDefault(id: nat, target: Target, default_: Value)
    | ReadDeletedProperty(id: nat)
    | Dispatch(variable: string)
    | Construct(arguments: seq<string>)
    | Assign(property: string)

  datatype GeneratorError = ReadOnlyWithoutDefault | UnknownConstructorMember

  type Generated<+T> = Result<T, GeneratorError>

  function SerializeElement(m: Member): WriteOp {
    if m.status != EXISTING then Removed
    else if m.hasDefault then WritePropertyWithDefault(m.id, m.name, DefaultOf(m))
    else WriteProperty(m.id, m.name)
  }

  function DeserializeElement(m: Member, target: Target): Generated<ReadOp> {
    if m.status == READ_ONLY && !m.hasDefault then Err(ReadOnlyWithoutDefault)
    else if m.status == DELETED then Ok(ReadDeletedProperty(m.id))
    else if m.hasDefault then Ok(ReadPropertyWithDefault(m.id, target, DefaultOf(m)))
    else Ok(ReadProperty(m.id, target))
  }

  predicate Readable(ms: seq<Member>) {
    forall k :: 0 <= k < |ms| ==> !(ms[k].status == READ_ONLY && !ms[k].hasDefault)
  }

  function Writes(ms: seq<Member>): (ops: seq<WriteOp>)
    ensures |ops| == |ms| && forall k :: 0 <= k < |ms| ==> ops[k] == SerializeElement(ms[k])
  {
    seq(|ms|, k requires 0 <= k < |ms| => SerializeElement(ms[k]))
  }

  function Reads(ms: seq<Member>, local: bool): (ops: seq<ReadOp>)
    requires Readable(ms)
    ensures |ops| == |ms|
    ensures forall k :: 0 <= k < |ms| ==>
              ops[k] == DeserializeElement(ms[k], if local then Local(ms[k].name) else Field(ms[k].name)).value
  {
    seq(|ms|, k requires 0 <= k < |ms| =>
      DeserializeElement(ms[k], if local then Local(ms[k].name) else Field(ms[k].name)).value)
  }

  // ----- the code of a class -----

  function Names(ms: seq<Member>): set<string> {
    set k | 0 <= k < |ms| :: ms[k].name
  }

  /** The members a constructor takes, in the order in which it takes them. */
  function ConstructorArguments(c: Class): seq<string>
    requires c.Leaf?
  {
    match c.constructor_
    case Default => []
    case Listed(entries) => MemberEntries(entries)
    case Method => seq(|c.members|, k requires 0 <= k < |c.members| => c.members[k].name)
  }

  function MemberEntries(entries: seq<ConstructorEntry>): seq<string> {
    if entries == [] then []
    else (if entries[0].OfMember? then [entries[0].name] else []) + MemberEntries(entries[1..])
  }

  /** The first member with a name, or the number of members. */
  function FirstNamed(ms: seq<Member>, x: string): (k: nat)
    ensures k <= |ms|
  {
    if ms == [] then 0 else if ms[0].name == x then 0 else 1 + FirstNamed(ms[1..], x)
  }

  lemma {:induction false} FirstNamedIs(ms: seq<Member>, x: string)
    ensures FirstNamed(ms, x) < |ms| ==> ms[FirstNamed(ms, x)].name == x
    ensures forall k :: 0 <= k < FirstNamed(ms, x) ==> ms[k].name != x
  {
    if ms != [] && ms[0].name != x {
      FirstNamedIs(ms[1..], x);
      assert forall k :: 0 < k < |ms| ==> ms[k] == ms[1..][k - 1];
    }
  }

  /** One more than the position of the last member that is taken. */
  function LastTaken(ms: seq<Member>, arguments: seq<string>): (n: nat)
    ensures n <= |ms|
  {
    if arguments == [] then 0 else
    var before, k := LastTaken(ms, arguments[..|arguments| - 1]), FirstNamed(ms, arguments[|arguments| - 1]);
    if before <= k < |ms| then k + 1 else before
  }

  /** How many members are read before the constructor is called: up to the last one that it takes. */
  function ConstructorPrefix(c: Class): (n: nat)
    requires c.Leaf?
    ensures n <= |c.members|
  {
    if c.constructor_.Method? then |c.members| else LastTaken(c.members, ConstructorArguments(c))
  }

  /** A constructor takes the member at this position or a later one. */
  predicate TakenFrom(ms: seq<Member>, arguments: seq<string>, k: nat) {
    exists a :: 0 <= a < |arguments| && k <= FirstNamed(ms, arguments[a]) < |ms|
  }

  lemma {:induction false} LastTakenIs(ms: seq<Member>, arguments: seq<string>, k: nat)
    ensures k < LastTaken(ms, arguments) <==> TakenFrom(ms, arguments, k)
  {
    if arguments != [] {
      var last := |arguments| - 1;
      var before := arguments[..last];
      LastTakenIs(ms, before, k);
      assert forall a :: 0 <= a < last ==> before[a] == arguments[a];
      if TakenFrom(ms, arguments, k) {
        var a :| 0 <= a < |arguments| && k <= FirstNamed(ms, arguments[a]) < |ms|;
        assert a < last ==> TakenFrom(ms, before, k);
      }
      if k < LastTaken(ms, arguments) {
        assert k < LastTaken(ms, before) || k <= FirstNamed(ms, arguments[last]) < |ms|;
      }
    }
  }

  lemma {:induction false} FirstNamedAt(ms: seq<Member>, k: nat)
    requires k < |ms| && forall i, j :: 0 <= i < j < |ms| ==> ms[i].name != ms[j].name
    ensures FirstNamed(ms, ms[k].name) == k
  {
    if k > 0 {
      assert forall i :: 0 <= i < |ms| - 1 ==> ms[1..][i] == ms[i + 1];
      FirstNamedAt(ms[1..], k - 1);
    }
  }

  /** A member is read before the constructor is called exactly if the constructor takes it or one behind it. */
  lemma ConstructorPrefixIs(c: Class, k: nat)
    requires c.Leaf? && forall i, j :: 0 <= i < j < |c.members| ==> c.members[i].name != c.members[j].name
    ensures k < ConstructorPrefix(c) <==> TakenFrom(c.members, ConstructorArguments(c), k)
  {
    if c.constructor_.Method? {
      if k < |c.members| {
        FirstNamedAt(c.members, |c.members| - 1);
        assert ConstructorArguments(c)[|c.members| - 1] == c.members[|c.members| - 1].name;
      }
    } else {
      LastTakenIs(c.members, ConstructorArguments(c), k);
    }
  }

  lemma {:induction false} BehindLastTaken(ms: seq<Member>, arguments: seq<string>, k: nat, a: nat)
    requires LastTaken(ms, arguments) <= k < |ms| && a < |arguments|
    requires forall i, j :: 0 <= i < j < |ms| ==> ms[i].name != ms[j].name
    ensures ms[k].name != arguments[a]
  {
    if a < |arguments| - 1 {
      BehindLastTaken(ms, arguments[..|arguments| - 1], k, a);
    } else {
      FirstNamedIs(ms, arguments[a]);
    }
  }

  /** The members assigned to the result from their variables. */
  function Assigns(ms: seq<Member>, skipped: set<string>): seq<ReadOp> {
    if ms == [] then [] else
    var last := ms[|ms| - 1];
    Assigns(ms[..|ms| - 1], skipped)
      + if last.status == EXISTING && last.name !in skipped then [Assign(last.name)] else []
  }

  function SetOf(xs: seq<string>): set<string> {
    set k | 0 <= k < |xs| :: xs[k]
  }

  /** A constructor takes only members there are, and a member that is no longer written has a default. */
  predicate Acceptable(c: Class) {
    Readable(c.members) && (c.Leaf? ==> SetOf(ConstructorArguments(c)) <= Names(c.members))
  }

  function WriteCode(c: Class, hasBase: bool): seq<WriteOp> {
    (if hasBase then [SerializeBase] else []) + Writes(c.members)
  }

  function ReadCode(c: Class): seq<ReadOp>
    requires Acceptable(c)
  {
    match c
    case Base(_, ms, enumValue, setParameters, _) =>
      Reads(ms, true) + [Dispatch(enumValue)] + Assigns(ms, SetOf(setParameters) + {enumValue})
    case Leaf(_, ms, _) =>
      var arguments := ConstructorArguments(c);
      var n := ConstructorPrefix(c);
      Reads(ms[..n], true) + [Construct(arguments)] + Assigns(ms[..n], SetOf(arguments)) + Reads(ms[n..], false)
  }

  // ----- the stream -----

  const MESSAGE_TERMINATOR_FIELD_ID: nat := 0xFFFF

  datatype Token = FieldId(id: nat) | Payload(value: Value)

  datatype Object = Object(class_: string, fields: map<string, Value>)

  /** The statements of a writer, with what the base class writes; with `writeDefaults`, nothing is left out. */
  function RunWrites(ops: seq<WriteOp>, fields: map<string, Value>, base: seq<Token>, writeDefaults: bool)
      : Option<seq<Token>>
  {
    if ops == [] then Some([]) else
    var rest := RunWrites(ops[1..], fields, base, writeDefaults);
    if rest.None? then None else
    match ops[0]
    case SerializeBase => Some(base + rest.value)
    case Removed => rest
    case WriteProperty(id, property) =>
      if property !in fields then None else Some([FieldId(id), Payload(fields[property])] + rest.value)
    case WritePropertyWithDefault(id, property, d) =>
      if property !in fields then None
      else if fields[property] == d && !writeDefaults then rest
      else Some([FieldId(id), Payload(fields[property])] + rest.value)
  }

  // ----- running a reader -----

  datatype Machine = Machine(tokens: seq<Token>, locals: map<string, Value>, result: Option<Object>)

  function Store(s: Machine, target: Target, v: Value): Option<Machine> {
    match target
    case Local(x) => Some(s.(locals := s.locals[x := v]))
    case Field(p) =>
      if s.result.None? then None else Some(s.(result := Some(s.result.value.(fields := s.result.value.fields[p := v]))))
  }

  /** The value behind a field id, if the id is next in the stream. */
  function Next(tokens: seq<Token>, id: nat): Option<Value> {
    if |tokens| >= 2 && tokens[0] == FieldId(id) && tokens[1].Payload? then Some(tokens[1].value) else None
  }

  function FindChild(children: seq<Child>, e: Value): (c: Option<Class>)
    ensures c.Some? ==> exists k :: 0 <= k < |children| && children[k].cls == c.value && children[k].enumEntry == e
  {
    if children == [] then None
    else if children[0].enumEntry == e then Some(children[0].cls)
    else
      var c := FindChild(children[1..], e);
      assert c.Some? ==> exists k :: 0 <= k < |children[1..]| && children[1..][k].cls == c.value;
      c
  }

  /** One statement of a reader; nothing if it throws. */
  function RunRead(c: Class, op: ReadOp, s: Machine): Option<Machine>
    decreases c, 0, 0
  {
    match op
    case ReadProperty(id, target) =>
      var v := Next(s.tokens, id);
      if v.None? then None else Store(s.(tokens := s.tokens[2..]), target, v.value)
    case ReadPropertyWithDefault(id, target, d) =>
      if s.tokens == [] then None
      else if s.tokens[0] != FieldId(id) then Store(s, target, d)
      else
        var v := Next(s.tokens, id);
        if v.None? then None else Store(s.(tokens := s.tokens[2..]), target, v.value)
    case ReadDeletedProperty(id) =>
      if s.tokens == [] then None
      else if s.tokens[0] != FieldId(id) then Some(s)
      else if Next(s.tokens, id).None? then None
      else Some(s.(tokens := s.tokens[2..]))
    case Construct(arguments) =>
      if exists k :: 0 <= k < |arguments| && arguments[k] !in s.locals then None
      else Some(s.(result := Some(Object(c.name, map x | x in arguments :: s.locals[x]))))
    case Assign(property) =>
      if property !in s.locals || s.result.None? then None
      else Store(s, Field(property), s.locals[property])
    case Dispatch(variable) =>
      if c.Leaf? || variable !in s.locals then None else
      var child := FindChild(c.children, s.locals[variable]);
      if child.None? then None else
      var r := Deserialize(child.value, s.tokens);
      if r.None? then None else Some(s.(tokens := r.value.1, result := Some(r.value.0)))
  }

  function RunReads(c: Class, ops: seq<ReadOp>, s: Machine): Option<Machine>
    decreases c, 1, |ops|
  {
    if ops == [] then Some(s) else
    var next := RunRead(c, ops[0], s);
    if next.None? then None else RunReads(c, ops[1..], next.value)
  }

  /** The object at the head of a stream, and what is left of the stream. */
  function Deserialize(c: Class, tokens: seq<Token>): Option<(Object, seq<Token>)>
    decreases c, 2, 0
  {
    if !Acceptable(c) then None else
    var end := RunReads(c, ReadCode(c), Machine(tokens, map[], None));
    if end.None? || end.value.result.None? then None else Some((end.value.result.value, end.value.tokens))
  }

  /** What a class at the end of an inheritance path writes: its base class first. */
  function Serialize(path: seq<Class>, fields: map<string, Value>, writeDefaults: bool): Option<seq<Token>> {
    if path == [] then Some([]) else
    var base := Serialize(path[..|path| - 1], fields, writeDefaults);
    if base.None? then None
    else RunWrites(WriteCode(path[|path| - 1], |path| > 1), fields, base.value, writeDefaults)
  }
}
