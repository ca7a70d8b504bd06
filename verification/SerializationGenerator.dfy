/** The loops that emit the code of a class, statement by statement. */
module SerializationGenerator {
  import opened Sequences
  import opened Serialization

  // ----- one more member -----

  lemma WritesSnoc(ms: seq<Member>, m: Member)
    ensures Writes(ms + [m]) == Writes(ms) + [SerializeElement(m)]
  {
  }

  lemma ReadsSnoc(ms: seq<Member>, m: Member, local: bool)
    requires Readable(ms)
    ensures Readable(ms + [m]) <==> DeserializeElement(m, if local then Local(m.name) else Field(m.name)).Ok?
    ensures Readable(ms + [m]) ==>
              Reads(ms + [m], local)
                == Reads(ms, local) + [DeserializeElement(m, if local then Local(m.name) else Field(m.name)).value]
  {
    assert (ms + [m])[|ms|] == m;
    assert forall k :: 0 <= k < |ms| ==> (ms + [m])[k] == ms[k];
  }

  lemma AssignsSnoc(ms: seq<Member>, m: Member, skipped: set<string>)
    ensures Assigns(ms + [m], skipped) ==
              Assigns(ms, skipped) + if m.status == EXISTING && m.name !in skipped then [Assign(m.name)] else []
  {
    assert (ms + [m])[..|ms|] == ms;
  }

  lemma ReadablePrefix(a: seq<Member>, b: seq<Member>)
    ensures Readable(a + b) <==> Readable(a) && Readable(b)
  {
    assert forall k :: 0 <= k < |a| ==> (a + b)[k] == a[k];
    assert forall k :: 0 <= k < |b| ==> (a + b)[|a| + k] == b[k];
  }

  /** The code of a base class; refused if some member that is only read has no default. */
  method GenerateBaseClassCode(c: Class, hasBase: bool) returns (writes: seq<WriteOp>, reads_: Generated<seq<ReadOp>>)
    requires c.Base?
    ensures reads_.Ok? <==> Acceptable(c)
    ensures reads_.Ok? ==> writes == WriteCode(c, hasBase) && reads_.value == ReadCode(c)
  {
    writes := [];
    var ops: seq<ReadOp> := [];
    var k := 0;
    hide Writes, Reads, Assigns, Readable, SerializeElement, DeserializeElement;
    assert Writes([]) == [] && Readable([]) && Reads([], true) == [] && Assigns([], {}) == [] by {
      NoMembers();
    }
    while k < |c.members|
      invariant 0 <= k <= |c.members| && Readable(c.members[..k])
      invariant writes == Writes(c.members[..k]) && ops == Reads(c.members[..k], true)
    {
      var entry := c.members[k];
      assert c.members[..k + 1] == c.members[..k] + [entry] && c.members[..k + 1] + c.members[k + 1..] == c.members;
      WritesSnoc(c.members[..k], entry);
      ReadsSnoc(c.members[..k], entry, true);
      ReadablePrefix(c.members[..k + 1], c.members[k + 1..]);
      writes := writes + [SerializeElement(entry)];
      var read := DeserializeElement(entry, Local(entry.name));
      if read.Err? {
        return [], Err(read.error);
      }
      ops := ops + [read.value];
      k := k + 1;
    }
    assert c.members[..k] == c.members;
    var assigns := AssignEntries(c);
    if hasBase {
      writes := [SerializeBase] + writes;
    }
    reads_ := Ok(ops + [Dispatch(c.enumValue)] + assigns);
  }

  lemma NoMembers()
    ensures Writes([]) == [] && Readable([]) && Reads([], true) == [] && Reads([], false) == []
    ensures forall skipped :: Assigns([], skipped) == []
  {
  }

  /** The members of a base class that are assigned to the result, whatever its class. */
  method AssignEntries(c: Class) returns (assigns: seq<ReadOp>)
    requires c.Base?
    ensures assigns == Assigns(c.members, SetOf(c.setParameters) + {c.enumValue})
  {
    assigns := [];
    ghost var skipped := SetOf(c.setParameters) + {c.enumValue};
    var k := 0;
    while k < |c.members|
      invariant 0 <= k <= |c.members|
      invariant assigns == Assigns(c.members[..k], skipped)
    {
      var entry := c.members[k];
      var skip := entry.name in c.setParameters || entry.name == c.enumValue;
      assert c.members[..k + 1] == c.members[..k] + [entry];
      AssignsSnoc(c.members[..k], entry, skipped);
      if !skip && entry.status == EXISTING {
        assigns := assigns + [Assign(entry.name)];
      }
      k := k + 1;
    }
    assert c.members[..k] == c.members;
  }

  /** The position of the first member with a name. */
  method FindMember(ms: seq<Member>, x: string) returns (k: nat)
    ensures k == FirstNamed(ms, x)
  {
    k := 0;
    while k < |ms| && ms[k].name != x
      invariant 0 <= k <= |ms| && FirstNamed(ms, x) == k + FirstNamed(ms[k..], x)
    {
      assert ms[k..][1..] == ms[k + 1..];
      k := k + 1;
    }
  }

  /** The parameters of the constructor, and how many members have to be read for them. */
  method ConstructorParameters(c: Class) returns (arguments: seq<string>, n: nat, found: bool)
    requires c.Leaf?
    ensures found <==> SetOf(ConstructorArguments(c)) <= Names(c.members)
    ensures found ==> arguments == ConstructorArguments(c) && n == ConstructorPrefix(c)
  {
    arguments, n, found := [], 0, true;
    if c.constructor_.Method? {
      arguments, n := seq(|c.members|, k requires 0 <= k < |c.members| => c.members[k].name), |c.members|;
      forall x | x in SetOf(arguments) ensures x in Names(c.members) {
        var k :| 0 <= k < |arguments| && arguments[k] == x;
        assert c.members[k].name == x;
      }
    } else if c.constructor_.Listed? {
      arguments, n, found := ListedParameters(c.members, c.constructor_.entries);
    }
  }

  method ListedParameters(ms: seq<Member>, entries: seq<ConstructorEntry>)
    returns (arguments: seq<string>, n: nat, found: bool)
    ensures found <==> SetOf(MemberEntries(entries)) <= Names(ms)
    ensures found ==> arguments == MemberEntries(entries) && n == LastTaken(ms, arguments)
  {
    arguments, n, found := [], 0, true;
    var k := 0;
    while k < |entries|
      invariant 0 <= k <= |entries| && arguments == MemberEntries(entries[..k])
      invariant SetOf(arguments) <= Names(ms) && n == LastTaken(ms, arguments)
    {
      assert entries[..k] + [entries[k]] == entries[..k + 1] && entries[..k + 1] + entries[k + 1..] == entries;
      EntriesSplit(entries[..k], entries[k], entries[k + 1..]);
      if entries[k].OfMember? {
        var x := entries[k].name;
        var i := FindMember(ms, x);
        FirstNamedIs(ms, x);
        SetOfSnoc(arguments, x);
        if i == |ms| {
          SetOfConcat(arguments + [x], MemberEntries(entries[k + 1..]));
          assert x !in Names(ms) && x in SetOf(MemberEntries(entries));
          return arguments, n, false;
        }
        if i >= n {
          n := i + 1;
        }
        assert (arguments + [x])[..|arguments|] == arguments;
        arguments := arguments + [x];
      }
      k := k + 1;
    }
    assert entries[..k] == entries;
  }

  lemma {:induction false} EntriesConcat(a: seq<ConstructorEntry>, b: seq<ConstructorEntry>)
    ensures MemberEntries(a + b) == MemberEntries(a) + MemberEntries(b)
  {
    if a == [] {
      assert a + b == b;
    } else {
      assert (a + b)[1..] == a[1..] + b;
      EntriesConcat(a[1..], b);
    }
  }

  lemma EntriesSplit(before: seq<ConstructorEntry>, e: ConstructorEntry, behind: seq<ConstructorEntry>)
    ensures MemberEntries(before + [e]) == MemberEntries(before) + if e.OfMember? then [e.name] else []
    ensures MemberEntries(before + [e] + behind) == MemberEntries(before + [e]) + MemberEntries(behind)
  {
    OneEntry(e);
    EntriesConcat(before, [e]);
    EntriesConcat(before + [e], behind);
  }

  lemma OneEntry(e: ConstructorEntry)
    ensures MemberEntries([e]) == if e.OfMember? then [e.name] else []
  {
    assert [e][1..] == [];
  }

  lemma SetOfSnoc(xs: seq<string>, x: string)
    ensures SetOf(xs + [x]) == SetOf(xs) + {x}
  {
    assert (xs + [x])[|xs|] == x;
    assert forall k :: 0 <= k < |xs| ==> (xs + [x])[k] == xs[k];
  }

  lemma SetOfConcat(xs: seq<string>, ys: seq<string>)
    ensures SetOf(xs) <= SetOf(xs + ys)
  {
    assert forall k :: 0 <= k < |xs| ==> (xs + ys)[k] == xs[k];
  }

  /** The code of a class that is constructed; refused if its constructor takes a member there is not, or if some
      member that is only read has no default. */
  method GenerateClassCode(c: Class, hasBase: bool) returns (writes: seq<WriteOp>, reads_: Generated<seq<ReadOp>>)
    requires c.Leaf?
    ensures reads_.Ok? <==> Acceptable(c)
    ensures reads_.Ok? ==> writes == WriteCode(c, hasBase) && reads_.value == ReadCode(c)
  {
    var arguments, n, found := ConstructorParameters(c);
    writes := [];
    if !found {
      return [], Err(UnknownConstructorMember);
    }
    var before := ReadPrefix(c.members, n);
    if before.Err? {
      return [], Err(before.error);
    }
    var assigns, later;
    writes, assigns, later := ReadBehind(c.members, n, arguments);
    if later.Err? {
      return [], Err(later.error);
    }
    assert Readable(c.members) by {
      assert c.members[..n] + c.members[n..] == c.members;
    }
    if hasBase {
      writes := [SerializeBase] + writes;
    }
    reads_ := Ok(before.value + [Construct(arguments)] + assigns + later.value);
  }

  /** The statements of one member at position `k`: how it is written, and how it is assigned or read behind the call
      of the constructor. */
  method OneMember(ms: seq<Member>, k: nat, n: nat, arguments: seq<string>)
    returns (write: WriteOp, assign: seq<ReadOp>, read: Generated<seq<ReadOp>>)
    requires k < |ms| && n <= |ms| && (k >= n ==> Readable(ms[n..k]))
    ensures Writes(ms[..k + 1]) == Writes(ms[..k]) + [write]
    ensures k < n ==> read == Ok([])
                      && Assigns(ms[..k + 1], SetOf(arguments)) == Assigns(ms[..k], SetOf(arguments)) + assign
    ensures k >= n ==> assign == [] && (read.Ok? <==> Readable(ms[n..k + 1]))
    ensures k >= n && read.Ok? ==> Reads(ms[n..k + 1], false) == Reads(ms[n..k], false) + read.value
  {
    var entry := ms[k];
    write, assign, read := SerializeElement(entry), [], Ok([]);
    assert ms[..k + 1] == ms[..k] + [entry];
    WritesSnoc(ms[..k], entry);
    hide Writes, Reads, Assigns, Readable, SerializeElement, DeserializeElement;
    if k >= n {
      assert ms[n..k + 1] == ms[n..k] + [entry];
      ReadsSnoc(ms[n..k], entry, false);
      var one := DeserializeElement(entry, Field(entry.name));
      read := if one.Err? then Err(one.error) else Ok([one.value]);
    } else {
      AssignsSnoc(ms[..k], entry, SetOf(arguments));
      if entry.name !in arguments && entry.status == EXISTING {
        assign := [Assign(entry.name)];
      }
    }
  }

  /** What is written, and what is done with the members behind the constructor call. */
  method ReadBehind(ms: seq<Member>, n: nat, arguments: seq<string>)
    returns (writes: seq<WriteOp>, assigns: seq<ReadOp>, later: Generated<seq<ReadOp>>)
    requires n <= |ms|
    ensures later.Ok? <==> Readable(ms[n..])
    ensures later.Ok? ==> writes == Writes(ms) && assigns == Assigns(ms[..n], SetOf(arguments))
    ensures later.Ok? ==> later.value == Reads(ms[n..], false)
  {
    writes, assigns := [], [];
    var ops: seq<ReadOp> := [];
    var k := 0;
    NoMembers();
    hide Writes, Reads, Assigns, Readable, SetOf;
    while k < |ms|
      invariant 0 <= k <= |ms| && writes == Writes(ms[..k])
      invariant assigns == Assigns(ms[..if k < n then k else n], SetOf(arguments))
      invariant if k < n then ops == [] else Readable(ms[n..k]) && ops == Reads(ms[n..k], false)
    {
      var write, assign, read := OneMember(ms, k, n, arguments);
      if read.Err? {
        assert ms[n..k + 1] + ms[k + 1..] == ms[n..];
        ReadablePrefix(ms[n..k + 1], ms[k + 1..]);
        return writes, assigns, Err(read.error);
      }
      writes, assigns, ops := writes + [write], assigns + assign, ops + read.value;
      k := k + 1;
      assert k == n ==> ms[n..k] == [];
    }
    assert ms[..k] == ms && ms[n..k] == ms[n..];
    later := Ok(ops);
  }

  /** The members that are read into variables first. */
  method ReadPrefix(ms: seq<Member>, n: nat) returns (r: Generated<seq<ReadOp>>)
    requires n <= |ms|
    ensures r.Ok? <==> Readable(ms[..n])
    ensures r.Ok? ==> r.value == Reads(ms[..n], true)
  {
    var ops: seq<ReadOp> := [];
    var k := 0;
    while k < n
      invariant 0 <= k <= n && Readable(ms[..k]) && ops == Reads(ms[..k], true)
    {
      var read := DeserializeElement(ms[k], Local(ms[k].name));
      if read.Err? {
        assert ms[..n][k] == ms[k];
        return Err(read.error);
      }
      ops := ops + [read.value];
      assert ms[..k + 1] == ms[..k] + [ms[k]];
      k := k + 1;
    }
    r := Ok(ops);
  }
}
