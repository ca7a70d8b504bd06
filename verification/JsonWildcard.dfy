/** The wildcard evaluator: all values a path selects, with a growing worklist for recursive steps. */
module JsonWildcard {
  import opened Sequences
  import opened JsonPathSpec
  import opened JsonPathMeaning
  import opened JsonPath

  // ----- the worklist visits in level order -----

  /** A worklist that takes nodes from the front and puts their children at the end. */
  function Queue(q: seq<Json>): seq<Json>
    decreases SizeAll(q)
  {
    if q == [] then [] else
    QueueShrinks(q);
    [q[0]] + Queue(q[1..] + Children(q[0]))
  }

  lemma QueueShrinks(q: seq<Json>)
    requires q != []
    ensures SizeAll(q) == 1 + SizeAll(q[1..] + Children(q[0]))
  {
    SizeOfChildren(q[0]);
    SizeConcat(q[1..], Children(q[0]));
  }

  lemma QueueTurn(q: seq<Json>)
    requires q != []
    ensures Queue(q) == [q[0]] + Queue(q[1..] + Children(q[0]))
  {
  }

  /** The nodes in front leave the worklist first, and their children have been queued behind the rest. */
  lemma {:induction false} QueueSplit(front: seq<Json>, rest: seq<Json>)
    ensures Queue(front + rest) == front + Queue(rest + ChildrenOfAll(front))
  {
    hide Queue, Children, SizeAll;
    if front == [] {
      assert front + rest == rest && rest + [] == rest;
    } else {
      var q, c := front + rest, Children(front[0]);
      QueueTurn(q);
      assert ChildrenOfAll(front) == c + ChildrenOfAll(front[1..]);
      hide ChildrenOfAll;
      assert q[1..] + c == front[1..] + (rest + c);
      QueueSplit(front[1..], rest + c);
      assert rest + c + ChildrenOfAll(front[1..]) == rest + ChildrenOfAll(front);
      assert [front[0]] + (front[1..] + Queue(rest + ChildrenOfAll(front))) == front + Queue(rest + ChildrenOfAll(front));
    }
  }

  lemma {:induction false} QueueIsLevelOrder(vs: seq<Json>)
    ensures Queue(vs) == LevelOrder(vs)
    decreases SizeAll(vs)
  {
    SizeOfLevel(vs);
    if vs != [] {
      assert vs + [] == vs && [] + ChildrenOfAll(vs) == ChildrenOfAll(vs);
      QueueSplit(vs, []);
      QueueIsLevelOrder(ChildrenOfAll(vs));
    }
  }

  /** The nodes of a forest, each node in front of its own subtree. */
  function PreOrder(vs: seq<Json>): seq<Json>
    decreases SizeAll(vs)
  {
    if vs == [] then [] else
    SizeOfChildren(vs[0]);
    [vs[0]] + PreOrder(Children(vs[0])) + PreOrder(vs[1..])
  }

  lemma {:induction false} PreOrderConcat(a: seq<Json>, b: seq<Json>)
    ensures PreOrder(a + b) == PreOrder(a) + PreOrder(b)
  {
    if a == [] {
      assert a + b == b;
    } else {
      assert (a + b)[1..] == a[1..] + b;
      PreOrderConcat(a[1..], b);
    }
  }

  lemma {:induction false} PreOrderByLevel(vs: seq<Json>)
    ensures multiset(PreOrder(vs)) == multiset(vs) + multiset(PreOrder(ChildrenOfAll(vs)))
    decreases |vs|
  {
    if vs != [] {
      assert vs == [vs[0]] + vs[1..];
      PreOrderByLevel(vs[1..]);
      PreOrderConcat(Children(vs[0]), ChildrenOfAll(vs[1..]));
    }
  }

  /** Level order visits every node of the forest exactly as often as it occurs: once. */
  lemma {:induction false} LevelOrderVisitsOnce(vs: seq<Json>)
    ensures multiset(LevelOrder(vs)) == multiset(PreOrder(vs))
    ensures |LevelOrder(vs)| == SizeAll(vs)
    decreases SizeAll(vs)
  {
    SizeOfLevel(vs);
    if vs != [] {
      LevelOrderVisitsOnce(ChildrenOfAll(vs));
      PreOrderByLevel(vs);
    }
  }

  lemma {:induction false} SelectEachConcat(steps: seq<Step>, a: seq<Json>, b: seq<Json>)
    ensures SelectEach(steps, a + b) == SelectEach(steps, a) + SelectEach(steps, b)
  {
    if a == [] {
      assert a + b == b;
    } else {
      assert (a + b)[1..] == a[1..] + b;
      SelectEachConcat(steps, a[1..], b);
    }
  }

  lemma SelectEachNext(steps: seq<Step>, vs: seq<Json>, from: nat, i: nat)
    requires from <= i < |vs|
    ensures SelectEach(steps, vs[from..i + 1]) == SelectEach(steps, vs[from..i]) + Select(steps, vs[i])
  {
    assert vs[from..i + 1] == vs[from..i] + [vs[i]];
    SelectEachConcat(steps, vs[from..i], [vs[i]]);
    assert SelectEach(steps, [vs[i]]) == Select(steps, vs[i]);
  }

  // ----- the steps of a text, as the evaluator reads them -----

  /** A recursive key is read a second time as a plain key, from its second dot. */
  lemma RecursiveKeyAgain(s: string, p: nat)
    requires p + 1 < |s| && s[p] == '.'
    requires KeyReadAt(s, p + 1).IsValid() && KeyReadAt(s, p + 1).recursive && !KeyReadAt(s, p + 1).IsWildCard()
    ensures p + 2 < |s| && s[p + 1] == '.' && KeyReadAt(s, p + 2).IsValid()
    ensures KeyReadAt(s, p + 2) == KeyReadAt(s, p + 1).(charsRead := KeyReadAt(s, p + 1).charsRead - 1, recursive := false)
  {
  }

  /** Where the evaluator goes on behind the step at `p`, and what the step is. */
  lemma WildTurn(s: string, p: nat)
    requires p < |s| && Parse(s, p).Path?
    ensures p + 1 < |s| && s[p] in ".["
    ensures s[p] == '.' ==>
              var key := KeyReadAt(s, p + 1);
              var next := if key.recursive && !key.IsWildCard() then p + 1 else p + 1 + key.charsRead;
              && key.IsValid() && Parse(s, next).Path?
              && Parse(s, p).steps
                 == [if key.recursive then Descend else if key.IsWildCard() then AnyKey else Key(key.key)]
                    + Parse(s, next).steps
    ensures s[p] == '[' ==>
              var r := IndexReadAt(s, p + 1);
              && r.IndexRead? && r.next <= |s| && Parse(s, r.next).Path?
              && Parse(s, p).steps == [r.step] + Parse(s, r.next).steps
  {
    hide Parse, KeyReadAt, IndexReadAt;
    ParseTurn(s, p);
    if s[p] == '.' {
      var key := KeyReadAt(s, p + 1);
      if key.recursive && !key.IsWildCard() {
        RecursiveKeyAgain(s, p);
        ParseTurn(s, p + 1);
      }
    } else {
      ParseTurn(s, IndexReadAt(s, p + 1).next);
    }
  }

  lemma EmptyPath(s: string, p: nat)
    requires p <= |s| && Parse(s, p).Path?
    ensures Parse(s, p).steps == [] <==> p == |s|
  {
    if p < |s| {
      WildTurn(s, p);
    }
  }

  // ----- the evaluator -----

  class ValueVector {
    var items: seq<Json>

    constructor ()
      ensures items == []
    {
      items := [];
    }
  }

  /** Select, unfolded once. */
  lemma SelectTurn(step: Step, rest: seq<Step>, v: Json)
    ensures Select([step] + rest, v) ==
              match step
              case AnyKey => if v.Obj? then SelectEach(rest, Values(v.members)) else []
              case AnyIndex => if v.Arr? then SelectEach(rest, v.elements) else []
              case Descend => SelectEach(rest, if rest == [] then LevelOrder([v])[1..] else LevelOrder([v]))
              case _ => var next := Lookup(step, v); if next.None? then [] else Select(rest, next.value)
  {
    assert ([step] + rest)[1..] == rest;
  }

  /** Appends what the path from position `p` on selects in `v`. */
  method GetWildcardPathInternal(v: Json, s: string, p: nat, vals: ValueVector)
    requires p <= |s| && Parse(s, p).Path?
    modifies vals
    ensures vals.items == old(vals.items) + Select(Parse(s, p).steps, v)
    decreases |s| - p, 1, 0
  {
    hide Parse, KeyReadAt, IndexReadAt, Select, SelectEach, LevelOrder, Values;
    var val, ptr := Some(v), p;
    while val.Some? && ptr != |s|
      invariant p <= ptr <= |s| && Parse(s, ptr).Path?
      invariant vals.items == old(vals.items)
      invariant Select(Parse(s, p).steps, v) == if val.Some? then Select(Parse(s, ptr).steps, val.value) else []
      decreases |s| - ptr
    {
      WildTurn(s, ptr);
      var c := s[ptr];
      ptr := ptr + 1;
      if c == '.' {
        var key := ReadKey(s, ptr);
        if key.recursive {
          if key.IsWildCard() {
            ptr := ptr + key.charsRead;
          }
          SelectTurn(Descend, Parse(s, ptr).steps, val.value);
          VisitDescendants(val.value, s, ptr, vals);
          return;
        }
        ptr := ptr + key.charsRead;
        SelectTurn(if key.IsWildCard() then AnyKey else Key(key.key), Parse(s, ptr).steps, val.value);
        if !val.value.Obj? {
          return;
        }
        if key.IsWildCard() {
          SelectAll(Values(val.value.members), s, ptr, vals);
          return;
        }
        val := ObjGet(val.value.members, key.key);
      } else {
        SelectTurn(IndexReadAt(s, ptr).step, Parse(s, IndexReadAt(s, ptr).next).steps, val.value);
        if !val.value.Arr? {
          return;
        }
        var _, next, arrayIndex, fromBack := ReadArrayIndex(s, ptr);
        ptr := next;
        if arrayIndex == INVALID_INDEX {
          SelectAll(val.value.elements, s, ptr, vals);
          return;
        }
        var length := |val.value.elements|;
        if fromBack && arrayIndex != 0 {
          arrayIndex := (length - arrayIndex) % TWO_TO_THE_64;
        }
        val := ArrGet(val.value.elements, arrayIndex);
      }
    }
    if val.Some? {
      EmptyPath(s, ptr);
      SelectNothingMore(val.value);
      vals.items := vals.items + [val.value];
    }
  }

  lemma SelectNothingMore(v: Json)
    ensures Select([], v) == [v]
  {
  }

  /** The loop over the elements of an array or the members of an object. */
  method SelectAll(vs: seq<Json>, s: string, p: nat, vals: ValueVector)
    requires p <= |s| && Parse(s, p).Path?
    modifies vals
    ensures vals.items == old(vals.items) + SelectEach(Parse(s, p).steps, vs)
    decreases |s| - p, 2, 0
  {
    hide Parse, Select;
    for i := 0 to |vs|
      invariant vals.items == old(vals.items) + SelectEach(Parse(s, p).steps, vs[0..i])
    {
      SelectEachNext(Parse(s, p).steps, vs, 0, i);
      GetWildcardPathInternal(vs[i], s, p, vals);
    }
    assert vs[0..|vs|] == vs;
  }

  /** The worklist of a recursive step: every node that is taken up queues its children behind the others. */
  method VisitDescendants(v: Json, s: string, p: nat, vals: ValueVector)
    requires p <= |s| && Parse(s, p).Path?
    modifies vals
    ensures var rest := Parse(s, p).steps;
            vals.items == old(vals.items) + SelectEach(rest, if rest == [] then LevelOrder([v])[1..] else LevelOrder([v]))
    decreases |s| - p, 2, 0
  {
    hide Parse, Select, SelectEach, SizeAll, Size, Children, Queue, LevelOrder;
    ghost var rest := Parse(s, p).steps;
    ghost var first := if rest == [] then 1 else 0;
    EmptyPath(s, p);
    NothingSelected(rest);
    QueueIsLevelOrder([v]);
    var recVals, i := [v], 0;
    assert recVals[..0] + Queue(recVals[0..]) == LevelOrder([v]);
    while i < |recVals|
      invariant i <= |recVals| && |recVals| > 0
      invariant recVals[..i] + Queue(recVals[i..]) == LevelOrder([v])
      invariant vals.items == old(vals.items) + SelectEach(rest, if first <= i then recVals[first..i] else [])
      decreases SizeAll(recVals[i..])
    {
      ghost var before := recVals;
      var recVal := recVals[i];
      recVals := recVals + Children(recVal);
      TakeUp(before, recVals, i);
      if i > 0 || p != |s| {
        SelectEachNext(rest, recVals, first, i);
        SlicePrefix(before, recVals, first, i);
        GetWildcardPathInternal(recVal, s, p, vals);
      }
      i := i + 1;
      assert first == i ==> recVals[first..i] == [];
    }
    AllTakenUp(recVals, LevelOrder([v]));
  }

  lemma SlicePrefix<T>(a: seq<T>, b: seq<T>, i: nat, j: nat)
    requires i <= j <= |a| && a <= b
    ensures b[i..j] == a[i..j]
  {
  }

  lemma NothingSelected(steps: seq<Step>)
    ensures SelectEach(steps, []) == []
  {
  }

  /** Taking up node `i` keeps the order of the whole visit, and the work that is left gets smaller. */
  lemma TakeUp(before: seq<Json>, after: seq<Json>, i: nat)
    requires i < |before| && after == before + Children(before[i])
    ensures after[..i + 1] + Queue(after[i + 1..]) == before[..i] + Queue(before[i..])
    ensures SizeAll(after[i + 1..]) < SizeAll(before[i..])
  {
    var q := before[i..];
    hide Queue, SizeAll, Children;
    var rest := q[1..] + Children(q[0]);
    assert after[i + 1..] == rest;
    assert after[..i + 1] == before[..i] + [q[0]];
    QueueShrinks(q);
    QueueTurn(q);
    assert before[..i] + ([q[0]] + Queue(rest)) == before[..i] + [q[0]] + Queue(rest);
  }

  lemma AllTakenUp(done: seq<Json>, all: seq<Json>)
    requires done[..|done|] + Queue(done[|done|..]) == all
    ensures done == all && done[..|done|] == all
    ensures forall k :: 0 <= k <= |done| ==> done[k..|done|] == all[k..]
  {
  }

  method GetWildcardPath(v: Json, s: string, vals: ValueVector)
    requires s != "" && s[0] == '$' && Parse(s, 1).Path?
    modifies vals
    ensures vals.items == old(vals.items) + Select(Parse(s, 1).steps, v)
    ensures Fits(v) ==> forall y :: y in vals.items[|old(vals.items)|..] <==> Leads(Parse(s, 1).steps, v, y)
  {
    hide Parse, Leads, Select, Fits;
    GetWildcardPathInternal(v, s, 1, vals);
    PathIs64(s, 1);
    assert vals.items[|old(vals.items)|..] == Select(Parse(s, 1).steps, v);
    forall y | Fits(v) ensures y in Select(Parse(s, 1).steps, v) <==> Leads(Parse(s, 1).steps, v, y) {
      SelectExactly(Parse(s, 1).steps, v, y);
    }
  }

  // ----- the evaluators agree on regular paths -----

  /** On plain steps the wildcard evaluator yields the value of the single-value evaluator, or nothing. */
  lemma {:induction false} EvaluatorsAgree(steps: seq<Step>, v: Json)
    requires AllPlain(steps)
    ensures Select(steps, v) == var r := LookupAll(steps, v); if r.Some? then [r.value] else []
    decreases |steps|
  {
    if steps != [] {
      assert Plain(steps[0]);
      var next := Lookup(steps[0], v);
      if next.Some? {
        EvaluatorsAgree(steps[1..], next.value);
      }
    }
  }
}
