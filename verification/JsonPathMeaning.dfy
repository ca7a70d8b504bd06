/** What the steps of a path lead to, said of the values alone: which element an index stands for, which member a key,
    and which values a descent comes to. */
module JsonPathMeaning {
  import opened Sequences
  import opened JsonPathSpec

  predicate ChildOf(v: Json, c: Json) {
    match v
    case Scalar(_) => false
    case Arr(es) => c in es
    case Obj(ms) => exists j :: 0 <= j < |ms| && ms[j].value == c
  }

  /** Every value is in the one in front of it. */
  predicate Line(path: seq<Json>) {
    path != [] && forall k :: 0 <= k < |path| - 1 ==> ChildOf(path[k], path[k + 1])
  }

  /** A value is somewhere inside another one. */
  ghost predicate Inside(v: Json, y: Json) {
    exists path :: LineTo(v, path, y) && |path| > 1
  }

  ghost predicate LineTo(v: Json, path: seq<Json>, y: Json) {
    Line(path) && path[0] == v && path[|path| - 1] == y
  }

  /** A step leads from a value to another one. An index counts the elements from the front, or from the back beginning
      with 1; index 0 from the back is the first element. A key is that of the first member that has it. A descent leads
      to whatever is inside, and to the value itself unless the path ends there. */
  ghost predicate StepsTo(step: Step, last: bool, v: Json, y: Json) {
    match step
    case Key(key) =>
      v.Obj? && exists j :: 0 <= j < |v.members| && v.members[j] == Member(key, y)
                            && forall i :: 0 <= i < j ==> v.members[i].key != key
    case AnyKey => v.Obj? && ChildOf(v, y)
    case Index(n, fromBack) =>
      v.Arr? && var j: int := if fromBack && n > 0 then |v.elements| - n else n;
                0 <= j < |v.elements| && y == v.elements[j]
    case AnyIndex => v.Arr? && ChildOf(v, y)
    case Descend => Inside(v, y) || (y == v && !last)
  }

  /** The steps lead from one value to another, one after the other. */
  ghost predicate Leads(steps: seq<Step>, v: Json, y: Json) {
    if steps == [] then y == v
    else exists next :: StepsTo(steps[0], |steps| == 1, v, next) && Leads(steps[1..], next, y)
  }

  /** The length of every array is an unsigned 64-bit number. */
  ghost predicate Fits(v: Json) {
    match v
    case Scalar(_) => true
    case Arr(es) => |es| < TWO_TO_THE_64 && forall k :: 0 <= k < |es| ==> Fits(es[k])
    case Obj(ms) => forall k :: 0 <= k < |ms| ==> Fits(ms[k].value)
  }

  predicate Indices64(steps: seq<Step>) {
    forall k :: 0 <= k < |steps| && steps[k].Index? ==> steps[k].index < TWO_TO_THE_64
  }

  /** The steps lead to this value and no other, or to none. */
  ghost predicate LeadsOnlyTo(steps: seq<Step>, v: Json, r: Option<Json>) {
    Fits(v) ==> forall y :: r == Some(y) <==> Leads(steps, v, y)
  }

  // ----- plain steps -----

  /** The element that an index selects, for any array and any index of 64 bits. */
  lemma IndexSelects(es: seq<Json>, n: nat, fromBack: bool)
    requires |es| < TWO_TO_THE_64 && n < TWO_TO_THE_64
    ensures var r := Lookup(Index(n, fromBack), Arr(es));
            && (!fromBack ==> r == if n < |es| then Some(es[n]) else None)
            && (fromBack && 0 < n <= |es| ==> r == Some(es[|es| - n]))
            && (fromBack && n > |es| ==> r == None)
            && (fromBack && n == 0 ==> r == if es == [] then None else Some(es[0]))
  {
    if fromBack && n > |es| {
      assert (|es| - n) % TWO_TO_THE_64 == |es| - n + TWO_TO_THE_64;
    }
  }

  /** The first member that has the key. */
  lemma {:induction false} KeySelects(ms: seq<Member>, key: string, y: Json)
    ensures ObjGet(ms, key) == Some(y) <==> StepsTo(Key(key), false, Obj(ms), y)
  {
    if ms != [] {
      KeySelects(ms[1..], key, y);
      if ms[0].key != key && StepsTo(Key(key), false, Obj(ms[1..]), y) {
        var j :| 0 <= j < |ms[1..]| && ms[1..][j] == Member(key, y) && forall i :: 0 <= i < j ==> ms[1..][i].key != key;
        assert ms[j + 1] == Member(key, y);
        forall i | 0 <= i < j + 1 ensures ms[i].key != key {
          assert i > 0 ==> ms[i] == ms[1..][i - 1];
        }
      }
      if StepsTo(Key(key), false, Obj(ms), y) && ms[0].key != key {
        var j :| 0 <= j < |ms| && ms[j] == Member(key, y) && forall i :: 0 <= i < j ==> ms[i].key != key;
        assert ms[1..][j - 1] == Member(key, y);
      }
    }
  }

  lemma LookupExactly(step: Step, last: bool, v: Json, y: Json)
    requires Plain(step) && Indices64([step]) && Fits(v)
    ensures Lookup(step, v) == Some(y) <==> StepsTo(step, last, v, y)
  {
    assert step.Index? ==> [step][0].index < TWO_TO_THE_64;
    match step
    case Key(key) =>
      if v.Obj? {
        KeySelects(v.members, key, y);
      }
    case Index(n, fromBack) =>
      if v.Arr? {
        IndexSelects(v.elements, n, fromBack);
      }
  }

  // ----- descents -----

  lemma ChildrenAre(v: Json, c: Json)
    ensures c in Children(v) <==> ChildOf(v, c)
  {
    if v.Obj? {
      ValuesAre(v.members, c);
    }
  }

  lemma {:induction false} ValuesAre(ms: seq<Member>, c: Json)
    ensures |Values(ms)| == |ms| && forall k :: 0 <= k < |ms| ==> Values(ms)[k] == ms[k].value
    ensures c in Values(ms) <==> exists j :: 0 <= j < |ms| && ms[j].value == c
  {
    if ms != [] {
      ValuesAre(ms[1..], c);
    }
    assert forall k :: 0 <= k < |ms| ==> Values(ms)[k] == ms[k].value;
  }

  lemma {:induction false} ChildrenOfAllAre(vs: seq<Json>, c: Json)
    ensures c in ChildrenOfAll(vs) <==> exists v :: v in vs && ChildOf(v, c)
  {
    if vs != [] {
      ChildrenOfAllAre(vs[1..], c);
      ChildrenAre(vs[0], c);
      hide ChildOf;
      assert forall v :: v in vs <==> v == vs[0] || v in vs[1..];
    }
  }

  /** Level order comes to what is in the forest, at any depth. */
  ghost predicate InForest(vs: seq<Json>, y: Json) {
    exists v, path :: v in vs && LineTo(v, path, y)
  }

  lemma {:induction false} LevelOrderReaches(vs: seq<Json>, y: Json)
    ensures y in LevelOrder(vs) <==> InForest(vs, y)
    decreases SizeAll(vs)
  {
    SizeOfLevel(vs);
    if vs != [] {
      LevelOrderReaches(ChildrenOfAll(vs), y);
      NextLevel(vs, y);
    }
  }

  /** What is in a forest is one of its roots, or in the forest of their children. */
  lemma NextLevel(vs: seq<Json>, y: Json)
    ensures InForest(vs, y) <==> y in vs || InForest(ChildrenOfAll(vs), y)
  {
    if y in vs {
      assert LineTo(y, [y], y);
    }
    if InForest(ChildrenOfAll(vs), y) {
      var c, path :| c in ChildrenOfAll(vs) && LineTo(c, path, y);
      ChildrenOfAllAre(vs, c);
      var v :| v in vs && ChildOf(v, c);
      assert LineTo(v, [v] + path, y);
    }
    if InForest(vs, y) && y !in vs {
      var v, path :| v in vs && LineTo(v, path, y);
      ChildrenOfAllAre(vs, path[1]);
      assert LineTo(path[1], path[1..], y);
    }
  }

  lemma OneRoot(v: Json, y: Json)
    ensures InForest(ChildrenOfAll([v]), y) <==> Inside(v, y)
  {
    hide ChildOf;
    if InForest(ChildrenOfAll([v]), y) {
      var c, path :| c in ChildrenOfAll([v]) && LineTo(c, path, y);
      ChildrenOfAllAre([v], c);
      assert LineTo(v, [v] + path, y);
    }
    if Inside(v, y) {
      var path :| LineTo(v, path, y) && |path| > 1;
      assert v in [v] && ChildOf(v, path[1]);
      ChildrenOfAllAre([v], path[1]);
      assert LineTo(path[1], path[1..], y);
    }
  }

  /** What a descent comes to. */
  lemma DescentReaches(v: Json, last: bool, y: Json)
    ensures y in (if last then LevelOrder([v])[1..] else LevelOrder([v])) <==> StepsTo(Descend, last, v, y)
  {
    var below := ChildrenOfAll([v]);
    assert LevelOrder([v]) == [v] + LevelOrder(below);
    assert LevelOrder([v])[1..] == LevelOrder(below);
    hide LevelOrder, Inside, InForest, ChildrenOfAll;
    LevelOrderReaches(below, y);
    OneRoot(v, y);
  }

  // ----- paths -----

  lemma ChildFits(v: Json, c: Json)
    requires Fits(v) && ChildOf(v, c)
    ensures Fits(c)
  {
  }

  lemma {:induction false} LineFits(path: seq<Json>)
    requires Line(path) && Fits(path[0])
    ensures Fits(path[|path| - 1])
  {
    if |path| > 1 {
      ChildFits(path[0], path[1]);
      LineFits(path[1..]);
    }
  }

  lemma StepFits(step: Step, last: bool, v: Json, y: Json)
    requires Fits(v) && StepsTo(step, last, v, y)
    ensures Fits(y)
  {
    if step.Descend? && y != v {
      var path :| LineTo(v, path, y) && |path| > 1;
      LineFits(path);
    } else if y != v {
      hide Fits;
      assert ChildOf(v, y);
      ChildFits(v, y);
    }
  }

  /** The values that a step leads to, in the order in which they are yielded. */
  function NextValues(step: Step, last: bool, v: Json): seq<Json> {
    match step
    case AnyKey => if v.Obj? then Children(v) else []
    case AnyIndex => if v.Arr? then Children(v) else []
    case Descend => if last then LevelOrder([v])[1..] else LevelOrder([v])
    case _ => var r := Lookup(step, v); if r.Some? then [r.value] else []
  }

  lemma NextValuesExactly(step: Step, last: bool, v: Json, y: Json)
    requires Indices64([step]) && Fits(v)
    ensures y in NextValues(step, last, v) <==> StepsTo(step, last, v, y)
  {
    hide Fits;
    ChildrenAre(v, y);
    if step.Descend? {
      DescentReaches(v, last, y);
    }
    hide LevelOrder, Inside, ChildOf;
    if Plain(step) {
      LookupExactly(step, last, v, y);
      hide StepsTo, Lookup;
    }
  }

  lemma {:induction false} EachReaches(steps: seq<Step>, vs: seq<Json>, y: Json)
    ensures y in SelectEach(steps, vs) <==> exists k :: 0 <= k < |vs| && y in Select(steps, vs[k])
  {
    hide Select;
    if vs != [] {
      var front := Select(steps, vs[0]);
      assert SelectEach(steps, vs) == front + SelectEach(steps, vs[1..]);
      hide SelectEach;
      EachReaches(steps, vs[1..], y);
      if k :| 0 <= k < |vs[1..]| && y in Select(steps, vs[1..][k]) {
        assert vs[k + 1] == vs[1..][k];
      }
      if k :| 0 <= k < |vs| && y in Select(steps, vs[k]) {
        assert k > 0 ==> vs[k] == vs[1..][k - 1];
      }
    }
  }

  lemma SelectByStep(steps: seq<Step>, v: Json)
    requires steps != []
    ensures Select(steps, v) == SelectEach(steps[1..], NextValues(steps[0], |steps| == 1, v))
  {
    hide LevelOrder, Lookup;
    var r := Lookup(steps[0], v);
    if Plain(steps[0]) && r.Some? {
      assert SelectEach(steps[1..], [r.value]) == Select(steps[1..], r.value) + SelectEach(steps[1..], [r.value][1..]);
    }
  }

  lemma {:induction false} EachInOrder(steps: seq<Step>, vs: seq<Json>)
    ensures SelectEach(steps, vs) == Flatten(seq(|vs|, k requires 0 <= k < |vs| => Select(steps, vs[k])))
  {
    hide Select;
    var each := seq(|vs|, k requires 0 <= k < |vs| => Select(steps, vs[k]));
    if vs != [] {
      EachInOrder(steps, vs[1..]);
      assert each[1..] == seq(|vs[1..]|, k requires 0 <= k < |vs[1..]| => Select(steps, vs[1..][k]));
    }
  }

  /** What a path selects is what its rest selects in each of the values the first step leads to, in their order. */
  lemma SelectInOrder(step: Step, rest: seq<Step>, v: Json)
    ensures var vs := NextValues(step, rest == [], v);
            Select([step] + rest, v) == Flatten(seq(|vs|, k requires 0 <= k < |vs| => Select(rest, vs[k])))
  {
    hide Select, SelectEach, NextValues, Flatten;
    SelectByStep([step] + rest, v);
    assert ([step] + rest)[1..] == rest;
    EachInOrder(rest, NextValues(step, rest == [], v));
  }

  /** The values of an array or an object are taken in the order in which they stand there. */
  lemma NextInOrder(v: Json, last: bool)
    ensures v.Arr? ==> NextValues(AnyIndex, last, v) == v.elements
    ensures v.Obj? ==>
              var vs := NextValues(AnyKey, last, v);
              |vs| == |v.members| && forall k :: 0 <= k < |vs| ==> vs[k] == v.members[k].value
  {
    if v.Obj? {
      ValuesAre(v.members, v);
    }
  }

  /** The wildcard evaluator yields exactly the values that the steps lead to. */
  lemma {:induction false} SelectExactly(steps: seq<Step>, v: Json, y: Json)
    requires Indices64(steps) && Fits(v)
    ensures y in Select(steps, v) <==> Leads(steps, v, y)
    decreases |steps|
  {
    if steps != [] {
      SelectByStep(steps, v);
      hide StepsTo, Select, SelectEach, Fits, NextValues;
      var last := |steps| == 1;
      var vs := NextValues(steps[0], last, v);
      EachReaches(steps[1..], vs, y);
      assert Indices64([steps[0]]) && Indices64(steps[1..]);
      hide Indices64;
      forall next ensures next in vs <==> StepsTo(steps[0], last, v, next) {
        NextValuesExactly(steps[0], last, v, next);
      }
      forall next | next in vs ensures y in Select(steps[1..], next) <==> Leads(steps[1..], next, y) {
        StepFits(steps[0], last, v, next);
        SelectExactly(steps[1..], next, y);
      }
    }
  }

  /** On plain steps the single-value evaluator yields the value that the steps lead to, if there is one. */
  lemma {:induction false} LookupAllExactly(steps: seq<Step>, v: Json, y: Json)
    requires AllPlain(steps) && Indices64(steps) && Fits(v)
    ensures LookupAll(steps, v) == Some(y) <==> Leads(steps, v, y)
    decreases |steps|
  {
    if steps != [] {
      hide StepsTo, Fits, Lookup;
      var r := Lookup(steps[0], v);
      var last := |steps| == 1;
      assert Plain(steps[0]) && Indices64([steps[0]]);
      forall next ensures r == Some(next) <==> StepsTo(steps[0], last, v, next) {
        LookupExactly(steps[0], last, v, next);
      }
      if r.Some? {
        StepFits(steps[0], last, v, r.value);
        LookupAllExactly(steps[1..], r.value, y);
      }
    }
  }

  // ----- the end of a key -----

  /** An unquoted key ends at the first dot or bracket, or at the end of the path. */
  lemma {:induction false} BareEndExactly(s: string, p: nat, e: nat)
    requires p <= |s|
    ensures BareEnd(s, p) == e <==>
              p <= e <= |s| && (e < |s| ==> s[e] in ".[") && forall q :: p <= q < e ==> s[q] !in ".["
    decreases |s| - p
  {
    if p < |s| {
      assert s[p] in ".[" <==> s[p] == '.' || s[p] == '[';
      BareEndExactly(s, p + 1, e);
    }
  }
}
