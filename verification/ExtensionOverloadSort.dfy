/** Sorting the overloads of a function when some of them were parsed and others were loaded: the parameters of the
    former are a list, those of the latter a tuple, and comparing a list with a tuple is an error. */
module ExtensionOverloadSort {
  import opened Sequences
  import opened LexicographicOrder
  import opened ExtensionEntries
  import opened ExtensionOverloads
  import opened ExtensionOverloadTable

  datatype Stored = Stored(overload: Overload, parsed: bool)

  /** Two overloads that agree in everything in front of their parameters, which are of different kinds. */
  predicate Uncomparable(a: Stored, b: Stored) {
    && a.parsed != b.parsed && a.overload.extension == b.overload.extension
    && a.overload.name == b.overload.name && a.overload.type_ == b.overload.type_
  }

  /** Whether `a` is smaller; nothing if comparing them is an error. */
  function Less(a: Stored, b: Stored): Option<bool> {
    if Uncomparable(a, b) then None else Some(!Leq(b.overload, a.overload))
  }

  predicate Mixed(os: seq<Stored>) {
    exists i, j :: 0 <= i < |os| && 0 <= j < |os| && Uncomparable(os[i], os[j])
  }

  predicate SameHeads(a: Overload, b: Overload) {
    a.extension == b.extension && a.name == b.name && a.type_ == b.type_
  }

  /** Parsed overloads, and loaded ones behind them. */
  function Both(parsed: seq<Overload>, loaded: seq<Overload>): (os: seq<Stored>)
    ensures |os| == |parsed| + |loaded|
  {
    seq(|parsed| + |loaded|, k requires 0 <= k < |parsed| + |loaded| =>
      if k < |parsed| then Stored(parsed[k], true) else Stored(loaded[k - |parsed|], false))
  }

  lemma BothAreMixed(parsed: seq<Overload>, loaded: seq<Overload>)
    ensures Mixed(Both(parsed, loaded)) <==> exists a, b :: a in parsed && b in loaded && SameHeads(a, b)
  {
    var os := Both(parsed, loaded);
    if Mixed(os) {
      var i, j :| 0 <= i < |os| && 0 <= j < |os| && Uncomparable(os[i], os[j]);
      var a, b := if i < j then os[i] else os[j], if i < j then os[j] else os[i];
      assert a.overload in parsed && b.overload in loaded && SameHeads(a.overload, b.overload);
    }
    if a, b :| a in parsed && b in loaded && SameHeads(a, b) {
      var i :| 0 <= i < |parsed| && parsed[i] == a;
      var j :| 0 <= j < |loaded| && loaded[j] == b;
      assert Uncomparable(os[i], os[|parsed| + j]);
    }
  }

  // ----- sorting by comparisons -----

  /** Any way to sort a list of some length by comparing its members: which members to compare next, or their order. */
  datatype Sorter = Order(order: seq<nat>) | Ask(i: nat, j: nat, yes: Sorter, no: Sorter)

  function Indices(n: nat): seq<nat> {
    seq(n, k => k)
  }

  predicate Within(t: Sorter, n: nat) {
    match t
    case Order(order) => multiset(order) == multiset(Indices(n))
    case Ask(i, j, yes, no) => i < n && j < n && Within(yes, n) && Within(no, n)
  }

  function Follow(t: Sorter, less: (nat, nat) -> bool): seq<nat> {
    match t
    case Order(order) => order
    case Ask(i, j, yes, no) => if less(i, j) then Follow(yes, less) else Follow(no, less)
  }

  ghost predicate WeakOrder(less: (nat, nat) -> bool, n: nat) {
    && (forall i: nat, j: nat :: i < n && j < n && less(i, j) ==> !less(j, i))
    && (forall i: nat, j: nat, k: nat :: i < n && j < n && k < n && less(i, k) ==> less(i, j) || less(j, k))
  }

  predicate InOrder(order: seq<nat>, less: (nat, nat) -> bool) {
    forall j, k :: 0 <= j < k < |order| ==> !less(order[k], order[j])
  }

  /** It sorts every list of this length. */
  ghost predicate Sorts(t: Sorter, n: nat) {
    Within(t, n) && forall less :: WeakOrder(less, n) ==> InOrder(Follow(t, less), less)
  }

  /** Sorting overloads; nothing if two are compared that cannot be. */
  function SortStored(t: Sorter, os: seq<Stored>): Option<seq<nat>>
    requires Within(t, |os|)
  {
    match t
    case Order(order) => Some(order)
    case Ask(i, j, yes, no) =>
      var less := Less(os[i], os[j]);
      if less.None? then None else if less.value then SortStored(yes, os) else SortStored(no, os)
  }

  lemma {:induction false} SortFollows(t: Sorter, os: seq<Stored>, less: (nat, nat) -> bool)
    requires Within(t, |os|) && SortStored(t, os).Some?
    requires forall i, j :: 0 <= i < |os| && 0 <= j < |os| && Less(os[i], os[j]).Some? ==>
                              Less(os[i], os[j]).value == less(i, j)
    ensures Follow(t, less) == SortStored(t, os).value
  {
    hide Less;
    if t.Ask? {
      SortFollows(if less(t.i, t.j) then t.yes else t.no, os, less);
    }
  }

  // ----- mixed overloads cannot be sorted -----

  /** The tuples compared, with parsed parameters in front of all others, or behind them. */
  function KeyOf(a: Stored, parsedFirst: bool): seq<seq<string>> {
    var o := a.overload;
    [[o.extension], [o.name], [TypeValue(o.type_)], KindKey(a, parsedFirst), o.parameters, [o.returnType]]
  }

  function KindKey(a: Stored, parsedFirst: bool): seq<string> {
    [if a.parsed == parsedFirst then "" else "1"]
  }

  function LessKey(os: seq<Stored>, parsedFirst: bool): (nat, nat) -> bool {
    (i: nat, j: nat) => i < |os| && j < |os| && !TupleLeq(KeyOf(os[j], parsedFirst), KeyOf(os[i], parsedFirst))
  }

  lemma KeysAreOrdered(os: seq<Stored>, parsedFirst: bool)
    ensures WeakOrder(LessKey(os, parsedFirst), |os|)
  {
    TuplesAreOrdered();
    hide KeyOf, TupleLeq;
    var less := LessKey(os, parsedFirst);
    forall i: nat, j: nat, k: nat | i < |os| && j < |os| && k < |os| && less(i, k) ensures less(i, j) || less(j, k) {
      var a, b, c := KeyOf(os[i], parsedFirst), KeyOf(os[j], parsedFirst), KeyOf(os[k], parsedFirst);
      assert TupleLeq(c, b) && TupleLeq(b, a) ==> TupleLeq(c, a);
    }
    forall i: nat, j: nat | i < |os| && j < |os| && less(i, j) ensures !less(j, i) {
      var a, b := KeyOf(os[i], parsedFirst), KeyOf(os[j], parsedFirst);
      assert TupleLeq(a, b) || TupleLeq(b, a);
    }
  }

  lemma LexStep<T>(leq: (T, T) -> bool, x: T, y: T, a: seq<T>, b: seq<T>)
    ensures Lex(leq, [x] + a, [y] + b) == if x == y then Lex(leq, a, b) else leq(x, y)
  {
    assert ([x] + a)[1..] == a && ([y] + b)[1..] == b;
  }

  /** The part of a tuple in front of the parameters, and what is behind it. */
  function Head(o: Overload): seq<seq<string>> {
    [[o.extension], [o.name], [TypeValue(o.type_)]]
  }

  lemma {:induction false} LexConcat<T>(leq: (T, T) -> bool, h: seq<T>, g: seq<T>, a: seq<T>, b: seq<T>)
    requires |h| == |g|
    ensures h == g ==> Lex(leq, h + a, g + b) == Lex(leq, a, b)
    ensures h != g ==> Lex(leq, h + a, g + b) == Lex(leq, h, g)
    decreases |h|
  {
    if h == [] {
      assert h + a == a && g + b == b;
    } else {
      assert h == [h[0]] + h[1..] && g == [g[0]] + g[1..];
      assert h + a == [h[0]] + (h[1..] + a) && g + b == [g[0]] + (g[1..] + b);
      LexConcat(leq, h[1..], g[1..], a, b);
    }
  }

  lemma SameHead(a: Overload, b: Overload)
    ensures Head(a) == Head(b) <==> a.extension == b.extension && a.name == b.name && a.type_ == b.type_
  {
    hide TypeValue;
    if Head(a) == Head(b) {
      assert Head(a)[0][0] == Head(b)[0][0] && Head(a)[1][0] == Head(b)[1][0] && Head(a)[2][0] == Head(b)[2][0];
      TypesDiffer(a.type_, b.type_);
    }
  }

  lemma TupleParts(a: Overload)
    ensures Tuple(a) == Head(a) + [a.parameters, [a.returnType]]
  {
  }

  lemma KeyParts(a: Stored, parsedFirst: bool)
    ensures KeyOf(a, parsedFirst) ==
              Head(a.overload) + ([KindKey(a, parsedFirst)] + [a.overload.parameters, [a.overload.returnType]])
  {
  }

  lemma KindsDecide(a: Stored, b: Stored)
    requires a.parsed != b.parsed
    ensures KindKey(a, a.parsed) != KindKey(b, a.parsed) && !TextsLeq(KindKey(b, a.parsed), KindKey(a, a.parsed))
  {
  }

  /** Keys decide as the tuples do, where those can be compared; where they cannot, the kind decides. */
  lemma KeysDecide(a: Stored, b: Stored, parsedFirst: bool)
    ensures !Uncomparable(a, b) ==> TupleLeq(KeyOf(b, parsedFirst), KeyOf(a, parsedFirst)) == Leq(b.overload, a.overload)
    ensures Uncomparable(a, b) && a.parsed == parsedFirst ==> !TupleLeq(KeyOf(b, parsedFirst), KeyOf(a, parsedFirst))
  {
    var x, y := a.overload, b.overload;
    var s, t := [x.parameters, [x.returnType]], [y.parameters, [y.returnType]];
    var k, l := KindKey(a, parsedFirst), KindKey(b, parsedFirst);
    SameHead(x, y);
    TupleParts(x);
    TupleParts(y);
    KeyParts(a, parsedFirst);
    KeyParts(b, parsedFirst);
    if a.parsed != b.parsed && a.parsed == parsedFirst {
      KindsDecide(a, b);
    }
    assert a.parsed == b.parsed ==> k == l;
    hide Head, Tuple, KeyOf, KindKey, TextsLeq, Lex;
    LexConcat(TextsLeq, Head(y), Head(x), t, s);
    LexConcat(TextsLeq, Head(y), Head(x), [l] + t, [k] + s);
    LexStep(TextsLeq, l, k, t, s);
  }

  /** Following the keys gives what sorting gives, if it gives anything. */
  lemma SortsByKey(t: Sorter, os: seq<Stored>, parsedFirst: bool)
    requires Sorts(t, |os|) && SortStored(t, os).Some?
    ensures InOrder(SortStored(t, os).value, LessKey(os, parsedFirst))
  {
    var less := LessKey(os, parsedFirst);
    KeysAreOrdered(os, parsedFirst);
    forall i, j | 0 <= i < |os| && 0 <= j < |os| && Less(os[i], os[j]).Some?
      ensures Less(os[i], os[j]).value == less(i, j)
    {
      KeysDecide(os[i], os[j], parsedFirst);
    }
    hide Less, LessKey;
    SortFollows(t, os, less);
  }

  lemma {:induction false} SortPermutes(t: Sorter, os: seq<Stored>)
    requires Within(t, |os|) && SortStored(t, os).Some?
    ensures multiset(SortStored(t, os).value) == multiset(Indices(|os|))
  {
    if t.Ask? {
      SortPermutes(if Less(os[t.i], os[t.j]).value then t.yes else t.no, os);
    }
  }

  lemma FindIndex(order: seq<nat>, n: nat, i: nat) returns (k: nat)
    requires multiset(order) == multiset(Indices(n)) && i < n
    ensures k < |order| && order[k] == i
  {
    assert Indices(n)[i] == i;
    assert i in multiset(order);
    k :| 0 <= k < |order| && order[k] == i;
  }

  /** Were they sorted, the one would come first: with the keys that put its kind first, it does. */
  lemma ComesFirst(t: Sorter, os: seq<Stored>, i: nat, j: nat, k: nat, l: nat)
    requires Sorts(t, |os|) && SortStored(t, os).Some? && i < |os| && j < |os| && Uncomparable(os[i], os[j])
    requires var order := SortStored(t, os).value; k < |order| && l < |order| && order[k] == i && order[l] == j
    ensures k < l
  {
    SortsByKey(t, os, os[i].parsed);
    KeysDecide(os[i], os[j], os[i].parsed);
    hide SortStored, Sorts, KeyOf, TupleLeq;
  }

  lemma MixedCannotBeSorted(t: Sorter, os: seq<Stored>)
    requires Sorts(t, |os|) && Mixed(os)
    ensures SortStored(t, os) == None
  {
    var i, j :| 0 <= i < |os| && 0 <= j < |os| && Uncomparable(os[i], os[j]);
    if SortStored(t, os).Some? {
      var order := SortStored(t, os).value;
      SortPermutes(t, os);
      var k := FindIndex(order, |os|, i);
      var l := FindIndex(order, |os|, j);
      ComesFirst(t, os, i, j, k, l);
      ComesFirst(t, os, j, i, l, k);
    }
  }

  // ----- what is sorted otherwise -----

  predicate Below(order: seq<nat>, n: nat) {
    forall k :: 0 <= k < |order| ==> order[k] < n
  }

  function Pick(os: seq<Stored>, order: seq<nat>): seq<Overload>
    requires Below(order, |os|)
  {
    seq(|order|, k requires 0 <= k < |order| => os[order[k]].overload)
  }

  function Overloads(os: seq<Stored>): seq<Overload> {
    seq(|os|, k requires 0 <= k < |os| => os[k].overload)
  }

  lemma {:induction false} SortEnds(t: Sorter, os: seq<Stored>)
    requires Within(t, |os|) && !Mixed(os)
    ensures SortStored(t, os).Some?
  {
    if t.Ask? {
      SortEnds(if Less(os[t.i], os[t.j]).value then t.yes else t.no, os);
    }
  }

  function Without<T>(s: seq<T>, k: nat): seq<T>
    requires k < |s|
  {
    s[..k] + s[k + 1..]
  }

  lemma WithoutOne<T>(s: seq<T>, k: nat)
    requires k < |s|
    ensures multiset(Without(s, k)) == multiset(s) - multiset{s[k]} && |Without(s, k)| < |s|
  {
    assert s == s[..k] + ([s[k]] + s[k + 1..]);
  }

  lemma PickWithoutOne(os: seq<Stored>, s: seq<nat>, k: nat)
    requires k < |s| && Below(s, |os|)
    ensures s[k] < |os| && Below(Without(s, k), |os|)
    ensures multiset(Pick(os, s)) == multiset(Pick(os, Without(s, k))) + multiset{os[s[k]].overload}
  {
    var ps := Pick(os, s);
    assert ps[..k] + ps[k + 1..] == Pick(os, Without(s, k));
    assert ps == ps[..k] + ([ps[k]] + ps[k + 1..]);
  }

  lemma {:induction false} SamePick(os: seq<Stored>, a: seq<nat>, b: seq<nat>)
    requires multiset(a) == multiset(b) && Below(a, |os|) && Below(b, |os|)
    ensures multiset(Pick(os, a)) == multiset(Pick(os, b))
    decreases |a|
  {
    hide *;
    assert |multiset(a)| == |multiset(b)|;
    if a == [] {
      assert a == b;
    } else {
      assert a[0] in multiset(b);
      var k :| 0 <= k < |b| && b[k] == a[0];
      WithoutOne(a, 0);
      WithoutOne(b, k);
      PickWithoutOne(os, a, 0);
      PickWithoutOne(os, b, k);
      SamePick(os, Without(a, 0), Without(b, k));
    }
  }

  lemma {:induction false} HeadIsLeast(os: seq<Overload>, o: Overload)
    requires Sorted(os) && o in os
    ensures Leq(os[0], o)
    decreases |os|
  {
    LeqIsOrder();
    hide Leq, TotalOrder;
    Comparable(os[0], os[0]);
    if o != os[0] {
      assert o in os[1..];
      TailSorted(os);
      HeadIsLeast(os[1..], o);
      assert Leq(os[0], os[1]);
      LeqTransitive(os[0], os[1], o);
    }
  }

  lemma LeqTransitive(a: Overload, b: Overload, c: Overload)
    requires Leq(a, b) && Leq(b, c)
    ensures Leq(a, c)
  {
    LeqIsOrder();
  }

  lemma LeqAntisymmetric(a: Overload, b: Overload)
    requires Leq(a, b) && Leq(b, a)
    ensures a == b
  {
    LeqIsOrder();
  }

  lemma {:induction false} SortedOnce(a: seq<Overload>, b: seq<Overload>)
    requires Sorted(a) && Sorted(b) && multiset(a) == multiset(b)
    ensures a == b
    decreases |a|
  {
    hide Leq;
    assert |multiset(a)| == |multiset(b)|;
    if a != [] {
      assert a[0] in multiset(b) && b[0] in multiset(a);
      HeadIsLeast(a, b[0]);
      HeadIsLeast(b, a[0]);
      LeqAntisymmetric(a[0], b[0]);
      assert a == [a[0]] + a[1..] && b == [b[0]] + b[1..];
      assert multiset(a[1..]) == multiset(a) - multiset{a[0]};
      TailSorted(a);
      TailSorted(b);
      SortedOnce(a[1..], b[1..]);
    }
  }

  lemma PermutationBelow(order: seq<nat>, os: seq<Stored>)
    requires multiset(order) == multiset(Indices(|os|))
    ensures Below(order, |os|) && Below(Indices(|os|), |os|) && Pick(os, Indices(|os|)) == Overloads(os)
  {
    forall k | 0 <= k < |order| ensures order[k] < |os| {
      assert order[k] in multiset(order);
      assert order[k] in Indices(|os|);
    }
  }

  lemma PickInOrder(os: seq<Stored>, order: seq<nat>)
    requires !Mixed(os) && Below(order, |os|) && InOrder(order, LessKey(os, true))
    ensures Sorted(Pick(os, order))
  {
    forall k | 0 < k < |order| ensures Leq(Pick(os, order)[k - 1], Pick(os, order)[k]) {
      assert !LessKey(os, true)(order[k], order[k - 1]);
      KeysDecide(os[order[k]], os[order[k - 1]], true);
      hide Leq, KeyOf, TupleLeq;
    }
  }

  lemma PickIsSorted(t: Sorter, os: seq<Stored>)
    requires Sorts(t, |os|) && Within(t, |os|) && SortStored(t, os).Some? && !Mixed(os)
    ensures var order := SortStored(t, os).value; Below(order, |os|) && Pick(os, order) == Sort(Overloads(os))
  {
    hide *;
    var order := SortStored(t, os).value;
    SortPermutes(t, os);
    SortsByKey(t, os, true);
    PermutationBelow(order, os);
    PickInOrder(os, order);
    SamePick(os, order, Indices(|os|));
    SortSorts(Overloads(os));
    SortedOnce(Pick(os, order), Sort(Overloads(os)));
  }

  /** Whichever members are compared: sorting fails exactly if overloads of both kinds agree in everything in front of
      their parameters. Otherwise it gives the sorted overloads. */
  lemma SortingFailsExactly(t: Sorter, os: seq<Stored>)
    requires Sorts(t, |os|)
    ensures SortStored(t, os) == None <==> Mixed(os)
    ensures SortStored(t, os).Some? ==>
              var order := SortStored(t, os).value;
              Below(order, |os|) && Pick(os, order) == Sort(Overloads(os))
  {
    WithinOf(t, |os|);
    hide *;
    if Mixed(os) {
      MixedCannotBeSorted(t, os);
    } else {
      SortEnds(t, os);
      PickIsSorted(t, os);
    }
  }

  lemma WithinOf(t: Sorter, n: nat)
    requires Sorts(t, n)
    ensures Within(t, n)
  {
  }

  /** Two overloads are sorted by comparing them. */
  lemma TwoAreSorted()
    ensures Sorts(Ask(1, 0, Order([1, 0]), Order([0, 1])), 2)
  {
    assert Indices(2) == [0, 1];
    assert multiset([1, 0]) == multiset([0, 1]);
  }
}
