/** The order in which extensions are loaded, and what every one of them adds. */
module ExtensionRuns {
  import opened Sequences
  import opened ExtensionEntries
  import opened ExtensionOverloads
  import opened ExtensionViews

  /** What loading an extension shows. */
  type Shown = map<Function, seq<FunctionOverload>>

  function DependenciesOf(extension: string): seq<string> {
    if extension == "iceberg" then ["avro", "parquet"] else []
  }

  lemma DependenciesAreFlat(extension: string)
    ensures forall k :: 0 <= k < |DependenciesOf(extension)| ==> DependenciesOf(DependenciesOf(extension)[k]) == []
    ensures forall k :: 0 <= k < |DependenciesOf(extension)| ==> DependenciesOf(extension)[k] != extension
    ensures forall j, k :: 0 <= j < k < |DependenciesOf(extension)| ==>
              DependenciesOf(extension)[j] != DependenciesOf(extension)[k]
  {
    assert "avro"[0] != "iceberg"[0] && "parquet"[0] != "iceberg"[0] && "avro"[0] != "parquet"[0];
  }

  // ----- the order of loading -----

  function SetOf(xs: seq<string>): set<string> {
    set x | x in xs
  }

  /** Those that have not been loaded. */
  function Missing(xs: seq<string>, loaded: set<string>): seq<string> {
    if xs == [] then [] else
    var last := xs[|xs| - 1];
    Missing(xs[..|xs| - 1], loaded) + if last in loaded then [] else [last]
  }

  /** An extension is loaded behind those of its dependencies that have not been loaded. */
  function LoadBlock(extension: string, loaded: set<string>): seq<string> {
    Missing(DependenciesOf(extension), loaded) + [extension]
  }

  /** The names are taken one after the other, whether they have been loaded or not. */
  function LoadOrder(names: seq<string>): seq<string> {
    if names == [] then [] else
    var before := LoadOrder(names[..|names| - 1]);
    before + LoadBlock(names[|names| - 1], SetOf(before))
  }

  // ----- what is added -----

  /** The functions that are there without an extension: those of the database, and of its dependencies. */
  function BaseOf(functions: set<Function>, known: map<string, set<Function>>,
                  dependencies: seq<string>): Option<set<Function>>
    decreases |dependencies|
  {
    if dependencies == [] then Some(functions)
    else if dependencies[0] !in known then None
    else BaseOf(functions + known[dependencies[0]], known, dependencies[1..])
  }

  /** What every extension has added, after these have been loaded in this order; nothing if one of them is not there,
      or a dependency has not been loaded. */
  function KnownAfter(order: seq<string>, loads: map<string, Shown>,
                      baseFunctions: set<Function>): Option<map<string, set<Function>>>
  {
    if order == [] then Some(map[]) else
    var known, last := KnownAfter(order[..|order| - 1], loads, baseFunctions), order[|order| - 1];
    if known.None? || last !in loads then None else
    var base := BaseOf(baseFunctions, known.value, DependenciesOf(last));
    if base.None? then None else Some(known.value[last := loads[last].Keys - base.value])
  }

  /** All that was shown of a function. */
  function Showings(order: seq<string>, loads: map<string, Shown>, baseFunctions: set<Function>, f: Function): seq<Showing>
    requires KnownAfter(order, loads, baseFunctions).Some?
  {
    if order == [] then [] else
    var last := order[|order| - 1];
    Showings(order[..|order| - 1], loads, baseFunctions, f)
      + ShowingOf(last, f, loads[last], KnownAfter(order, loads, baseFunctions).value[last])
  }

  lemma KnownSnoc(order: seq<string>, last: string, loads: map<string, Shown>, baseFunctions: set<Function>)
    ensures KnownAfter(order + [last], loads, baseFunctions) ==
              var known := KnownAfter(order, loads, baseFunctions);
              if known.None? || last !in loads then None else
              var base := BaseOf(baseFunctions, known.value, DependenciesOf(last));
              if base.None? then None else Some(known.value[last := loads[last].Keys - base.value])
  {
    hide DependenciesOf;
    assert (order + [last])[..|order|] == order;
  }

  lemma ShowingsSnoc(order: seq<string>, last: string, loads: map<string, Shown>, baseFunctions: set<Function>, f: Function)
    requires KnownAfter(order + [last], loads, baseFunctions).Some?
    ensures KnownAfter(order, loads, baseFunctions).Some? && last in loads
    ensures last in KnownAfter(order + [last], loads, baseFunctions).value
    ensures Showings(order + [last], loads, baseFunctions, f) ==
              Showings(order, loads, baseFunctions, f)
                + ShowingOf(last, f, loads[last], KnownAfter(order + [last], loads, baseFunctions).value[last])
  {
    hide DependenciesOf, ShowingOf;
    assert (order + [last])[..|order|] == order;
  }

  /** Every dependency of an extension comes before it, so all extensions can be loaded exactly if they are there. */
  lemma {:induction false} OrderIsKnown(names: seq<string>, loads: map<string, Shown>, baseFunctions: set<Function>)
    ensures KnownAfter(LoadOrder(names), loads, baseFunctions).Some? <==>
              forall x :: x in LoadOrder(names) ==> x in loads
    decreases |names|
  {
    if names != [] {
      var before, last := LoadOrder(names[..|names| - 1]), names[|names| - 1];
      var missing := Missing(DependenciesOf(last), SetOf(before));
      OrderIsKnown(names[..|names| - 1], loads, baseFunctions);
      assert forall x :: x in LoadOrder(names) <==> x in before || x in missing || x == last;
      assert LoadOrder(names) == before + missing + [last];
      hide LoadOrder, KnownAfter, DependenciesOf;
      MissingIsKnown(before, DependenciesOf(last), loads, baseFunctions) by {
        DependenciesAreFlat(last);
      }
      KnownSnoc(before + missing, last, loads, baseFunctions);
      if KnownAfter(before + missing, loads, baseFunctions).Some? {
        var known := KnownAfter(before + missing, loads, baseFunctions).value;
        KnownKeys(before + missing, loads, baseFunctions);
        MissingCovers(DependenciesOf(last), SetOf(before));
        BaseIsKnown(baseFunctions, known, DependenciesOf(last));
      }
    }
  }

  lemma {:induction false} MissingIsKnown(before: seq<string>, xs: seq<string>, loads: map<string, Shown>,
                                          baseFunctions: set<Function>)
    requires forall k :: 0 <= k < |xs| ==> DependenciesOf(xs[k]) == []
    ensures KnownAfter(before + Missing(xs, SetOf(before)), loads, baseFunctions).Some? <==>
              KnownAfter(before, loads, baseFunctions).Some? && forall x :: x in Missing(xs, SetOf(before)) ==> x in loads
    decreases |xs|
  {
    hide DependenciesOf, KnownAfter;
    if xs == [] {
      assert before + [] == before;
    } else {
      var rest, last := xs[..|xs| - 1], xs[|xs| - 1];
      MissingIsKnown(before, rest, loads, baseFunctions);
      if last !in SetOf(before) {
        assert before + Missing(xs, SetOf(before)) == before + Missing(rest, SetOf(before)) + [last];
        KnownSnoc(before + Missing(rest, SetOf(before)), last, loads, baseFunctions);
      } else {
        assert Missing(xs, SetOf(before)) == Missing(rest, SetOf(before));
      }
    }
  }

  lemma {:induction false} KnownKeys(order: seq<string>, loads: map<string, Shown>, baseFunctions: set<Function>)
    requires KnownAfter(order, loads, baseFunctions).Some?
    ensures KnownAfter(order, loads, baseFunctions).value.Keys == SetOf(order)
    decreases |order|
  {
    hide DependenciesOf;
    if order != [] {
      KnownKeys(order[..|order| - 1], loads, baseFunctions);
      assert order == order[..|order| - 1] + [order[|order| - 1]];
    }
  }

  lemma {:induction false} MissingCovers(xs: seq<string>, loaded: set<string>)
    ensures forall x :: x in xs ==> x in loaded || x in Missing(xs, loaded)
    ensures forall x :: x in Missing(xs, loaded) ==> x in xs && x !in loaded
    decreases |xs|
  {
    if xs != [] {
      MissingCovers(xs[..|xs| - 1], loaded);
      assert xs == xs[..|xs| - 1] + [xs[|xs| - 1]];
    }
  }

  lemma {:induction false} BaseIsKnown(functions: set<Function>, known: map<string, set<Function>>,
                                       dependencies: seq<string>)
    requires forall x :: x in dependencies ==> x in known
    ensures BaseOf(functions, known, dependencies).Some?
    decreases |dependencies|
  {
    if dependencies != [] {
      assert dependencies[0] in dependencies && forall x :: x in dependencies[1..] ==> x in dependencies;
      BaseIsKnown(functions + known[dependencies[0]], known, dependencies[1..]);
    }
  }

  // ----- extensions that are loaded twice -----

  predicate Distinct(xs: seq<string>) {
    forall j, k :: 0 <= j < k < |xs| ==> xs[j] != xs[k]
  }

  lemma DistinctParts(a: seq<string>, b: seq<string>)
    ensures Distinct(a + b) <==> Distinct(a) && Distinct(b) && forall x :: x in a ==> x !in b
  {
    if Distinct(a + b) {
      forall j, k | 0 <= j < k < |a| ensures a[j] != a[k] {
        assert (a + b)[j] != (a + b)[k];
      }
      forall j, k | 0 <= j < k < |b| ensures b[j] != b[k] {
        assert (a + b)[|a| + j] != (a + b)[|a| + k];
      }
      forall j, k | 0 <= j < |a| && 0 <= k < |b| ensures a[j] != b[k] {
        assert (a + b)[j] != (a + b)[|a| + k];
      }
    } else if Distinct(a) && Distinct(b) && forall x :: x in a ==> x !in b {
      forall j, k | 0 <= j < k < |a + b| ensures (a + b)[j] != (a + b)[k] {
        if j < |a| <= k {
          assert a[j] in a && b[k - |a|] in b;
        }
      }

    }
  }

  lemma {:induction false} MissingDistinct(xs: seq<string>, loaded: set<string>)
    requires Distinct(xs)
    ensures Distinct(Missing(xs, loaded))
    decreases |xs|
  {
    if xs != [] {
      var rest, last := xs[..|xs| - 1], xs[|xs| - 1];
      assert xs == rest + [last];
      DistinctParts(rest, [last]);
      MissingDistinct(rest, loaded);
      MissingCovers(rest, loaded);
      assert last in [last];
      DistinctParts(Missing(rest, loaded), [last]);
    }
  }

  /** An extension has been named, or is a dependency of one that has. */
  predicate Reached(names: seq<string>, x: string) {
    exists k :: 0 <= k < |names| && (names[k] == x || x in DependenciesOf(names[k]))
  }

  lemma {:induction false} OrderReaches(names: seq<string>, x: string)
    ensures x in LoadOrder(names) <==> Reached(names, x)
    decreases |names|
  {
    hide DependenciesOf;
    if names != [] {
      var rest, last := names[..|names| - 1], |names| - 1;
      var before := LoadOrder(rest);
      OrderReaches(rest, x);
      MissingCovers(DependenciesOf(names[last]), SetOf(before));
      assert Reached(names, x) <==> Reached(rest, x) || names[last] == x || x in DependenciesOf(names[last]) by {
        assert forall k :: 0 <= k < last ==> rest[k] == names[k];
      }
      if x in DependenciesOf(names[last]) {
        assert x in SetOf(before) || x in Missing(DependenciesOf(names[last]), SetOf(before));
      }
    }
  }

  /** No extension is loaded twice exactly if none is named twice, or behind another one that depends on it: then it has
      been loaded already, and is loaded again. */
  lemma {:induction false} LoadedOnce(names: seq<string>)
    ensures Distinct(LoadOrder(names)) <==>
              forall j, k :: 0 <= j < k < |names| ==> names[j] != names[k] && names[k] !in DependenciesOf(names[j])
    decreases |names|
  {
    hide LoadOrder;
    if names != [] {
      var rest, last := names[..|names| - 1], |names| - 1;
      LoadedOnce(rest);
      OrderReaches(rest, names[last]);
      OneMoreLoaded(rest, names[last]);
      assert names == rest + [names[last]];
      hide DependenciesOf;
      assert forall k :: 0 <= k < last ==> rest[k] == names[k];
    } else {
      NothingLoaded();
    }
  }

  lemma NothingLoaded()
    ensures LoadOrder([]) == []
  {
  }

  lemma OrderSnoc(names: seq<string>, last: string)
    ensures LoadOrder(names + [last]) == LoadOrder(names) + LoadBlock(last, SetOf(LoadOrder(names)))
  {
    assert (names + [last])[..|names|] == names;
  }

  lemma OneMoreLoaded(rest: seq<string>, last: string)
    ensures Distinct(LoadOrder(rest + [last])) <==> Distinct(LoadOrder(rest)) && last !in LoadOrder(rest)
  {
    var before, xs := LoadOrder(rest), DependenciesOf(last);
    OrderSnoc(rest, last);
    DependenciesAreFlat(last);
    hide DependenciesOf, LoadOrder, Missing;
    MissingDistinct(xs, SetOf(before));
    MissingCovers(xs, SetOf(before));
    ThreeParts(before, Missing(xs, SetOf(before)), last);
  }

  lemma ThreeParts(before: seq<string>, missing: seq<string>, last: string)
    requires Distinct(missing) && last !in missing && forall x :: x in missing ==> x !in before
    ensures Distinct(before + (missing + [last])) <==> Distinct(before) && last !in before
  {
    assert Distinct([last]);
    hide Distinct;
    DistinctParts(missing, [last]);
    DistinctParts(before, missing + [last]);
    assert last in missing + [last];
  }

  // ----- parts of the order -----

  lemma OneMoreMissing(xs: seq<string>, i: nat, before: seq<string>)
    requires i < |xs| && Distinct(xs)
    ensures var order := before + Missing(xs[..i], SetOf(before));
            && before + Missing(xs[..i + 1], SetOf(before)) == order + (if xs[i] in SetOf(before) then [] else [xs[i]])
            && (xs[i] in SetOf(order) <==> xs[i] in SetOf(before))
  {
    assert xs[..i + 1][..i] == xs[..i];
    MissingCovers(xs[..i], SetOf(before));
  }

  /** What is loaded behind a dependency. */
  lemma LaterMissing(xs: seq<string>, i: nat, loaded: set<string>, extension: string) returns (rest: seq<string>)
    requires i < |xs| && xs[i] !in loaded && xs == DependenciesOf(extension)
    ensures LoadBlock(extension, loaded) == Missing(xs[..i], loaded) + [xs[i]] + rest
  {
    var more := MissingConcat(xs, i + 1, loaded);
    assert xs[..i + 1][..i] == xs[..i];
    rest := more + [extension];
  }

  lemma {:induction false} MissingConcat(xs: seq<string>, i: nat, loaded: set<string>) returns (more: seq<string>)
    requires i <= |xs|
    ensures Missing(xs, loaded) == Missing(xs[..i], loaded) + more
    decreases |xs|
  {
    if i == |xs| {
      more := [];
      assert xs[..i] == xs;
    } else {
      var before := MissingConcat(xs[..|xs| - 1], i, loaded);
      assert xs[..|xs| - 1][..i] == xs[..i];
      more := before + if xs[|xs| - 1] in loaded then [] else [xs[|xs| - 1]];
    }
  }

  lemma LoneBlock(extension: string, loaded: set<string>)
    ensures DependenciesOf(extension) == [] ==> LoadBlock(extension, loaded) == [extension]
  {
  }

  lemma {:induction false} OrderContinues(names: seq<string>, i: nat)
    requires i <= |names|
    ensures exists more :: LoadOrder(names) == LoadOrder(names[..i]) + more
    decreases |names|
  {
    hide LoadBlock;
    if i == |names| {
      assert names[..i] == names;
      assert LoadOrder(names) == LoadOrder(names[..i]) + [];
    } else {
      var before := names[..|names| - 1];
      OrderContinues(before, i);
      assert before[..i] == names[..i];
      var more :| LoadOrder(before) == LoadOrder(names[..i]) + more;
      var block := LoadBlock(names[|names| - 1], SetOf(LoadOrder(before)));
      assert LoadOrder(names) == LoadOrder(names[..i]) + (more + block);
    }
  }

  /** What is shown of a function is labelled with the function and the extension. */
  lemma {:induction false} ShowingsAreLabelled(order: seq<string>, loads: map<string, Shown>,
                                               baseFunctions: set<Function>, f: Function, s: Showing, o: Overload)
    requires KnownAfter(order, loads, baseFunctions).Some?
    requires s in Showings(order, loads, baseFunctions, f) && o in s.os
    ensures o.name == f.name && o.type_ == f.type_ && o.extension == s.extension
    decreases |order|
  {
    var before, last := order[..|order| - 1], order[|order| - 1];
    if s in Showings(before, loads, baseFunctions, f) {
      ShowingsAreLabelled(before, loads, baseFunctions, f, s, o);
    }
  }
}
