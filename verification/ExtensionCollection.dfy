/** Collecting the functions of extensions: a function of one extension goes into the function map, a function of
    several into the overload map. */
module ExtensionCollection {
  import opened Sequences
  import opened ExtensionEntries
  import opened ExtensionOverloads
  import opened ExtensionOverloadSort
  import opened ExtensionViews
  import opened ExtensionRuns

  /** The overloads that loading an extension shows, labelled with the extension. */
  function GetExtensionOverloads(extension: string, overloads: Shown): map<Function, seq<Overload>> {
    map f | f in overloads :: Labelled(extension, f, overloads[f])
  }

  /** The three maps, and the histories of the functions. */
  datatype Data = Data(functions: map<Function, ExtensionFunction>, overloads: map<Function, seq<Overload>>,
                       all: map<Function, seq<Overload>>, histories: map<Function, History>)

  function At<T>(m: map<Function, T>, f: Function): Option<T> {
    if f in m then Some(m[f]) else None
  }

  function ViewOf(d: Data, f: Function): View {
    View(At(d.functions, f), At(d.overloads, f), At(d.all, f), if f in d.histories then d.histories[f] else History([], []))
  }

  /** A function after an extension has been loaded. */
  function AfterLoad(v: View, extension: string, f: Function, shown: Shown, added: set<Function>): Option<View> {
    if f in shown then AfterShowing(v, f, Showing(extension, Labelled(extension, f, shown[f]), f in added)) else Some(v)
  }

  lemma AfterLoadIs(v: View, extension: string, f: Function, shown: Shown, added: set<Function>)
    ensures AfterLoad(v, extension, f, shown, added) ==
              var showing := ShowingOf(extension, f, shown, added);
              if showing == [] then Some(v) else AfterShowing(v, f, showing[0])
    ensures |ShowingOf(extension, f, shown, added)| <= 1
  {
  }

  class ExtensionData {
    var functionMap: map<Function, ExtensionFunction>
    var functionOverloads: map<Function, seq<Overload>>
    var allFunctionOverloads: map<Function, seq<Overload>>
    var extensionFunctions: map<string, set<Function>>
    var addedExtensions: set<string>
    const baseFunctions: set<Function>
    /** What loading each extension shows. */
    const extensions: map<string, Shown>
    ghost var histories: map<Function, History>
    ghost var order: seq<string>
    ghost var parsed: Data

    ghost function State(): Data
      reads this
    {
      Data(functionMap, functionOverloads, allFunctionOverloads, histories)
    }

    /** What is stored is what loading the extensions in this order makes of the parsed entries. */
    ghost predicate Valid()
      reads this
    {
      && KnownAfter(order, extensions, baseFunctions) == Some(extensionFunctions)
      && addedExtensions == SetOf(order)
      && forall f ::
           RunView(ViewOf(parsed, f), f, Showings(order, extensions, baseFunctions, f)) == Some(ViewOf(State(), f))
    }

    /** All extensions can be loaded, and no function misses the overloads it needs. */
    ghost predicate RunsWell(order: seq<string>)
      reads this
    {
      && KnownAfter(order, extensions, baseFunctions).Some?
      && forall f :: RunView(ViewOf(parsed, f), f, Showings(order, extensions, baseFunctions, f)).Some?
    }

    constructor (baseFunctions: set<Function>, extensions: map<string, Shown>)
      ensures this.baseFunctions == baseFunctions && this.extensions == extensions
      ensures Valid() && order == [] && parsed == Data(map[], map[], map[], map[])
    {
      this.baseFunctions, this.extensions := baseFunctions, extensions;
      functionMap, functionOverloads, allFunctionOverloads, extensionFunctions := map[], map[], map[], map[];
      addedExtensions := {};
      histories, order, parsed := map[], [], Data(map[], map[], map[], map[]);
    }

    /** Entries that were parsed from the file. Nothing is known of the overloads behind them. */
    method AddEntries(functions: map<Function, ExtensionFunction>, overloads: map<Function, seq<Overload>>)
      requires Valid() && order == [] && parsed == Data(map[], map[], map[], map[])
      modifies this
      ensures Valid() && order == [] && parsed == Data(functions, overloads, map[], map[])
    {
      NothingYet();
      functionMap := functionMap + functions;
      functionOverloads := functionOverloads + overloads;
      parsed := Data(functions, overloads, map[], map[]);
    }

    lemma NothingYet()
      requires Valid() && order == [] && parsed == Data(map[], map[], map[], map[])
      ensures functionMap == map[] && functionOverloads == map[] && allFunctionOverloads == map[]
      ensures forall f :: ViewOf(State(), f) == UNKNOWN
    {
      forall f
        ensures f !in functionMap && f !in functionOverloads && f !in allFunctionOverloads
        ensures ViewOf(State(), f) == UNKNOWN
      {
        assert ViewOf(parsed, f) == UNKNOWN == ViewOf(State(), f);
      }
    }

    /** The functions that are there without the extension: those of the database, and of its dependencies. */
    method BaseFunctions(dependencies: seq<string>) returns (base: Option<set<Function>>)
      ensures base == BaseOf(baseFunctions, extensionFunctions, dependencies)
    {
      var functions := baseFunctions;
      var i := 0;
      while i < |dependencies|
        invariant 0 <= i <= |dependencies|
        invariant BaseOf(baseFunctions, extensionFunctions, dependencies)
            == BaseOf(functions, extensionFunctions, dependencies[i..])
      {
        assert dependencies[i..][1..] == dependencies[i + 1..];
        if dependencies[i] !in extensionFunctions {
          return None;
        }
        functions := functions + extensionFunctions[dependencies[i]];
        i := i + 1;
      }
      base := Some(functions);
    }

    /** One function that an extension adds. */
    method AddFunction(extensionName: string, f: Function, os: seq<Overload>) returns (ok: bool)
      modifies this`functionMap, this`functionOverloads, this`histories
      ensures ok <==> StepView(ViewOf(old(State()), f), extensionName, f, os).Some?
      ensures ok ==> ViewOf(State(), f) == StepView(ViewOf(old(State()), f), extensionName, f, os).value
      ensures ok ==> forall g :: g != f ==> ViewOf(State(), g) == ViewOf(old(State()), g)
    {
      if f in functionOverloads {
        functionOverloads := functionOverloads[f := functionOverloads[f] + os];
      } else if f in functionMap {
        if f !in allFunctionOverloads {
          return false;
        }
        functionOverloads := functionOverloads[f := allFunctionOverloads[f] + os];
        functionMap := functionMap - {f};
      } else {
        functionMap := functionMap[f := ExtensionFunction(extensionName, f.name, f.type_)];
      }
      ghost var h := ViewOf(State(), f).history;
      histories := histories[f := History(h.owners + [extensionName], h.contributed + os)];
      ok := true;
    }

    /** The functions are added one after the other, in any order. */
    method AddAll(extensionName: string, addedFunctions: set<Function>, labelled: map<Function, seq<Overload>>)
      returns (ok: bool)
      requires addedFunctions <= labelled.Keys
      modifies this`functionMap, this`functionOverloads, this`histories
      ensures ok <==> forall f :: f in addedFunctions ==>
                        StepView(ViewOf(old(State()), f), extensionName, f, labelled[f]).Some?
      ensures ok ==>
                (forall f ::
                   ViewOf(State(), f) ==
                     if f in addedFunctions then StepView(ViewOf(old(State()), f), extensionName, f, labelled[f]).value
                     else ViewOf(old(State()), f))
    {
      var rest := addedFunctions;
      hide ViewOf, StepView;
      while rest != {}
        invariant rest <= addedFunctions
        invariant forall f :: f in addedFunctions - rest ==>
                    StepView(ViewOf(old(State()), f), extensionName, f, labelled[f]).Some?
        invariant (forall f ::
                     ViewOf(State(), f) ==
                       if f in addedFunctions - rest
                       then StepView(ViewOf(old(State()), f), extensionName, f, labelled[f]).value
                       else ViewOf(old(State()), f))
        decreases rest
      {
        var f :| f in rest;
        ok := AddFunction(extensionName, f, labelled[f]);
        if !ok {
          return;
        }
        rest := rest - {f};
      }
      ok := true;
    }

    /** Adds the functions of an extension that are not there without it. It fails exactly if a dependency has not been
        added before, or if a function is in the function map without overloads that have been seen. */
    method AddFunctions(extensionName: string, functionList: set<Function>, overloads: Shown, dependencies: seq<string>)
      returns (ok: bool)
      requires functionList <= overloads.Keys
      modifies this`functionMap, this`functionOverloads, this`allFunctionOverloads, this`extensionFunctions, this`histories
      ensures var base := BaseOf(baseFunctions, old(extensionFunctions), dependencies);
              && (ok <==> base.Some? &&
                          forall f :: AfterLoad(ViewOf(old(State()), f), extensionName, f, overloads,
                                                functionList - base.value).Some?)
              && (ok ==> extensionFunctions == old(extensionFunctions)[extensionName := functionList - base.value])
              && (ok ==> forall f ::
                           Some(ViewOf(State(), f)) == AfterLoad(ViewOf(old(State()), f), extensionName, f, overloads,
                                                                 functionList - base.value))
    {
      var base := BaseFunctions(dependencies);
      if base.None? {
        return false;
      }
      var labelled := GetExtensionOverloads(extensionName, overloads);
      var addedFunctions := functionList - base.value;
      extensionFunctions := extensionFunctions[extensionName := addedFunctions];
      hide StepView, Labelled;
      ok := AddAll(extensionName, addedFunctions, labelled);
      ghost var middle := State();
      if !ok {
        ghost var f :| f in addedFunctions && StepView(ViewOf(old(State()), f), extensionName, f, labelled[f]).None?;
        assert AfterLoad(ViewOf(old(State()), f), extensionName, f, overloads, addedFunctions).None?;
        return;
      }
      allFunctionOverloads := allFunctionOverloads + labelled;
      forall f ensures Some(ViewOf(State(), f)) ==
                         AfterLoad(ViewOf(old(State()), f), extensionName, f, overloads, addedFunctions)
      {
        assert ViewOf(middle, f).all == ViewOf(old(State()), f).all;
      }
    }

    lemma RunsPrefix(order: seq<string>, last: string)
      requires RunsWell(order + [last])
      ensures RunsWell(order)
    {
      KnownSnoc(order, last, extensions, baseFunctions);
      hide KnownAfter, Showings;
      forall f ensures RunView(ViewOf(parsed, f), f, Showings(order, extensions, baseFunctions, f)).Some? {
        ShowingsSnoc(order, last, extensions, baseFunctions, f);
        RunSnoc(ViewOf(parsed, f), f, Showings(order, extensions, baseFunctions, f),
                ShowingOf(last, f, extensions[last], KnownAfter(order + [last], extensions, baseFunctions).value[last]));
      }
    }

    /** An extension whose dependencies have been loaded. */
    method LoadExtension(extensionName: string) returns (ok: bool)
      requires Valid()
      modifies this
      ensures parsed == old(parsed)
      ensures ok <==> RunsWell(old(order) + [extensionName])
      ensures ok ==> Valid() && order == old(order) + [extensionName]
    {
      ghost var before := order;
      KnownSnoc(order, extensionName, extensions, baseFunctions);
      hide KnownAfter, Showings, RunView, DependenciesOf, BaseOf, ViewOf, AfterLoad;
      if extensionName !in extensions {
        return false;
      }
      var shown := extensions[extensionName];
      ok := AddFunctions(extensionName, shown.Keys, shown, DependenciesOf(extensionName));
      addedExtensions := addedExtensions + {extensionName};
      order := order + [extensionName];
      ghost var base := BaseOf(baseFunctions, old(extensionFunctions), DependenciesOf(extensionName));
      if base.Some? {
        ghost var added := shown.Keys - base.value;
        forall f
          ensures RunView(ViewOf(parsed, f), f, Showings(order, extensions, baseFunctions, f))
               == AfterLoad(ViewOf(old(State()), f), extensionName, f, shown, added)
        {
          ShowingsSnoc(before, extensionName, extensions, baseFunctions, f);
          RunSnoc(ViewOf(parsed, f), f, Showings(before, extensions, baseFunctions, f),
                  ShowingOf(extensionName, f, shown, added));
          AfterLoadIs(ViewOf(old(State()), f), extensionName, f, shown, added);
        }
      }
    }

    /** Running a longer order well means running every part of it well. */
    lemma {:induction false} RunsPart(order: seq<string>, more: seq<string>)
      requires RunsWell(order + more)
      ensures RunsWell(order)
      decreases |more|
    {
      hide RunsWell;
      if more == [] {
        assert order + more == order;
      } else {
        var rest, last := more[..|more| - 1], more[|more| - 1];
        assert order + more == (order + rest) + [last];
        RunsPrefix(order + rest, last);
        RunsPart(order, rest);
      }
    }

    /** An extension, behind those of its dependencies that have not been added. */
    method AddExtension(extensionName: string) returns (ok: bool)
      requires Valid()
      modifies this
      ensures parsed == old(parsed)
      ensures ok <==> RunsWell(old(order) + LoadBlock(extensionName, SetOf(old(order))))
      ensures ok ==> Valid() && order == old(order) + LoadBlock(extensionName, SetOf(old(order)))
      decreases |DependenciesOf(extensionName)|
    {
      var dependencies := DependenciesOf(extensionName);
      ghost var before, loaded := order, SetOf(order);
      DependenciesAreFlat(extensionName);
      hide DependenciesOf, RunsWell, KnownAfter, Showings;
      var i := 0;
      assert before + [] == before;
      while i < |dependencies|
        invariant 0 <= i <= |dependencies| && parsed == old(parsed) && Valid()
        invariant order == before + Missing(dependencies[..i], loaded)
      {
        var item := dependencies[i];
        OneMoreMissing(dependencies, i, before);
        if item !in addedExtensions {
          ghost var rest := LaterMissing(dependencies, i, loaded, extensionName);
          LoneBlock(item, SetOf(order));
          assert order + [item] + rest == before + LoadBlock(extensionName, loaded);
          ok := AddExtension(item);
          if !ok {
            if RunsWell(before + LoadBlock(extensionName, loaded)) {
              RunsPart(before + Missing(dependencies[..i], loaded) + [item], rest);
            }
            return;
          }
        }
        i := i + 1;
      }
      assert dependencies[..i] == dependencies;
      assert before + LoadBlock(extensionName, loaded) == order + [extensionName];
      ok := LoadExtension(extensionName);
    }

    /** The extensions are added one after the other. It fails exactly if one of them, or a dependency, is not there, or
        adds a function that has been parsed, and that no extension has shown before. */
    method AddExtensions(extensionNames: seq<string>) returns (ok: bool)
      requires Valid() && order == []
      modifies this
      ensures parsed == old(parsed)
      ensures ok <==> RunsWell(LoadOrder(extensionNames))
      ensures ok ==> Valid() && order == LoadOrder(extensionNames)
    {
      hide RunsWell, KnownAfter, Showings, LoadBlock;
      for i := 0 to |extensionNames|
        invariant parsed == old(parsed) && Valid() && order == LoadOrder(extensionNames[..i])
      {
        assert extensionNames[..i + 1][..i] == extensionNames[..i];
        ok := AddExtension(extensionNames[i]);
        if !ok {
          if RunsWell(LoadOrder(extensionNames)) {
            OrderContinues(extensionNames, i + 1);
            ghost var more :| LoadOrder(extensionNames) == LoadOrder(extensionNames[..i + 1]) + more;
            RunsPart(LoadOrder(extensionNames[..i + 1]), more);
          }
          return;
        }
      }
      assert extensionNames[..|extensionNames|] == extensionNames;
      ok := true;
      ValidRunsWell();
    }

    lemma ValidRunsWell()
      requires Valid()
      ensures RunsWell(order)
    {
    }

    // ----- what a run leaves behind -----

    /** Starting from nothing, the maps tell at any time how many extensions have added each function, and which; and
        the histories are what was loaded. */
    lemma MapsClassify(f: Function)
      requires Valid() && ViewOf(parsed, f) == UNKNOWN
      ensures var showings, v := Showings(order, extensions, baseFunctions, f), ViewOf(State(), f);
              && Classified(f, v) && v.history == History(Adders(showings), Contributed(showings))
    {
      RunIsClassified(f, Showings(order, extensions, baseFunctions, f));
    }

    /** A function that several extensions have added is exported with the overloads they contributed exactly if what
        was shown of it last, before the second of them was loaded, is what the first of them showed. */
    lemma ExportsContributed(f: Function, j: nat, k: nat)
      requires Valid() && ViewOf(parsed, f) == UNKNOWN
      requires FirstTwo(Showings(order, extensions, baseFunctions, f), j, k)
      ensures var showings := Showings(order, extensions, baseFunctions, f);
              f in functionOverloads
              && (functionOverloads[f] == Contributed(showings) <==> showings[k - 1].os == showings[j].os)
    {
      ExportedAreContributed(f, Showings(order, extensions, baseFunctions, f), j, k);
      assert ViewOf(State(), f) == RunView(UNKNOWN, f, Showings(order, extensions, baseFunctions, f)).value;
    }

    /** The overloads of a function as they are stored: those that were parsed, and those of the extensions. */
    ghost function StoredOf(f: Function): seq<Stored>
      requires f in functionOverloads
      reads this
    {
      var os := functionOverloads[f];
      if f in parsed.overloads && |parsed.overloads[f]| <= |os| then
        Both(os[..|parsed.overloads[f]|], os[|parsed.overloads[f]|..])
      else Both([], os)
    }

    /** One of the extensions that add the function is the extension of a parsed overload. */
    ghost predicate ParsedAndAdded(f: Function, a: Overload, s: Showing)
      requires KnownAfter(order, extensions, baseFunctions).Some? && f in parsed.overloads
      reads this
    {
      && a in parsed.overloads[f] && s in Showings(order, extensions, baseFunctions, f)
      && s.added && s.os != [] && s.extension == a.extension
    }

    lemma StoredParts(f: Function)
      requires Valid() && f in parsed.overloads
      ensures f in functionOverloads
      ensures functionOverloads[f] == parsed.overloads[f] + Contributed(Showings(order, extensions, baseFunctions, f))
    {
      ParsedOverloadsGrow(ViewOf(parsed, f), f, Showings(order, extensions, baseFunctions, f));
      assert ViewOf(State(), f).overloads.Some?;
    }

    /** After any run, exporting the overloads of a function fails exactly if some of them were parsed, and one of the
        extensions of those has been loaded and has added the function, with an overload. */
    lemma ExportFails(f: Function, t: Sorter)
      requires Valid() && f in functionOverloads && Sorts(t, |StoredOf(f)|)
      requires f in parsed.overloads ==> forall o :: o in parsed.overloads[f] ==> o.name == f.name && o.type_ == f.type_
      ensures Within(t, |StoredOf(f)|)
      ensures SortStored(t, StoredOf(f)) == None <==>
                f in parsed.overloads && exists a, s :: ParsedAndAdded(f, a, s)
    {
      SortingFailsExactly(t, StoredOf(f));
      if f in parsed.overloads {
        StoredParts(f);
        var before, loaded := parsed.overloads[f], Contributed(Showings(order, extensions, baseFunctions, f));
        assert (before + loaded)[..|before|] == before && (before + loaded)[|before|..] == loaded;
        BothAreMixed(before, loaded);
        hide SortStored, Sorts, Mixed, Contributed, Valid, KnownAfter;
        if a, b :| a in before && b in loaded && SameHeads(a, b) {
          var s := AddedWith(f, b);
          assert ParsedAndAdded(f, a, s);
        }
        if a, s :| ParsedAndAdded(f, a, s) {
          AddsWith(f, s);
          assert SameHeads(a, s.os[0]);
        }
      } else {
        BothAreMixed([], functionOverloads[f]);
      }
    }

    lemma AddedWith(f: Function, b: Overload) returns (s: Showing)
      requires KnownAfter(order, extensions, baseFunctions).Some?
      requires b in Contributed(Showings(order, extensions, baseFunctions, f))
      ensures s in Showings(order, extensions, baseFunctions, f) && s.added && s.os != [] && s.extension == b.extension
    {
      var showings := Showings(order, extensions, baseFunctions, f);
      ContributedExactly(showings, b);
      var k :| 0 <= k < |showings| && showings[k].added && b in showings[k].os;
      s := showings[k];
      ShowingsAreLabelled(order, extensions, baseFunctions, f, s, b);
    }

    lemma AddsWith(f: Function, s: Showing)
      requires KnownAfter(order, extensions, baseFunctions).Some?
      requires s in Showings(order, extensions, baseFunctions, f) && s.added && s.os != []
      ensures s.os[0] in Contributed(Showings(order, extensions, baseFunctions, f))
      ensures s.os[0].extension == s.extension && s.os[0].name == f.name && s.os[0].type_ == f.type_
    {
      ContributedExactly(Showings(order, extensions, baseFunctions, f), s.os[0]);
      ShowingsAreLabelled(order, extensions, baseFunctions, f, s, s.os[0]);
    }

    /** Extensions can be added exactly if they and their dependencies are there, and no function whose entry was parsed
        is added before it has been shown. */
    lemma RunsWellExactly(names: seq<string>)
      requires parsed.all == map[] && parsed.histories == map[]
      ensures RunsWell(LoadOrder(names)) <==>
                && (forall x :: x in LoadOrder(names) ==> x in extensions)
                && KnownAfter(LoadOrder(names), extensions, baseFunctions).Some?
                && forall f :: f in parsed.functions && f !in parsed.overloads ==>
                     var showings := Showings(LoadOrder(names), extensions, baseFunctions, f);
                     showings == [] || !showings[0].added
    {
      OrderIsKnown(names, extensions, baseFunctions);
      hide KnownAfter, Showings, LoadOrder, RunView;
      if KnownAfter(LoadOrder(names), extensions, baseFunctions).Some? {
        forall f
          ensures var showings := Showings(LoadOrder(names), extensions, baseFunctions, f);
                  RunView(ViewOf(parsed, f), f, showings).Some? <==>
                    (f in parsed.functions && f !in parsed.overloads ==> showings == [] || !showings[0].added)
        {
          var showings := Showings(LoadOrder(names), extensions, baseFunctions, f);
          if f in parsed.overloads {
            ParsedOverloadsGrow(ViewOf(parsed, f), f, showings);
          } else if f in parsed.functions {
            ParsedEntryFails(ViewOf(parsed, f), f, showings);
          } else {
            RunIsClassified(f, showings);
          }
        }
      }
    }
  }

  /** A whole run: the entries that were parsed, and then all extensions. */
  method Collect(baseFunctions: set<Function>, extensions: map<string, Shown>,
                 functions: map<Function, ExtensionFunction>, overloads: map<Function, seq<Overload>>,
                 extensionNames: seq<string>)
    returns (data: ExtensionData, ok: bool)
    ensures ok ==> data.Valid() && data.order == LoadOrder(extensionNames)
                   && data.parsed == Data(functions, overloads, map[], map[])
                   && data.baseFunctions == baseFunctions && data.extensions == extensions
    ensures ok <==>
              && (forall x :: x in LoadOrder(extensionNames) ==> x in extensions)
              && KnownAfter(LoadOrder(extensionNames), extensions, baseFunctions).Some?
              && forall f :: f in functions && f !in overloads ==>
                   var showings := Showings(LoadOrder(extensionNames), extensions, baseFunctions, f);
                   showings == [] || !showings[0].added
  {
    data := new ExtensionData(baseFunctions, extensions);
    data.AddEntries(functions, overloads);
    ok := data.AddExtensions(extensionNames);
    data.RunsWellExactly(extensionNames);
  }

  // ----- runs that export a function under the wrong name -----

  /** A function of avro that iceberg, which depends on avro and parquet, shows as well. */
  predicate ShownByBoth(extensions: map<string, Shown>, f: Function) {
    && "avro" in extensions && "parquet" in extensions && "iceberg" in extensions
    && extensions["avro"] == extensions["iceberg"] == map[f := [FunctionOverload([], "INT")]]
    && extensions["parquet"] == map[]
  }

  function LabelledOverload(extension: string, f: Function): Overload {
    Overload(extension, f.name, f.type_, [], "INT")
  }

  const BOTH_LOADED: seq<string> := ["avro", "parquet", "iceberg"]

  lemma BothLoaded(extensions: map<string, Shown>, f: Function)
    requires ShownByBoth(extensions, f)
    ensures KnownAfter(BOTH_LOADED, extensions, {}) == Some(map["avro" := {f}, "parquet" := {}, "iceberg" := {}])
    ensures Showings(BOTH_LOADED, extensions, {}, f)
         == [Showing("avro", [LabelledOverload("avro", f)], true),
             Showing("iceberg", [LabelledOverload("iceberg", f)], false)]
  {
    var shown := extensions["avro"];
    assert shown.Keys - {} == {f} && shown.Keys - {f} == {} && {} + {f} + {} == {f};
    assert extensions["parquet"].Keys - {} == {} && "parquet"[0] != "iceberg"[0];
    assert ["avro"] == [] + ["avro"] && ["avro", "parquet"] == ["avro"] + ["parquet"];
    assert BOTH_LOADED == ["avro", "parquet"] + ["iceberg"];
    KnownSnoc([], "avro", extensions, {});
    KnownSnoc(["avro"], "parquet", extensions, {});
    KnownSnoc(["avro", "parquet"], "iceberg", extensions, {});
    assert KnownAfter(["avro"], extensions, {}) == Some(map["avro" := {f}]);
    assert KnownAfter(["avro", "parquet"], extensions, {}) == Some(map["avro" := {f}, "parquet" := {}]);
    assert BaseOf({}, map["avro" := {f}, "parquet" := {}], ["avro", "parquet"]) == Some({f}) by {
      assert ["avro", "parquet"][1..] == ["parquet"] && ["parquet"][1..] == [];
    }
    ShowingsSnoc([], "avro", extensions, {}, f);
    ShowingsSnoc(["avro"], "parquet", extensions, {}, f);
    ShowingsSnoc(["avro", "parquet"], "iceberg", extensions, {}, f);
    assert Labelled("avro", f, shown[f]) == [LabelledOverload("avro", f)];
    assert Labelled("iceberg", f, shown[f]) == [LabelledOverload("iceberg", f)];
  }

  /** What becomes of the function when one more extension adds it. */
  lemma FourthAdds(extensions: map<string, Shown>, f: Function, extension: string)
    requires ShownByBoth(extensions, f) && DependenciesOf(extension) == []
    requires extension in extensions && extensions[extension] == extensions["avro"]
    ensures KnownAfter(BOTH_LOADED + [extension], extensions, {}).Some?
    ensures var v := RunView(UNKNOWN, f, Showings(BOTH_LOADED + [extension], extensions, {}, f));
            && v.Some? && v.value.history.owners == ["avro", extension]
            && v.value.overloads == Some([LabelledOverload("iceberg", f), LabelledOverload(extension, f)])
  {
    BothLoaded(extensions, f);
    KnownSnoc(BOTH_LOADED, extension, extensions, {});
    ShowingsSnoc(BOTH_LOADED, extension, extensions, {}, f);
    var a := Showing("avro", [LabelledOverload("avro", f)], true);
    var b := Showing("iceberg", [LabelledOverload("iceberg", f)], false);
    var c := Showing(extension, [LabelledOverload(extension, f)], true);
    assert Labelled(extension, f, extensions[extension][f]) == [LabelledOverload(extension, f)];
    hide KnownAfter, Showings, DependenciesOf;
    assert [] + [a] == [a] && [a] + [b] == [a, b];
    assert [] + ["avro"] == ["avro"] && ["avro"] + [extension] == ["avro", extension];
    assert b.os + c.os == [LabelledOverload("iceberg", f), LabelledOverload(extension, f)];
    RunSnoc(UNKNOWN, f, [], [a]);
    RunSnoc(UNKNOWN, f, [a], [b]);
    RunSnoc(UNKNOWN, f, [a, b], [c]);
  }

  /** When a third extension adds the function, the overload of avro is exported under the name of iceberg. */
  method RelabelledByDependent(f: Function) returns (data: ExtensionData)
    ensures fresh(data) && f in data.functionOverloads
    ensures data.functionOverloads[f] == [LabelledOverload("iceberg", f), LabelledOverload("third", f)]
    ensures ViewOf(data.State(), f).history.owners == ["avro", "third"]
  {
    var shown := map[f := [FunctionOverload([], "INT")]];
    data := new ExtensionData({}, map["avro" := shown, "parquet" := map[], "iceberg" := shown, "third" := shown]);
    InOrder("third");
    FourthAdds(data.extensions, f, "third");
    OrderIsKnown(["avro", "parquet", "iceberg", "third"], data.extensions, {});
    data.RunsWellExactly(["avro", "parquet", "iceberg", "third"]);
    var ok := data.AddExtensions(["avro", "parquet", "iceberg", "third"]);
    assert ViewOf(data.parsed, f) == UNKNOWN;
  }

  /** When iceberg is named first, avro is loaded twice, and counts as two extensions. */
  method LoadedTwice(f: Function) returns (data: ExtensionData)
    ensures fresh(data) && f in data.functionOverloads
    ensures data.functionOverloads[f] == [LabelledOverload("iceberg", f), LabelledOverload("avro", f)]
    ensures ViewOf(data.State(), f).history.owners == ["avro", "avro"]
  {
    var shown := map[f := [FunctionOverload([], "INT")]];
    data := new ExtensionData({}, map["avro" := shown, "parquet" := map[], "iceberg" := shown]);
    DependencyBehind();
    FourthAdds(data.extensions, f, "avro");
    OrderIsKnown(["iceberg", "avro"], data.extensions, {});
    data.RunsWellExactly(["iceberg", "avro"]);
    var ok := data.AddExtensions(["iceberg", "avro"]);
    assert ViewOf(data.parsed, f) == UNKNOWN;
  }

  /** When iceberg alone is named, avro is loaded as well, and the overload that was parsed for it cannot be compared
      with the one it adds: no way of sorting them succeeds. */
  method ParsedAndLoaded(f: Function) returns (data: ExtensionData)
    ensures fresh(data) && f in data.functionOverloads && |data.StoredOf(f)| == 2
    ensures forall t :: Sorts(t, 2) ==> SortStored(t, data.StoredOf(f)) == None
  {
    var shown := map[f := [FunctionOverload([], "INT")]];
    data := new ExtensionData({}, map["avro" := shown, "parquet" := map[], "iceberg" := shown]);
    data.AddEntries(map[], map[f := [LabelledOverload("avro", f)]]);
    BothLoaded(data.extensions, f);
    OnlyIceberg();
    data.RunsWellExactly(["iceberg"]);
    hide *;
    var ok := data.AddExtensions(["iceberg"]);
    AvroParsed(data, f);
  }

  lemma AvroParsed(data: ExtensionData, f: Function)
    requires data.Valid() && data.order == BOTH_LOADED && data.baseFunctions == {} && ShownByBoth(data.extensions, f)
    requires data.parsed == Data(map[], map[f := [LabelledOverload("avro", f)]], map[], map[])
    ensures f in data.functionOverloads && |data.StoredOf(f)| == 2
    ensures forall t :: Sorts(t, 2) ==> SortStored(t, data.StoredOf(f)) == None
  {
    BothLoaded(data.extensions, f);
    var a := LabelledOverload("avro", f);
    var s := Showing("avro", [a], true);
    var showings := Showings(BOTH_LOADED, data.extensions, {}, f);
    assert data.parsed.overloads[f] == [a] && a in [a] && showings[0] == s && a.extension == "avro" && s.os == [a];
    assert data.ParsedAndAdded(f, a, s);
    data.StoredParts(f);
    OneAdder(showings, 0);
    assert |data.functionOverloads[f]| == 2;
    hide SortStored, Sorts, Contributed, Showings, KnownAfter;
    forall t | Sorts(t, 2) ensures SortStored(t, data.StoredOf(f)) == None {
      data.ExportFails(f, t);
    }
  }

  lemma OnlyIceberg()
    ensures LoadOrder(["iceberg"]) == BOTH_LOADED
  {
    IcebergBlock();
    hide LoadOrder, LoadBlock, DependenciesOf;
    NothingLoaded();
    OrderSnoc([], "iceberg");
    assert [] + ["iceberg"] == ["iceberg"] && [] + BOTH_LOADED == BOTH_LOADED;
  }

  lemma InOrder(extension: string)
    requires DependenciesOf(extension) == []
    ensures LoadOrder(["avro", "parquet", "iceberg", extension]) == BOTH_LOADED + [extension]
  {
    IcebergBlock();
    hide LoadOrder, LoadBlock, DependenciesOf;
    NothingLoaded();
    OrderSnoc([], "avro");
    LoneBlock("avro", SetOf([]));
    assert [] + ["avro"] == ["avro"];
    OrderSnoc(["avro"], "parquet");
    LoneBlock("parquet", SetOf(["avro"]));
    assert ["avro"] + ["parquet"] == ["avro", "parquet"];
    OrderSnoc(["avro", "parquet"], "iceberg");
    assert ["avro", "parquet"] + ["iceberg"] == BOTH_LOADED;
    OrderSnoc(BOTH_LOADED, extension);
    LoneBlock(extension, SetOf(BOTH_LOADED));
    assert BOTH_LOADED + [extension] == ["avro", "parquet", "iceberg", extension];
  }

  lemma IcebergBlock()
    ensures LoadBlock("iceberg", SetOf(["avro", "parquet"])) == ["iceberg"]
    ensures LoadBlock("iceberg", SetOf([])) == BOTH_LOADED
    ensures DependenciesOf("avro") == [] == DependenciesOf("parquet")
  {
    assert "avro"[0] != "iceberg"[0] && "parquet"[0] != "iceberg"[0];
    assert ["avro", "parquet"][..1] == ["avro"] && ["avro"][..0] == [];
    assert "avro" in SetOf(["avro", "parquet"]) && "parquet" in SetOf(["avro", "parquet"]);
    assert SetOf([]) == {};
    assert Missing(["avro", "parquet"], SetOf(["avro", "parquet"])) == [];
    assert Missing(["avro", "parquet"], {}) == ["avro", "parquet"];
  }

  lemma DependencyBehind()
    ensures LoadOrder(["iceberg", "avro"]) == BOTH_LOADED + ["avro"]
  {
    IcebergBlock();
    hide LoadOrder, LoadBlock, DependenciesOf;
    NothingLoaded();
    OrderSnoc([], "iceberg");
    assert [] + ["iceberg"] == ["iceberg"] && [] + BOTH_LOADED == BOTH_LOADED;
    OrderSnoc(["iceberg"], "avro");
    LoneBlock("avro", SetOf(BOTH_LOADED));
    assert ["iceberg"] + ["avro"] == ["iceberg", "avro"];
  }
}
