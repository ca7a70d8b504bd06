/** What is stored about one function while extensions are loaded one after the other, and what becomes of it over a
    whole run. */
module ExtensionViews {
  import opened Sequences
  import opened ExtensionEntries
  import opened ExtensionOverloads

  /** An overload of an extension without its label. */
  datatype FunctionOverload = FunctionOverload(parameters: seq<string>, returnType: string)

  function Labelled(extension: string, f: Function, os: seq<FunctionOverload>): seq<Overload> {
    seq(|os|, k requires 0 <= k < |os| => Overload(extension, f.name, f.type_, os[k].parameters, os[k].returnType))
  }

  /** The extensions that have added a function, and the overloads they contributed. */
  datatype History = History(owners: seq<string>, contributed: seq<Overload>)

  /** What is stored about one function: its entry in the function map, in the overload map, and in the map of all
      overloads; and its history. */
  datatype View = View(entry: Option<ExtensionFunction>, overloads: Option<seq<Overload>>, all: Option<seq<Overload>>,
                       history: History)

  const UNKNOWN: View := View(None, None, None, History([], []))

  // ----- one extension -----

  /** Adding a function for an extension: a function that has been seen moves to the overload map, with all overloads
      that were shown last. */
  function StepView(v: View, extension: string, f: Function, os: seq<Overload>): Option<View> {
    var h := History(v.history.owners + [extension], v.history.contributed + os);
    if v.overloads.Some? then Some(v.(overloads := Some(v.overloads.value + os), history := h))
    else if v.entry.Some? then
      if v.all.None? then None else Some(v.(entry := None, overloads := Some(v.all.value + os), history := h))
    else Some(v.(entry := Some(ExtensionFunction(extension, f.name, f.type_)), history := h))
  }

  /** Loading an extension shows overloads of the function, and adds the function unless it is there without it. */
  datatype Showing = Showing(extension: string, os: seq<Overload>, added: bool)

  function AfterShowing(v: View, f: Function, s: Showing): Option<View> {
    var stepped := if s.added then StepView(v, s.extension, f, s.os) else Some(v);
    if stepped.None? then None else Some(stepped.value.(all := Some(s.os)))
  }

  /** What an extension that is loaded shows of the function, if anything. */
  function ShowingOf(extension: string, f: Function, shown: map<Function, seq<FunctionOverload>>,
                     added: set<Function>): seq<Showing>
  {
    if f in shown then [Showing(extension, Labelled(extension, f, shown[f]), f in added)] else []
  }

  /** The maps tell how many extensions have added a function: none, one, or several. */
  predicate Classified(f: Function, v: View) {
    && (v.entry.Some? <==> |v.history.owners| == 1) && (v.overloads.Some? <==> |v.history.owners| >= 2)
    && (v.entry.Some? ==> v.entry.value == ExtensionFunction(v.history.owners[0], f.name, f.type_) && v.all.Some?)
  }

  /** The overloads a function is exported with, or will be once a second extension has it, are those contributed. */
  predicate Genuine(v: View) {
    && (v.overloads.Some? ==> v.overloads.value == v.history.contributed)
    && (v.entry.Some? ==> v.all == Some(v.history.contributed))
  }

  /** Loading an extension keeps the classification, and needs no overloads that are not there. */
  lemma ShowingKeepsClassified(v: View, f: Function, s: Showing)
    requires Classified(f, v)
    ensures AfterShowing(v, f, s).Some? && Classified(f, AfterShowing(v, f, s).value)
  {
  }

  /** When a function is added, its overloads stay genuine exactly if they were, or if there were none: a label that is
      wrong once stays wrong. */
  lemma StepKeepsGenuine(v: View, f: Function, s: Showing)
    requires Classified(f, v) && (v.history.owners == [] ==> v.history.contributed == []) && s.added
    ensures AfterShowing(v, f, s).Some?
    ensures Genuine(AfterShowing(v, f, s).value) <==> Genuine(v)
  {
    var c, os := v.history.contributed, s.os;
    assert v.overloads.Some? ==> (v.overloads.value + os == c + os <==> v.overloads.value == c) by {
      if v.overloads.Some? {
        SameEnd(v.overloads.value, c, os);
      }
    }
    assert v.all.Some? ==> (v.all.value + os == c + os <==> v.all.value == c) by {
      if v.all.Some? {
        SameEnd(v.all.value, c, os);
      }
    }
    assert c == [] ==> c + os == os;
  }

  lemma SameEnd(a: seq<Overload>, b: seq<Overload>, c: seq<Overload>)
    ensures a + c == b + c <==> a == b
  {
    if a + c == b + c {
      assert |a + c| == |b + c|;
      assert a == (a + c)[..|a|] && b == (b + c)[..|b|];
    }
  }

  /** Loading an extension that shows a function without adding it, because a dependency has it, keeps the overloads of
      the function genuine exactly if no single extension has the function so far, or its overloads are shown with the
      same label. */
  lemma ShowingRelabels(v: View, f: Function, s: Showing)
    requires Genuine(v) && !s.added
    ensures AfterShowing(v, f, s).Some?
    ensures Genuine(AfterShowing(v, f, s).value) <==> v.entry.None? || s.os == v.history.contributed
  {
  }

  // ----- a whole run -----

  /** What is stored after all that was shown of the function; nothing if some extension could not be added. */
  function RunView(v: View, f: Function, showings: seq<Showing>): Option<View> {
    if showings == [] then Some(v) else
    var before := RunView(v, f, showings[..|showings| - 1]);
    if before.None? then None else AfterShowing(before.value, f, showings[|showings| - 1])
  }

  /** The extensions that add the function, in order. */
  function Adders(showings: seq<Showing>): seq<string> {
    if showings == [] then [] else
    var last := showings[|showings| - 1];
    Adders(showings[..|showings| - 1]) + if last.added then [last.extension] else []
  }

  /** The overloads they contribute, in order. */
  function Contributed(showings: seq<Showing>): seq<Overload> {
    if showings == [] then [] else
    var last := showings[|showings| - 1];
    Contributed(showings[..|showings| - 1]) + if last.added then last.os else []
  }

  lemma {:induction false} ContributedExactly(showings: seq<Showing>, o: Overload)
    ensures o in Contributed(showings) <==> exists k :: 0 <= k < |showings| && showings[k].added && o in showings[k].os
    decreases |showings|
  {
    if showings != [] {
      var before := showings[..|showings| - 1];
      ContributedExactly(before, o);
      assert forall k :: 0 <= k < |before| ==> before[k] == showings[k];
    }
  }

  /** From nothing, any run succeeds; then the maps tell how many extensions have added the function, and its history is
      what the run says. */
  lemma {:induction false} RunIsClassified(f: Function, showings: seq<Showing>)
    ensures RunView(UNKNOWN, f, showings).Some?
    ensures var v := RunView(UNKNOWN, f, showings).value;
            && Classified(f, v) && v.history == History(Adders(showings), Contributed(showings))
            && (v.all == if showings == [] then None else Some(showings[|showings| - 1].os))
    decreases |showings|
  {
    if showings != [] {
      var before, last := showings[..|showings| - 1], showings[|showings| - 1];
      RunIsClassified(f, before);
      ShowingKeepsClassified(RunView(UNKNOWN, f, before).value, f, last);
    }
  }

  /** The second extension to add the function is loaded at position `k`, the first one at position `j`. */
  predicate FirstTwo(showings: seq<Showing>, j: nat, k: nat) {
    && j < k < |showings| && showings[j].added && showings[k].added
    && forall i :: 0 <= i < k && i != j ==> !showings[i].added
  }

  lemma {:induction false} OneAdder(showings: seq<Showing>, j: nat)
    requires j < |showings| && showings[j].added && forall i :: 0 <= i < |showings| && i != j ==> !showings[i].added
    ensures Contributed(showings) == showings[j].os && |Adders(showings)| == 1
    decreases |showings|
  {
    var before := showings[..|showings| - 1];
    if j < |before| {
      OneAdder(before, j);
    } else {
      NoAdder(before);
      assert [] + showings[j].os == showings[j].os;
    }
  }

  lemma {:induction false} NoAdder(showings: seq<Showing>)
    requires forall i :: 0 <= i < |showings| ==> !showings[i].added
    ensures Contributed(showings) == [] && Adders(showings) == []
    decreases |showings|
  {
    if showings != [] {
      NoAdder(showings[..|showings| - 1]);
    }
  }

  /** For any run in which several extensions add a function: it is exported with the overloads they contributed exactly
      if what was shown last before the second of them is what the first of them showed. */
  lemma {:induction false} ExportedAreContributed(f: Function, showings: seq<Showing>, j: nat, k: nat)
    requires FirstTwo(showings, j, k)
    ensures RunView(UNKNOWN, f, showings).Some? && RunView(UNKNOWN, f, showings).value.overloads.Some?
    ensures RunView(UNKNOWN, f, showings).value.overloads.value == Contributed(showings)
       <==> showings[k - 1].os == showings[j].os
    decreases |showings|
  {
    var before, last := showings[..|showings| - 1], showings[|showings| - 1];
    RunIsClassified(f, before);
    RunIsClassified(f, showings);
    var v := RunView(UNKNOWN, f, before).value;
    if k < |before| {
      assert FirstTwo(before, j, k);
      ExportedAreContributed(f, before, j, k);
      SameEnd(v.overloads.value, Contributed(before), last.os);
    } else {
      OneAdder(before, j);
      SameEnd(v.all.value, Contributed(before), last.os);
    }
  }

  /** With an entry parsed from the file, a run fails exactly if the first extension that shows the function adds it. */
  lemma {:induction false} ParsedEntryFails(v: View, f: Function, showings: seq<Showing>)
    requires v.entry.Some? && v.overloads.None? && v.all.None?
    ensures RunView(v, f, showings).None? <==> showings != [] && showings[0].added
    decreases |showings|
  {
    if |showings| == 1 {
      assert showings[..0] == [];
    } else if |showings| > 1 {
      var before := showings[..|showings| - 1];
      ParsedEntryFails(v, f, before);
      if RunView(v, f, before).Some? {
        ShownOnce(v, f, before);
      }
    }
  }

  lemma {:induction false} ShownOnce(v: View, f: Function, showings: seq<Showing>)
    requires showings != [] && RunView(v, f, showings).Some?
    ensures RunView(v, f, showings).value.all.Some?
  {
  }

  /** Overloads parsed from the file come first, and those of all that add the function behind them. */
  lemma {:induction false} ParsedOverloadsGrow(v: View, f: Function, showings: seq<Showing>)
    requires v.overloads.Some?
    ensures RunView(v, f, showings).Some?
    ensures RunView(v, f, showings).value.overloads == Some(v.overloads.value + Contributed(showings))
    decreases |showings|
  {
    if showings == [] {
      assert v.overloads.value + [] == v.overloads.value;
    } else {
      var before, last := showings[..|showings| - 1], showings[|showings| - 1];
      ParsedOverloadsGrow(v, f, before);
      assert v.overloads.value + Contributed(before) + last.os == v.overloads.value + (Contributed(before) + last.os);
      assert Contributed(before) + [] == Contributed(before);
    }
  }

  lemma RunSnoc(v: View, f: Function, showings: seq<Showing>, more: seq<Showing>)
    requires |more| <= 1
    ensures RunView(v, f, showings + more) ==
              var before := RunView(v, f, showings);
              if more == [] || before.None? then before else AfterShowing(before.value, f, more[0])
  {
    if more == [] {
      assert showings + more == showings;
    } else {
      assert (showings + more)[..|showings|] == showings;
    }
  }
}
