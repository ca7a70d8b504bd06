/** The tokens of one grammar rule and what they mean: the stack of lists and choices that reads them, against an
    independent grammar of items. */
module PegGrammar {
  import opened Sequences

  datatype PegToken =
    | LITERAL(text: string)
    | REFERENCE(text: string)
    | FUNCTION_CALL(text: string)
    | OPERATOR(op: char)
    | REGEX(text: string)

  /** A rule: the names of its parameters, and its body. */
  datatype Rule = Rule(parameters: seq<string>, tokens: seq<PegToken>)

  type Rules = map<string, Rule>

  datatype Item =
    | Literal(text: string)
    | Reference(name: string)
    | Call(name: string, arguments: seq<Item>)
    | Group(items: seq<Item>)
    | Optional(item: Item)
    | Star(item: Item)
    | Choice(first: Item, second: Option<Item>)

  datatype GrammarError =
    | CloseWithoutOpen | NoListToRepeat | NothingToRepeat | NoListToChoose | NothingToChoose
    | UnknownOperator | RegexUnsupported | UnclosedBracket

  type GrammarResult<+T> = Result<T, GrammarError>

  // ----- the stack -----

  /** A list being filled, and the function it holds the arguments of; or a choice that waits for its other side. */
  datatype Frame = ListFrame(items: seq<Item>, functionName: Option<string>) | ChoiceFrame(first: Item)

  predicate ValidFrames(frames: seq<Frame>) {
    && |frames| > 0 && frames[0].ListFrame? && frames[0].functionName == None
    && (forall k :: 0 < k < |frames| && frames[k].ChoiceFrame? ==> frames[k - 1].ListFrame?)
  }

  function Append(frames: seq<Frame>, x: Item): (r: seq<Frame>)
    requires ValidFrames(frames) && frames[|frames| - 1].ListFrame?
    ensures ValidFrames(r) && |r| == |frames| && r[|r| - 1].ListFrame?
  {
    var top := |frames| - 1;
    frames[top := ListFrame(frames[top].items + [x], frames[top].functionName)]
  }

  /** Adds an item to the top frame; a choice is complete with it and leaves the stack. */
  function AddItem(frames: seq<Frame>, x: Item): (r: seq<Frame>)
    requires ValidFrames(frames)
    ensures ValidFrames(r) && r[|r| - 1].ListFrame?
  {
    var top := |frames| - 1;
    if frames[top].ListFrame? then Append(frames, x)
    else Append(frames[..top], Choice(frames[top].first, Some(x)))
  }

  /** A closing bracket ends whatever is on top. A choice still waiting is in its list already, and is put there
      once more. */
  function CloseBracket(frames: seq<Frame>): (r: GrammarResult<seq<Frame>>)
    requires ValidFrames(frames)
    ensures r.Ok? ==> ValidFrames(r.value)
  {
    if |frames| <= 1 then Err(CloseWithoutOpen) else
    var top := frames[|frames| - 1];
    var rest := frames[..|frames| - 1];
    match top
    case ListFrame(items, None) => Ok(AddItem(rest, Group(items)))
    case ListFrame(items, Some(f)) => Ok(AddItem(rest, Call(f, items)))
    case ChoiceFrame(first) => Ok(Append(Append(rest, Choice(first, None)), Choice(first, None)))
  }

  /** `?` and `*` take the last item of the top list. */
  function Wrap(frames: seq<Frame>, star: bool): (r: GrammarResult<seq<Frame>>)
    requires ValidFrames(frames)
    ensures r.Ok? ==> ValidFrames(r.value)
  {
    var top := |frames| - 1;
    if frames[top].ChoiceFrame? then Err(NoListToRepeat)
    else if frames[top].items == [] then Err(NothingToRepeat)
    else
      var items := frames[top].items;
      var last := |items| - 1;
      var wrapped := if star then Star(items[last]) else Optional(items[last]);
      Ok(frames[top := ListFrame(items[..last] + [wrapped], frames[top].functionName)])
  }

  /** `/` takes the last item of the top list and waits for the next one. */
  function OpenChoice(frames: seq<Frame>): (r: GrammarResult<seq<Frame>>)
    requires ValidFrames(frames)
    ensures r.Ok? ==> ValidFrames(r.value)
  {
    var top := |frames| - 1;
    if frames[top].ChoiceFrame? then Err(NoListToChoose)
    else if frames[top].items == [] then Err(NothingToChoose)
    else
      var items := frames[top].items;
      var last := |items| - 1;
      Ok(frames[top := ListFrame(items[..last], frames[top].functionName)] + [ChoiceFrame(items[last])])
  }

  function Step(frames: seq<Frame>, t: PegToken): (r: GrammarResult<seq<Frame>>)
    requires ValidFrames(frames)
    ensures r.Ok? ==> ValidFrames(r.value)
  {
    match t
    case LITERAL(text) => Ok(AddItem(frames, Literal(text)))
    case REFERENCE(text) => Ok(AddItem(frames, Reference(text)))
    case FUNCTION_CALL(text) => Ok(frames + [ListFrame([], Some(text))])
    case REGEX(_) => Err(RegexUnsupported)
    case OPERATOR(op) =>
      if op == '?' then Wrap(frames, false)
      else if op == '*' then Wrap(frames, true)
      else if op == '/' then OpenChoice(frames)
      else if op == '(' then Ok(frames + [ListFrame([], None)])
      else if op == ')' then CloseBracket(frames)
      else if op == '!' then Ok(frames)
      else Err(UnknownOperator)
  }

  function Run(frames: seq<Frame>, tokens: seq<PegToken>): (r: GrammarResult<seq<Frame>>)
    requires ValidFrames(frames)
    ensures r.Ok? ==> ValidFrames(r.value)
    decreases |tokens|
  {
    if tokens == [] then Ok(frames) else
    var next := Step(frames, tokens[0]);
    if next.Err? then next else Run(next.value, tokens[1..])
  }

  const EMPTY_STACK: seq<Frame> := [ListFrame([], None)]

  /** The items of a rule, or why the rule is refused. */
  function Parse(tokens: seq<PegToken>): GrammarResult<seq<Item>> {
    var end := Run(EMPTY_STACK, tokens);
    if end.Err? then Err(end.error)
    else if |end.value| != 1 then Err(UnclosedBracket)
    else Ok(end.value[0].items)
  }

  // ----- the grammar of items -----

  function Bracketed(open: PegToken, body: seq<PegToken>): seq<PegToken> {
    [open] + body + [OPERATOR(')')]
  }

  function PrintItem(x: Item): seq<PegToken> {
    match x
    case Literal(text) => [LITERAL(text)]
    case Reference(name) => [REFERENCE(name)]
    case Call(name, arguments) => Bracketed(FUNCTION_CALL(name), PrintItems(arguments))
    case Group(items) => Bracketed(OPERATOR('('), PrintItems(items))
    case Optional(item) => PrintItem(item) + [OPERATOR('?')]
    case Star(item) => PrintItem(item) + [OPERATOR('*')]
    case Choice(first, None) => PrintItem(first) + [OPERATOR('/')]
    case Choice(first, Some(second)) => PrintItem(first) + [OPERATOR('/')] + PrintItem(second)
  }

  function PrintItems(xs: seq<Item>): seq<PegToken> {
    if xs == [] then [] else PrintItems(xs[..|xs| - 1]) + PrintItem(xs[|xs| - 1])
  }

  /** What may stand to the right of `/`. */
  predicate Primary(x: Item) {
    x.Literal? || x.Reference? || x.Call? || x.Group?
  }

  /** Every choice has a right operand, and one that was read before any `?`, `*` or `/` behind it. */
  predicate Proper(x: Item) {
    match x
    case Literal(_) => true
    case Reference(_) => true
    case Call(_, arguments) => AllProper(arguments)
    case Group(items) => AllProper(items)
    case Optional(item) => Proper(item)
    case Star(item) => Proper(item)
    case Choice(first, second) => Proper(first) && second.Some? && Primary(second.value) && Proper(second.value)
  }

  predicate AllProper(xs: seq<Item>) {
    forall k :: 0 <= k < |xs| ==> Proper(xs[k])
  }

  // ----- printed items are read back -----

  lemma {:induction false} RunConcat(frames: seq<Frame>, a: seq<PegToken>, b: seq<PegToken>)
    requires ValidFrames(frames)
    ensures var r := Run(frames, a); Run(frames, a + b) == if r.Err? then r else Run(r.value, b)
    decreases |a|
  {
    if a == [] {
      assert a + b == b;
    } else {
      assert (a + b)[1..] == a[1..] + b;
      var next := Step(frames, a[0]);
      if next.Ok? {
        RunConcat(next.value, a[1..], b);
      }
    }
  }

  lemma RunOne(frames: seq<Frame>, t: PegToken)
    requires ValidFrames(frames)
    ensures Run(frames, [t]) == Step(frames, t)
  {
    if Step(frames, t).Ok? {
      assert [t][1..] == [];
    }
  }

  lemma RunThenOne(frames: seq<Frame>, a: seq<PegToken>, t: PegToken)
    requires ValidFrames(frames)
    ensures var r := Run(frames, a); Run(frames, a + [t]) == if r.Err? then r else Step(r.value, t)
  {
    RunConcat(frames, a, [t]);
    if Run(frames, a).Ok? {
      RunOne(Run(frames, a).value, t);
    }
  }

  /** Reading one printed item adds it to the stack. */
  lemma {:induction false} RunPrinted(frames: seq<Frame>, x: Item)
    requires ValidFrames(frames) && Proper(x)
    requires frames[|frames| - 1].ListFrame? || Primary(x)
    ensures Run(frames, PrintItem(x)) == Ok(AddItem(frames, x))
    decreases x, 0
  {
    hide Run, AddItem, PrintItems, Wrap, OpenChoice, CloseBracket, ValidFrames;
    match x {
      case Literal(text) => RunOne(frames, LITERAL(text));
      case Reference(name) => RunOne(frames, REFERENCE(name));
      case Call(name, arguments) => RunBracketed(frames, FUNCTION_CALL(name), Some(name), arguments);
      case Group(items) => RunBracketed(frames, OPERATOR('('), None, items);
      case Optional(item) =>
        RunPrinted(frames, item);
        RunThenOne(frames, PrintItem(item), OPERATOR('?'));
        WrapLast(frames, item, false);
      case Star(item) =>
        RunPrinted(frames, item);
        RunThenOne(frames, PrintItem(item), OPERATOR('*'));
        WrapLast(frames, item, true);
      case Choice(first, second) =>
        RunPrinted(frames, first);
        RunThenOne(frames, PrintItem(first), OPERATOR('/'));
        ChooseLast(frames, first, second.value);
        RunConcat(frames, PrintItem(first) + [OPERATOR('/')], PrintItem(second.value));
        RunPrinted(frames + [ChoiceFrame(first)], second.value);
    }
  }

  lemma ChooseLast(frames: seq<Frame>, x: Item, y: Item)
    requires ValidFrames(frames) && frames[|frames| - 1].ListFrame?
    ensures OpenChoice(AddItem(frames, x)) == Ok(frames + [ChoiceFrame(x)])
    ensures AddItem(frames + [ChoiceFrame(x)], y) == AddItem(frames, Choice(x, Some(y)))
  {
    var top := |frames| - 1;
    var added := AddItem(frames, x);
    assert added[top].items[..|frames[top].items|] == frames[top].items;
    assert added[top := frames[top]] == frames;
    assert (frames + [ChoiceFrame(x)])[..|frames|] == frames;
  }

  lemma WrapLast(frames: seq<Frame>, x: Item, star: bool)
    requires ValidFrames(frames) && frames[|frames| - 1].ListFrame?
    ensures Wrap(AddItem(frames, x), star) == Ok(AddItem(frames, if star then Star(x) else Optional(x)))
  {
    var top := |frames| - 1;
    var added := AddItem(frames, x);
    var wrapped := if star then Star(x) else Optional(x);
    assert added[top].items[..|frames[top].items|] == frames[top].items;
    assert Wrap(added, star).value == AddItem(frames, wrapped);
  }

  lemma {:induction false} RunBracketed(frames: seq<Frame>, open: PegToken, f: Option<string>, xs: seq<Item>)
    requires ValidFrames(frames) && AllProper(xs)
    requires open == if f == None then OPERATOR('(') else FUNCTION_CALL(f.value)
    ensures Run(frames, Bracketed(open, PrintItems(xs))) ==
              Ok(AddItem(frames, if f == None then Group(xs) else Call(f.value, xs)))
    decreases xs, 1
  {
    var inner := frames + [ListFrame([], f)];
    RunOne(frames, open);
    RunConcat(frames, [open], PrintItems(xs));
    RunAllPrinted(inner, xs);
    RunThenOne(frames, [open] + PrintItems(xs), OPERATOR(')'));
    assert (frames + [ListFrame(xs, f)])[..|frames|] == frames;
  }

  lemma {:induction false} RunAllPrinted(frames: seq<Frame>, xs: seq<Item>)
    requires ValidFrames(frames) && AllProper(xs)
    requires frames[|frames| - 1].ListFrame? && frames[|frames| - 1].items == []
    ensures Run(frames, PrintItems(xs)) == Ok(frames[|frames| - 1 := frames[|frames| - 1].(items := xs)])
    decreases xs, 0
  {
    if xs == [] {
      assert frames[|frames| - 1 := frames[|frames| - 1].(items := xs)] == frames;
    } else {
      var top, most, last := |frames| - 1, xs[..|xs| - 1], xs[|xs| - 1];
      var before := frames[top := frames[top].(items := most)];
      RunAllPrinted(frames, most);
      RunConcat(frames, PrintItems(most), PrintItem(last));
      RunPrinted(before, last);
      assert most + [last] == xs;
      assert AddItem(before, last) == frames[top := frames[top].(items := xs)];
    }
  }

  /** Printing and reading gives the items back. */
  lemma ParsePrinted(xs: seq<Item>)
    requires AllProper(xs)
    ensures Parse(PrintItems(xs)) == Ok(xs)
  {
    RunAllPrinted(EMPTY_STACK, xs);
  }

  // ----- what is read was printed -----

  /** The tokens without `!`, which the stack ignores. */
  function WithoutNots(tokens: seq<PegToken>): seq<PegToken> {
    if tokens == [] then [] else
    var last := tokens[|tokens| - 1];
    WithoutNots(tokens[..|tokens| - 1]) + if last == OPERATOR('!') then [] else [last]
  }

  function Opens(t: PegToken): int {
    if t.FUNCTION_CALL? || t == OPERATOR('(') then 1 else if t == OPERATOR(')') then -1 else 0
  }

  /** Opening brackets less closing brackets. */
  function Balance(tokens: seq<PegToken>): int {
    if tokens == [] then 0 else Balance(tokens[..|tokens| - 1]) + Opens(tokens[|tokens| - 1])
  }

  function Lists(frames: seq<Frame>): int {
    if frames == [] then 0 else Lists(frames[..|frames| - 1]) + if frames[|frames| - 1].ListFrame? then 1 else 0
  }

  function ShowFrame(f: Frame, bottom: bool): seq<PegToken> {
    match f
    case ChoiceFrame(first) => PrintItem(first) + [OPERATOR('/')]
    case ListFrame(items, name) =>
      (if bottom then [] else [if name == None then OPERATOR('(') else FUNCTION_CALL(name.value)]) + PrintItems(items)
  }

  /** The tokens that lead to a stack. */
  function Show(frames: seq<Frame>): seq<PegToken> {
    if frames == [] then []
    else Show(frames[..|frames| - 1]) + ShowFrame(frames[|frames| - 1], |frames| == 1)
  }

  predicate ProperFrame(f: Frame) {
    if f.ListFrame? then AllProper(f.items) else Proper(f.first)
  }

  predicate ProperFrames(frames: seq<Frame>) {
    forall k :: 0 <= k < |frames| ==> ProperFrame(frames[k])
  }

  /** What there is to say of a stack, in one value. */
  datatype Account = Account(tokens: seq<PegToken>, lists: int, proper: bool)

  function Accounted(frames: seq<Frame>): Account {
    Account(Show(frames), Lists(frames), ProperFrames(frames))
  }

  /** The account of the frames below the top one, and of the top one. */
  lemma Top(rest: seq<Frame>, f: Frame)
    ensures Accounted(rest + [f]) ==
              Account(Show(rest) + ShowFrame(f, rest == []), Lists(rest) + (if f.ListFrame? then 1 else 0),
                      ProperFrames(rest) && ProperFrame(f))
  {
    assert (rest + [f])[..|rest|] == rest;
  }

  lemma ItemsSnoc(xs: seq<Item>, x: Item)
    ensures PrintItems(xs + [x]) == PrintItems(xs) + PrintItem(x)
    ensures AllProper(xs + [x]) <==> AllProper(xs) && Proper(x)
  {
    assert (xs + [x])[..|xs|] == xs;
    assert (xs + [x])[|xs|] == x;
    assert forall k :: 0 <= k < |xs| ==> (xs + [x])[k] == xs[k];
  }

  /** Adding an item reads as its tokens. */
  lemma AppendShows(rest: seq<Frame>, items: seq<Item>, name: Option<string>, x: Item)
    ensures var before, after := Accounted(rest + [ListFrame(items, name)]), Accounted(rest + [ListFrame(items + [x], name)]);
            after == Account(before.tokens + PrintItem(x), before.lists, before.proper && Proper(x))
  {
    Top(rest, ListFrame(items, name));
    Top(rest, ListFrame(items + [x], name));
    ItemsSnoc(items, x);
    hide Show, Lists, ProperFrames, PrintItems, PrintItem, Proper, AllProper;
  }

  lemma AddItemShows(frames: seq<Frame>, x: Item)
    requires ValidFrames(frames)
    ensures var before, after := Accounted(frames), Accounted(AddItem(frames, x));
            && after.tokens == before.tokens + PrintItem(x) && after.lists == before.lists
            && (Proper(x) && Primary(x) && before.proper ==> after.proper)
  {
    hide Show, Lists, ProperFrames, PrintItems, AllProper;
    var rest, top := frames[..|frames| - 1], frames[|frames| - 1];
    assert rest + [top] == frames;
    if top.ListFrame? {
      AppendShows(rest, top.items, top.functionName, x);
      assert AddItem(frames, x) == rest + [ListFrame(top.items + [x], top.functionName)];
    } else {
      Top(rest, top);
      var low, list := rest[..|rest| - 1], rest[|rest| - 1];
      var whole := Choice(top.first, Some(x));
      assert low + [list] == rest;
      AppendShows(low, list.items, list.functionName, whole);
      assert AddItem(frames, x) == low + [ListFrame(list.items + [whole], list.functionName)];
    }
  }

  lemma WrapShows(frames: seq<Frame>, star: bool)
    requires ValidFrames(frames) && Wrap(frames, star).Ok?
    ensures var before, after := Accounted(frames), Accounted(Wrap(frames, star).value);
            after == Account(before.tokens + [OPERATOR(if star then '*' else '?')], before.lists, before.proper)
  {
    hide Show, Lists, ProperFrames, PrintItems, AllProper;
    var rest, top := frames[..|frames| - 1], frames[|frames| - 1];
    var most, last := top.items[..|top.items| - 1], top.items[|top.items| - 1];
    var wrapped := if star then Star(last) else Optional(last);
    AppendShows(rest, most, top.functionName, last);
    AppendShows(rest, most, top.functionName, wrapped);
    assert most + [last] == top.items;
    assert rest + [top] == frames;
    assert Wrap(frames, star).value == rest + [ListFrame(most + [wrapped], top.functionName)];
  }

  lemma OpenChoiceShows(frames: seq<Frame>)
    requires ValidFrames(frames) && OpenChoice(frames).Ok?
    ensures var before, after := Accounted(frames), Accounted(OpenChoice(frames).value);
            after == Account(before.tokens + [OPERATOR('/')], before.lists, before.proper)
  {
    hide Show, Lists, ProperFrames, PrintItems, AllProper;
    var rest, top := frames[..|frames| - 1], frames[|frames| - 1];
    var most, last := top.items[..|top.items| - 1], top.items[|top.items| - 1];
    AppendShows(rest, most, top.functionName, last);
    assert most + [last] == top.items;
    assert rest + [top] == frames;
    Top(rest + [ListFrame(most, top.functionName)], ChoiceFrame(last));
    assert OpenChoice(frames).value == rest + [ListFrame(most, top.functionName)] + [ChoiceFrame(last)];
  }

  /** Closing a list closes a bracket; closing a choice leaves all lists open. */
  lemma CloseShows(frames: seq<Frame>)
    requires ValidFrames(frames) && CloseBracket(frames).Ok?
    ensures var before, after := Accounted(frames), Accounted(CloseBracket(frames).value);
            if frames[|frames| - 1].ListFrame? then
              && after.tokens == before.tokens + [OPERATOR(')')] && after.lists == before.lists - 1
              && (before.proper ==> after.proper)
            else after.lists == before.lists
  {
    hide Show, Lists, ProperFrames, PrintItems, AllProper, AddItem;
    var rest, top := frames[..|frames| - 1], frames[|frames| - 1];
    assert rest + [top] == frames;
    Top(rest, top);
    if top.ListFrame? {
      AddItemShows(rest, if top.functionName == None then Group(top.items) else Call(top.functionName.value, top.items));
    } else {
      var low, list := rest[..|rest| - 1], rest[|rest| - 1];
      var half := Choice(top.first, None);
      assert low + [list] == rest;
      AppendShows(low, list.items, list.functionName, half);
      AppendShows(low, list.items + [half], list.functionName, half);
      assert CloseBracket(frames).value == low + [ListFrame(list.items + [half] + [half], list.functionName)];
    }
  }

  /** A stack after some tokens: there are never fewer open lists than open brackets, and as long as there are not
      more either, the stack is exactly what the tokens say. */
  predicate Reads(frames: seq<Frame>, seen: seq<PegToken>) {
    && Lists(frames) - 1 >= Balance(seen)
    && (Lists(frames) - 1 == Balance(seen) ==> ProperFrames(frames) && Show(frames) == WithoutNots(seen))
  }

  /** Every token is read as itself, except for `!`, and for a closing bracket that ends a choice. */
  lemma StepShows(frames: seq<Frame>, t: PegToken)
    requires ValidFrames(frames) && Step(frames, t).Ok?
    ensures var before, after := Accounted(frames), Accounted(Step(frames, t).value);
            if t == OPERATOR(')') && frames[|frames| - 1].ChoiceFrame? then after.lists == before.lists
            else
              && after.tokens == before.tokens + (if t == OPERATOR('!') then [] else [t])
              && after.lists == before.lists + Opens(t) && (before.proper ==> after.proper)
  {
    assert |frames| > 0;
    hide AddItem, Wrap, OpenChoice, CloseBracket, Accounted, ValidFrames;
    match t {
      case LITERAL(text) => AddItemShows(frames, Literal(text));
      case REFERENCE(text) => AddItemShows(frames, Reference(text));
      case FUNCTION_CALL(text) => PushShows(frames, Some(text));
      case REGEX(_) =>
      case OPERATOR(op) => OperatorShows(frames, op);
    }
  }

  lemma OperatorShows(frames: seq<Frame>, op: char)
    requires ValidFrames(frames) && Step(frames, OPERATOR(op)).Ok?
    ensures var t := OPERATOR(op);
            var before, after := Accounted(frames), Accounted(Step(frames, t).value);
            if op == ')' && frames[|frames| - 1].ChoiceFrame? then after.lists == before.lists
            else
              && after.tokens == before.tokens + (if op == '!' then [] else [t])
              && after.lists == before.lists + Opens(t) && (before.proper ==> after.proper)
  {
    assert |frames| > 0;
    hide AddItem, Wrap, OpenChoice, CloseBracket, Accounted, ValidFrames;
    if op == '?' {
      WrapShows(frames, false);
    } else if op == '*' {
      WrapShows(frames, true);
    } else if op == '/' {
      OpenChoiceShows(frames);
    } else if op == '(' {
      PushShows(frames, None);
    } else if op == ')' {
      CloseShows(frames);
    }
  }

  lemma OneMoreToken(seen: seq<PegToken>, t: PegToken)
    ensures Balance(seen + [t]) == Balance(seen) + Opens(t)
    ensures WithoutNots(seen + [t]) == WithoutNots(seen) + if t == OPERATOR('!') then [] else [t]
  {
    assert (seen + [t])[..|seen|] == seen;
  }

  lemma StepReads(frames: seq<Frame>, seen: seq<PegToken>, t: PegToken)
    requires ValidFrames(frames) && Reads(frames, seen) && Step(frames, t).Ok?
    ensures Reads(Step(frames, t).value, seen + [t])
  {
    hide Step, Show, Lists, ProperFrames, ValidFrames, Balance, WithoutNots;
    StepShows(frames, t);
    OneMoreToken(seen, t);
  }

  lemma PushShows(frames: seq<Frame>, name: Option<string>)
    requires ValidFrames(frames)
    ensures var before, after := Accounted(frames), Accounted(frames + [ListFrame([], name)]);
            after == Account(before.tokens + [if name == None then OPERATOR('(') else FUNCTION_CALL(name.value)],
                             before.lists + 1, before.proper)
  {
    Top(frames, ListFrame([], name));
    hide Show, Lists, ProperFrames;
  }

  lemma RunTurn(frames: seq<Frame>, tokens: seq<PegToken>)
    requires ValidFrames(frames) && tokens != [] && Run(frames, tokens).Ok?
    ensures var next := Step(frames, tokens[0]);
            next.Ok? && ValidFrames(next.value) && Run(frames, tokens) == Run(next.value, tokens[1..])
  {
  }

  lemma {:induction false} RunReads(frames: seq<Frame>, seen: seq<PegToken>, tokens: seq<PegToken>)
    requires ValidFrames(frames) && Reads(frames, seen) && Run(frames, tokens).Ok?
    ensures Reads(Run(frames, tokens).value, seen + tokens)
    decreases |tokens|
  {
    if tokens == [] {
      assert seen + tokens == seen;
    } else {
      hide *;
      var t, rest := tokens[0], tokens[1..];
      assert seen + tokens == (seen + [t]) + rest;
      RunTurn(frames, tokens);
      StepReads(frames, seen, t);
      RunReads(Step(frames, t).value, seen + [t], rest);
    }
  }

  lemma NotsAreSkipped()
    ensures forall frames :: ValidFrames(frames) ==> Step(frames, OPERATOR('!')) == Ok(frames)
  {
  }

  lemma {:induction false} RunIgnoresNots(frames: seq<Frame>, tokens: seq<PegToken>)
    requires ValidFrames(frames)
    ensures Run(frames, WithoutNots(tokens)) == Run(frames, tokens)
    decreases |tokens|
  {
    if tokens == [] {
    } else {
      var most, last := tokens[..|tokens| - 1], tokens[|tokens| - 1];
      assert most + [last] == tokens;
      OneMoreToken(most, last);
      NotsAreSkipped();
      hide Run, Step, WithoutNots, ValidFrames;
      RunIgnoresNots(frames, most);
      RunThenOne(frames, most, last);
      if last == OPERATOR('!') {
        assert WithoutNots(tokens) == WithoutNots(most);
      } else {
        RunThenOne(frames, WithoutNots(most), last);
      }
    }
  }

  /** A rule is read as printed items exactly when its brackets balance; it is never read with more opening than
      closing brackets. */
  lemma ParsedIsPrinted(tokens: seq<PegToken>)
    requires Parse(tokens).Ok?
    ensures var xs := Parse(tokens).value;
            Balance(tokens) <= 0 && (Balance(tokens) == 0 ==> AllProper(xs) && PrintItems(xs) == WithoutNots(tokens))
  {
    assert Reads(EMPTY_STACK, []) by {
      assert Show(EMPTY_STACK) == Show([]) + ShowFrame(EMPTY_STACK[0], true) == [];
      assert Lists(EMPTY_STACK) == Lists([]) + 1;
    }
    RunReads(EMPTY_STACK, [], tokens);
    var end := Run(EMPTY_STACK, tokens).value;
    assert [] + tokens == tokens;
    assert end[..0] == [];
    assert Lists(end) == 1;
  }

  /** With no more closing than opening brackets, reading succeeds exactly on the printed items, and gives them
      back: `?`, `*` and `/` take the last item only, brackets balance, and every `/` has a right operand. */
  lemma ParseExactly(tokens: seq<PegToken>, xs: seq<Item>)
    requires Balance(tokens) >= 0
    ensures Parse(tokens) == Ok(xs) <==> AllProper(xs) && PrintItems(xs) == WithoutNots(tokens)
  {
    if Parse(tokens) == Ok(xs) {
      ParsedIsPrinted(tokens);
    }
    if AllProper(xs) && PrintItems(xs) == WithoutNots(tokens) {
      ParsePrinted(xs);
      RunIgnoresNots(EMPTY_STACK, tokens);
    }
  }

  /** Without that check, `( A / ) )` is read as a group that holds the half choice twice. */
  lemma HalfChoiceTwice()
    ensures var half := Choice(Reference("A"), None);
            Parse([OPERATOR('('), REFERENCE("A"), OPERATOR('/'), OPERATOR(')'), OPERATOR(')')])
              == Ok([Group([half, half])])
  {
    var half := Choice(Reference("A"), None);
    var bottom := ListFrame([], None);
    var s0, s2 := [bottom, bottom], [bottom, bottom, ChoiceFrame(Reference("A"))];
    var s1, s3 := [bottom, ListFrame([Reference("A")], None)], [bottom, ListFrame([half, half], None)];
    var end := [ListFrame([Group([half, half])], None)];
    var tokens := [OPERATOR('('), REFERENCE("A"), OPERATOR('/'), OPERATOR(')'), OPERATOR(')')];
    assert Step(EMPTY_STACK, tokens[0]).value == s0;
    assert Step(s0, tokens[1]).value == s1 by {
      assert [] + [Reference("A")] == [Reference("A")];
    }
    assert Step(s1, tokens[2]).value == s2 by {
      assert s1[1].items[..0] == [];
    }
    CloseHalf(Reference("A"));
    assert Step(s3, tokens[4]).value == end by {
      assert s3[..1] == EMPTY_STACK;
      assert [] + [Group([half, half])] == [Group([half, half])];
    }
    hide Step;
    RunPath([EMPTY_STACK, s0, s1, s2, s3, end], tokens);
  }

  lemma CloseHalf(x: Item)
    ensures var bottom, half := ListFrame([], None), Choice(x, None);
            CloseBracket([bottom, bottom, ChoiceFrame(x)]) == Ok([bottom, ListFrame([half, half], None)])
  {
    var bottom, half := ListFrame([], None), Choice(x, None);
    assert [bottom, bottom, ChoiceFrame(x)][..2] == [bottom, bottom];
    assert [] + [half] == [half] && [half] + [half] == [half, half];
    assert Append([bottom, bottom], half) == [bottom, ListFrame([half], None)];
    assert Append([bottom, ListFrame([half], None)], half) == [bottom, ListFrame([half, half], None)];
  }

  /** Reading tokens one by one. */
  lemma {:induction false} RunPath(stacks: seq<seq<Frame>>, tokens: seq<PegToken>)
    requires |stacks| == |tokens| + 1 && forall k :: 0 <= k < |stacks| ==> ValidFrames(stacks[k])
    requires forall k :: 0 <= k < |tokens| ==> Step(stacks[k], tokens[k]) == Ok(stacks[k + 1])
    ensures Run(stacks[0], tokens) == Ok(stacks[|tokens|])
  {
    if tokens != [] {
      var rest, later := stacks[1..], tokens[1..];
      assert forall k :: 0 <= k < |later| ==> Step(rest[k], later[k]) == Ok(rest[k + 1]) by {
        forall k | 0 <= k < |later| ensures Step(rest[k], later[k]) == Ok(rest[k + 1]) {
          assert Step(stacks[k + 1], tokens[k + 1]) == Ok(stacks[k + 2]);
        }
      }
      RunPath(rest, later);
      assert Step(stacks[0], tokens[0]) == Ok(stacks[1]);
    }
  }

  // ----- the bracket count kept while a rule is tokenized -----

  /** No prefix of a rule closes more brackets than it opened. */
  predicate NeverOverclosed(tokens: seq<PegToken>) {
    forall k :: 0 <= k <= |tokens| ==> Balance(tokens[..k]) >= 0
  }
}
