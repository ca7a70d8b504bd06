/** JSON paths: how a path text is read step by step, and what the steps mean on a value. */
module JsonPathSpec {
  import opened Sequences

  // ----- values -----

  datatype Json = Scalar(id: int) | Arr(elements: seq<Json>) | Obj(members: seq<Member>)

  datatype Member = Member(key: string, value: Json)

  function Values(ms: seq<Member>): seq<Json> {
    if ms == [] then [] else [ms[0].value] + Values(ms[1..])
  }

  /** The elements of an array or the member values of an object, in order. */
  function Children(v: Json): seq<Json> {
    match v
    case Scalar(_) => []
    case Arr(es) => es
    case Obj(ms) => Values(ms)
  }

  /** The value of the first member with the key. */
  function ObjGet(ms: seq<Member>, key: string): Option<Json> {
    if ms == [] then None else if ms[0].key == key then Some(ms[0].value) else ObjGet(ms[1..], key)
  }

  function ArrGet(es: seq<Json>, index: nat): Option<Json> {
    if index < |es| then Some(es[index]) else None
  }

  // ----- steps and their meaning -----

  datatype Step = Key(key: string) | AnyKey | Index(index: nat, fromBack: bool) | AnyIndex | Descend

  const TWO_TO_THE_64: nat := 0x1_0000_0000_0000_0000

  /** The sentinel that ReadArrayIndex returns for a wildcard. */
  const INVALID_INDEX: nat := TWO_TO_THE_64 - 1

  /** Counting from the back is subtraction of unsigned 64-bit numbers; index 0 from the back stays index 0. */
  function ResolveIndex(length: nat, index: nat, fromBack: bool): nat {
    if fromBack && index != 0 then (length - index) % TWO_TO_THE_64 else index
  }

  /** The single value a plain step selects. */
  function Lookup(step: Step, v: Json): Option<Json> {
    match step
    case Key(key) => if v.Obj? then ObjGet(v.members, key) else None
    case Index(index, fromBack) => if v.Arr? then ArrGet(v.elements, ResolveIndex(|v.elements|, index, fromBack)) else None
    case _ => None
  }

  predicate Plain(step: Step) {
    step.Key? || step.Index?
  }

  predicate AllPlain(steps: seq<Step>) {
    forall k :: 0 <= k < |steps| ==> Plain(steps[k])
  }

  /** Plain lookups folded over a value. */
  function LookupAll(steps: seq<Step>, v: Json): Option<Json> {
    if steps == [] then Some(v) else
    var next := Lookup(steps[0], v);
    if next.None? then None else LookupAll(steps[1..], next.value)
  }

  /** All values the steps select, in order. A descent that ends the path selects the proper descendants;
      otherwise it goes on from the value itself and from every descendant. */
  function Select(steps: seq<Step>, v: Json): seq<Json>
    decreases |steps|, 0, 0
  {
    if steps == [] then [v] else
    match steps[0]
    case AnyKey => if v.Obj? then SelectEach(steps[1..], Values(v.members)) else []
    case AnyIndex => if v.Arr? then SelectEach(steps[1..], v.elements) else []
    case Descend => SelectEach(steps[1..], if steps[1..] == [] then LevelOrder([v])[1..] else LevelOrder([v]))
    case _ => var next := Lookup(steps[0], v); if next.None? then [] else Select(steps[1..], next.value)
  }

  function SelectEach(steps: seq<Step>, vs: seq<Json>): seq<Json>
    decreases |steps|, 1, |vs|
  {
    if vs == [] then [] else Select(steps, vs[0]) + SelectEach(steps, vs[1..])
  }

  // ----- level order -----

  /** The number of nodes of a value. */
  function Size(v: Json): (n: nat)
    ensures n > 0
  {
    match v
    case Scalar(_) => 1
    case Arr(es) => 1 + SizeAll(es)
    case Obj(ms) => 1 + SizeMembers(ms)
  }

  function SizeAll(vs: seq<Json>): nat {
    if vs == [] then 0 else Size(vs[0]) + SizeAll(vs[1..])
  }

  function SizeMembers(ms: seq<Member>): nat {
    if ms == [] then 0 else Size(ms[0].value) + SizeMembers(ms[1..])
  }

  function ChildrenOfAll(vs: seq<Json>): seq<Json> {
    if vs == [] then [] else Children(vs[0]) + ChildrenOfAll(vs[1..])
  }

  lemma {:induction false} SizeOfMembers(ms: seq<Member>)
    ensures SizeAll(Values(ms)) == SizeMembers(ms)
  {
    if ms != [] {
      SizeOfMembers(ms[1..]);
    }
  }

  lemma SizeOfChildren(v: Json)
    ensures Size(v) == 1 + SizeAll(Children(v))
  {
    if v.Obj? {
      SizeOfMembers(v.members);
    }
  }

  lemma {:induction false} SizeConcat(a: seq<Json>, b: seq<Json>)
    ensures SizeAll(a + b) == SizeAll(a) + SizeAll(b)
  {
    if a == [] {
      assert a + b == b;
    } else {
      assert (a + b)[1..] == a[1..] + b;
      SizeConcat(a[1..], b);
    }
  }

  lemma {:induction false} SizeOfLevel(vs: seq<Json>)
    ensures SizeAll(vs) == |vs| + SizeAll(ChildrenOfAll(vs))
  {
    if vs != [] {
      SizeOfLevel(vs[1..]);
      SizeOfChildren(vs[0]);
      SizeConcat(Children(vs[0]), ChildrenOfAll(vs[1..]));
    }
  }

  /** The nodes of a forest level by level: first the roots, then all their children, and so on. */
  function LevelOrder(vs: seq<Json>): (r: seq<Json>)
    ensures vs <= r
    decreases SizeAll(vs)
  {
    SizeOfLevel(vs);
    if vs == [] then [] else vs + LevelOrder(ChildrenOfAll(vs))
  }

  // ----- reading a path text -----

  /** The character at a position; texts are terminated by a NUL. */
  function CharAt(s: string, p: nat): char {
    if p < |s| then s[p] else '\0'
  }

  /** A key as it was read; no characters means that there is no key. */
  datatype KeyRead = KeyRead(charsRead: nat, recursive: bool, key: string)
  {
    predicate IsValid() { charsRead != 0 }

    predicate IsWildCard() { key == "*" }
  }

  const EMPTY_KEY: KeyRead := KeyRead(0, false, "")

  /** The text from `p` up to an unescaped quote, unescaped; a backslash stays unless it escapes a quote or itself. */
  datatype Quoted = Unclosed | Closed(key: string, end: nat)

  function Prepend(cs: string, q: Quoted): Quoted {
    if q.Closed? then Closed(cs + q.key, q.end) else q
  }

  function ReadQuoted(s: string, p: nat, backslash: bool): (q: Quoted)
    requires p <= |s|
    ensures q.Closed? ==> p <= q.end < |s|
    decreases |s| - p
  {
    if p == |s| then Unclosed
    else if backslash then
      Prepend(if s[p] != '"' && s[p] != '\\' then ['\\', s[p]] else [s[p]], ReadQuoted(s, p + 1, false))
    else if s[p] == '"' then Closed("", p)
    else if s[p] == '\\' then ReadQuoted(s, p + 1, true)
    else Prepend([s[p]], ReadQuoted(s, p + 1, false))
  }

  /** The end of an unquoted key. */
  function BareEnd(s: string, p: nat): (e: nat)
    requires p <= |s|
    ensures p <= e <= |s|
    decreases |s| - p
  {
    if p == |s| || s[p] == '.' || s[p] == '[' then p else BareEnd(s, p + 1)
  }

  function StringRead(s: string, p: nat, escaped: bool): (r: KeyRead)
    requires p <= |s|
    ensures p + r.charsRead <= |s| && (escaped && r.IsValid() ==> p + r.charsRead < |s|)
  {
    if escaped then
      var q := ReadQuoted(s, p, false);
      if q.Unclosed? then EMPTY_KEY else KeyRead(q.end - p, false, q.key)
    else
      var e := BareEnd(s, p);
      KeyRead(e - p, false, s[p..e])
  }

  /** A key, quoted or not, without the recursion prefix. */
  function PlainKeyRead(s: string, p: nat): (r: KeyRead)
    requires p <= |s|
    ensures p + r.charsRead <= |s|
  {
    var escaped := CharAt(s, p) == '"';
    var r := StringRead(s, if escaped then p + 1 else p, escaped);
    if !r.IsValid() then r else if escaped then r.(charsRead := r.charsRead + 2) else r
  }

  function KeyReadAt(s: string, p: nat): (r: KeyRead)
    requires p < |s|
    ensures p + r.charsRead <= |s|
  {
    if s[p] == '*' then
      if CharAt(s, p + 1) == '*' then KeyRead(2, true, "*") else KeyRead(1, false, "*")
    else if s[p] == '.' then
      if CharAt(s, p + 1) == '*' then KeyRead(2, true, "*")
      else if CharAt(s, p + 1) == '[' then KeyRead(1, true, "*")
      else
        var r := PlainKeyRead(s, p + 1);
        if !r.IsValid() then r else r.(charsRead := r.charsRead + 1, recursive := true)
    else PlainKeyRead(s, p)
  }

  const SAFE_DIGITS: nat := 19

  predicate IsDigit(c: char) {
    '0' <= c <= '9'
  }

  function DigitValue(c: char): (d: nat)
    requires IsDigit(c)
    ensures d <= 9
  {
    c as int - '0' as int
  }

  function Pow10(n: nat): (r: nat)
    ensures r > 0
  {
    if n == 0 then 1 else 10 * Pow10(n - 1)
  }

  /** The number at `p`, of which `digits` digits with value `value` have been read: where it ends, and its value.
      Reading stops after 19 digits without looking for a bracket, and then the value is still less than 10^19. */
  function IntegerAt(s: string, p: nat, digits: nat, value: nat): (r: Option<(nat, nat)>)
    requires p <= |s| && digits <= SAFE_DIGITS && value < Pow10(digits)
    ensures r.Some? ==> p <= r.value.0 <= |s| && r.value.1 < Pow10(SAFE_DIGITS)
    ensures r.Some? && r.value.0 == |s| ==> p + SAFE_DIGITS - digits == |s|
    decreases SAFE_DIGITS - digits
  {
    if digits == SAFE_DIGITS then Some((p, value))
    else if p == |s| then None
    else if s[p] == ']' then
      PowGrows(digits, SAFE_DIGITS);
      Some((p, value))
    else if IsDigit(s[p]) then IntegerAt(s, p + 1, digits + 1, DigitValue(s[p]) + value * 10)
    else None
  }

  lemma {:induction false} PowGrows(a: nat, b: nat)
    requires a <= b
    ensures Pow10(a) <= Pow10(b)
    decreases b - a
  {
    if a < b {
      PowGrows(a + 1, b);
    }
  }

  /** An array index: where the path goes on, and the step. */
  datatype IndexRead = NoIndex | IndexRead(next: nat, step: Step)

  function NumberRead(s: string, p: nat, fromBack: bool): (r: IndexRead)
    requires p <= |s|
    ensures r.IndexRead? ==> p < r.next <= |s| + 1 && r.step.Index?
  {
    var n := IntegerAt(s, p, 0, 0);
    if n.None? || n.value.0 == p then NoIndex else IndexRead(n.value.0 + 1, Index(n.value.1, fromBack))
  }

  function IndexReadAt(s: string, p: nat): (r: IndexRead)
    requires p < |s|
    ensures r.IndexRead? ==> p < r.next <= |s| + 1 && (r.step.AnyIndex? || r.step.Index?)
  {
    if s[p] == '*' then
      if CharAt(s, p + 1) == ']' then IndexRead(p + 2, AnyIndex) else NoIndex
    else if s[p] == '#' then
      if p + 1 == |s| then NoIndex
      else if s[p + 1] == ']' then IndexRead(p + 2, Index(0xFFFF_FFFF, false))
      else if s[p + 1] != '-' then NoIndex
      else NumberRead(s, p + 2, true)
    else if s[p] == '-' then NumberRead(s, p + 1, true)
    else NumberRead(s, p, false)
  }

  /** A path text from position `p` on: an error, a cursor that has moved past the end, or a list of steps. */
  datatype Path = PathError | Overrun | Path(steps: seq<Step>)

  function Before(steps: seq<Step>, path: Path): Path {
    if path.Path? then Path(steps + path.steps) else path
  }

  /** The steps that a key stands for. */
  function KeySteps(key: KeyRead): seq<Step> {
    if key.recursive then (if key.IsWildCard() then [Descend] else [Descend, Key(key.key)])
    else if key.IsWildCard() then [AnyKey]
    else [Key(key.key)]
  }

  function Parse(s: string, p: nat): Path
    requires p <= |s| + 1
    decreases |s| + 1 - p
  {
    if p == |s| then Path([])
    else if p > |s| then Overrun
    else if p + 1 == |s| then PathError
    else if s[p] == '.' then
      var key := KeyReadAt(s, p + 1);
      if !key.IsValid() then PathError else Before(KeySteps(key), Parse(s, p + 1 + key.charsRead))
    else if s[p] == '[' then
      var r := IndexReadAt(s, p + 1);
      if r.NoIndex? then PathError else Before([r.step], Parse(s, r.next))
    else PathError
  }
}
