/** The readers, the validator and the two evaluators of JSON paths. */
module JsonPath {
  import opened Sequences
  import opened JsonPathSpec
  import opened JsonPathMeaning

  // ----- readers -----

  lemma QuotedTurn(s: string, p: nat, backslash: bool)
    requires p < |s|
    ensures ReadQuoted(s, p, backslash) ==
              if backslash then
                Prepend(if s[p] != '"' && s[p] != '\\' then ['\\', s[p]] else [s[p]], ReadQuoted(s, p + 1, false))
              else if s[p] == '"' then Closed("", p)
              else if s[p] == '\\' then ReadQuoted(s, p + 1, true)
              else Prepend([s[p]], ReadQuoted(s, p + 1, false))
  {
  }

  lemma QuotedAtEnd(s: string, backslash: bool)
    ensures ReadQuoted(s, |s|, backslash) == Unclosed
  {
  }

  lemma PrependTwice(a: string, b: string, q: Quoted)
    ensures Prepend(a, Prepend(b, q)) == Prepend(a + b, q)
    ensures Prepend("", q) == q
  {
    if q.Closed? {
      assert a + (b + q.key) == a + b + q.key && "" + q.key == q.key;
    }
  }

  lemma PrependEnds(a: string, p: nat)
    ensures Prepend(a, Unclosed) == Unclosed && Prepend(a, Closed("", p)) == Closed(a, p)
  {
    assert a + "" == a;
  }

  /** The text between quotes, unescaped. */
  method ReadQuotedString(s: string, p: nat) returns (r: KeyRead)
    requires p <= |s|
    ensures var q := ReadQuoted(s, p, false); r == if q.Unclosed? then EMPTY_KEY else KeyRead(q.end - p, false, q.key)
  {
    hide ReadQuoted, Prepend;
    var ptr := p;
    var key: string, backslash := "", false;
    PrependTwice("", "", ReadQuoted(s, p, false));
    while ptr != |s|
      invariant p <= ptr <= |s|
      invariant ReadQuoted(s, p, false) == Prepend(key, ReadQuoted(s, ptr, backslash))
      decreases |s| - ptr
    {
      QuotedTurn(s, ptr, backslash);
      PrependEnds(key, ptr);
      PrependTwice(key, [s[ptr]], ReadQuoted(s, ptr + 1, false));
      PrependTwice(key, ['\\', s[ptr]], ReadQuoted(s, ptr + 1, false));
      if backslash {
        if s[ptr] != '"' && s[ptr] != '\\' {
          assert key + ['\\'] + [s[ptr]] == key + ['\\', s[ptr]];
          key := key + ['\\'];
        }
        backslash := false;
      } else if s[ptr] == '"' {
        break;
      } else if s[ptr] == '\\' {
        backslash := true;
        ptr := ptr + 1;
        continue;
      }
      key := key + [s[ptr]];
      ptr := ptr + 1;
    }
    QuotedAtEnd(s, backslash);
    PrependEnds(key, ptr);
    r := if ptr == |s| || backslash then EMPTY_KEY else KeyRead(ptr - p, false, key);
  }

  method ReadString(s: string, p: nat, escaped: bool) returns (r: KeyRead)
    requires p <= |s|
    ensures r == StringRead(s, p, escaped)
  {
    if escaped {
      r := ReadQuotedString(s, p);
    } else {
      var ptr := p;
      while ptr != |s| && s[ptr] != '.' && s[ptr] != '['
        invariant p <= ptr <= |s|
        invariant BareEnd(s, p) == BareEnd(s, ptr)
        decreases |s| - ptr
      {
        ptr := ptr + 1;
      }
      r := KeyRead(ptr - p, false, s[p..ptr]);
    }
  }

  /** The number of characters read, or 0, and the number. The number never reaches the wildcard sentinel, nor does
      the unsigned 64-bit accumulator ever wrap. */
  method ReadInteger(s: string, p: nat) returns (length: nat, index: nat)
    requires p <= |s|
    ensures var n := IntegerAt(s, p, 0, 0);
            if n.None? then length == 0 else length == n.value.0 - p && index == n.value.1
    ensures index < Pow10(SAFE_DIGITS) < INVALID_INDEX
  {
    SafeDigits();
    var ptr := p;
    index := 0;
    var digits := 0;
    while digits < SAFE_DIGITS
      invariant digits <= SAFE_DIGITS && p <= ptr <= |s|
      invariant index < Pow10(digits) <= Pow10(SAFE_DIGITS)
      invariant IntegerAt(s, p, 0, 0) == IntegerAt(s, ptr, digits, index)
    {
      if ptr == |s| {
        return 0, index;
      }
      if s[ptr] == ']' {
        break;
      }
      if !IsDigit(s[ptr]) {
        return 0, index;
      }
      PowGrows(digits + 1, SAFE_DIGITS);
      index := DigitValue(s[ptr]) + index * 10;
      ptr := ptr + 1;
      digits := digits + 1;
    }
    assert index < INVALID_INDEX; // so the overflow check that would return 0 here never does
    length := ptr - p;
  }

  lemma SafeDigits()
    ensures Pow10(SAFE_DIGITS) == 10_000_000_000_000_000_000 < INVALID_INDEX
  {
    assert Pow10(4) == 10_000;
    assert Pow10(8) == 100_000_000;
    assert Pow10(12) == 1_000_000_000_000;
    assert Pow10(16) == 10_000_000_000_000_000;
  }

  method ReadKey(s: string, p: nat) returns (r: KeyRead)
    requires p < |s|
    ensures r == KeyReadAt(s, p)
  {
    if s[p] == '*' {
      return if CharAt(s, p + 1) == '*' then KeyRead(2, true, "*") else KeyRead(1, false, "*");
    }
    var ptr, recursive := p, false;
    if s[ptr] == '.' {
      var next := CharAt(s, ptr + 1);
      if next == '*' {
        return KeyRead(2, true, "*");
      }
      if next == '[' {
        return KeyRead(1, true, "*");
      }
      ptr := ptr + 1;
      recursive := true;
    }
    var escaped := false;
    if CharAt(s, ptr) == '"' {
      ptr := ptr + 1;
      escaped := true;
    }
    r := ReadString(s, ptr, escaped);
    if !r.IsValid() {
      return;
    }
    if escaped {
      r := r.(charsRead := r.charsRead + 2);
    }
    if recursive {
      r := r.(charsRead := r.charsRead + 1, recursive := true);
    }
  }

  /** Whether there is an index, where the path goes on behind it, the index, and whether it counts from the back. */
  method ReadArrayIndex(s: string, p: nat) returns (ok: bool, next: nat, arrayIndex: nat, fromBack: bool)
    requires p < |s|
    ensures match IndexReadAt(s, p)
            case NoIndex => !ok
            case IndexRead(n, step) =>
              && ok && next == n
              && (step.AnyIndex? <==> arrayIndex == INVALID_INDEX)
              && (step.Index? ==> step == Index(arrayIndex, fromBack))
  {
    hide IntegerAt, Pow10;
    next, fromBack := p, false;
    if s[p] == '*' {
      next := next + 1;
      arrayIndex := INVALID_INDEX;
      if next == |s| || s[next] != ']' {
        return false, next, arrayIndex, fromBack;
      }
    } else {
      if s[next] == '#' {
        next := next + 1;
        if next == |s| {
          return false, next, 0, fromBack;
        }
        if s[next] == ']' {
          return true, next + 1, 0xFFFF_FFFF, fromBack;
        }
        if s[next] != '-' {
          return false, next, 0, fromBack;
        }
        fromBack := true;
      }
      if s[next] == '-' {
        next := next + 1;
        fromBack := true;
      }
      var length;
      length, arrayIndex := ReadInteger(s, next);
      if length == 0 {
        return false, next, arrayIndex, fromBack;
      }
      next := next + length;
    }
    next := next + 1;
    ok := true;
  }

  // ----- the validator -----

  datatype PathType = REGULAR | WILDCARD

  datatype Validation = Valid(pathType: PathType) | Error | PastTheEnd

  /** What ValidatePath says about a text with these steps. */
  function TypeOf(path: Path): Validation {
    match path
    case PathError => Error
    case Overrun => PastTheEnd
    case Path(steps) => Valid(if AllPlain(steps) then REGULAR else WILDCARD)
  }

  predicate PlainPath(path: Path) {
    path.Path? && AllPlain(path.steps)
  }

  lemma PlainConcat(a: seq<Step>, b: seq<Step>)
    ensures AllPlain(a + b) <==> (AllPlain(a) && AllPlain(b))
  {
    assert forall k :: 0 <= k < |a| ==> (a + b)[k] == a[k];
    assert forall k :: 0 <= k < |b| ==> (a + b)[|a| + k] == b[k];
  }

  lemma BeforeTwice(a: seq<Step>, b: seq<Step>, path: Path)
    ensures Before(a, Before(b, path)) == Before(a + b, path)
  {
    if path.Path? {
      assert a + (b + path.steps) == a + b + path.steps;
    }
  }

  /** A key makes a path a wildcard path just when it is a wildcard or recursive. */
  lemma KeyStepsPlain(key: KeyRead)
    ensures AllPlain(KeySteps(key)) <==> !(key.IsWildCard() || key.recursive)
  {
    assert Plain(KeySteps(key)[0]) <==> !(key.IsWildCard() || key.recursive);
  }

  lemma IndexStepPlain(step: Step)
    ensures AllPlain([step]) <==> Plain(step)
  {
    assert [step][0] == step;
  }

  /** Parse, unfolded once at the start of a step. */
  lemma ParseTurn(s: string, p: nat)
    requires p <= |s| + 1
    ensures p == |s| ==> Parse(s, p) == Path([])
    ensures p > |s| ==> Parse(s, p) == Overrun
    ensures p + 1 == |s| || (p < |s| && s[p] !in ".[") ==> Parse(s, p) == PathError
    ensures p + 1 < |s| && s[p] == '.' ==>
              var key := KeyReadAt(s, p + 1);
              Parse(s, p) == if !key.IsValid() then PathError else Before(KeySteps(key), Parse(s, p + 1 + key.charsRead))
    ensures p + 1 < |s| && s[p] == '[' ==>
              var r := IndexReadAt(s, p + 1);
              Parse(s, p) == if r.NoIndex? then PathError else Before([r.step], Parse(s, r.next))
  {
  }

  /** The path has been read up to `p`: `done` are the steps so far. */
  predicate ReadTo(s: string, p: nat, pathType: PathType, done: seq<Step>) {
    && p <= |s| + 1 && Parse(s, 1) == Before(done, Parse(s, p))
    && (pathType == REGULAR <==> AllPlain(done))
  }

  lemma NothingRead(s: string)
    requires s != ""
    ensures ReadTo(s, 1, REGULAR, [])
  {
  }

  /** Where the path cannot be read on, this is what it is. */
  lemma Stops(s: string, p: nat, pathType: PathType, done: seq<Step>)
    requires ReadTo(s, p, pathType, done)
    ensures p > |s| ==> TypeOf(Parse(s, 1)) == PastTheEnd
    ensures p == |s| ==> TypeOf(Parse(s, 1)) == Valid(pathType)
    ensures p + 1 == |s| || (p < |s| && s[p] !in ".[") ==> TypeOf(Parse(s, 1)) == Error
  {
    hide Parse, AllPlain;
    ParseTurn(s, p);
    assert done + [] == done;
  }

  lemma KeyIsRead(s: string, p: nat, pathType: PathType, done: seq<Step>, key: KeyRead)
    requires ReadTo(s, p, pathType, done) && p + 1 < |s| && s[p] == '.' && key == KeyReadAt(s, p + 1)
    ensures !key.IsValid() ==> TypeOf(Parse(s, 1)) == Error
    ensures key.IsValid() ==> ReadTo(s, p + 1 + key.charsRead,
                                     if key.IsWildCard() || key.recursive then WILDCARD else pathType,
                                     done + KeySteps(key))
  {
    hide Parse, AllPlain, KeySteps, KeyRead.IsWildCard, KeyRead.IsValid;
    ParseTurn(s, p);
    if key.IsValid() {
      KeyStepsPlain(key);
      PlainConcat(done, KeySteps(key));
      BeforeTwice(done, KeySteps(key), Parse(s, p + 1 + key.charsRead));
    }
  }

  lemma IndexIsRead(s: string, p: nat, pathType: PathType, done: seq<Step>, read: IndexRead)
    requires ReadTo(s, p, pathType, done) && p + 1 < |s| && s[p] == '[' && read == IndexReadAt(s, p + 1)
    ensures read.NoIndex? ==> TypeOf(Parse(s, 1)) == Error
    ensures !read.NoIndex? ==>
              ReadTo(s, read.next, if read.step.AnyIndex? then WILDCARD else pathType, done + [read.step])
  {
    hide Parse, AllPlain;
    ParseTurn(s, p);
    if !read.NoIndex? {
      IndexStepPlain(read.step);
      PlainConcat(done, [read.step]);
      BeforeTwice(done, [read.step], Parse(s, read.next));
    }
  }

  method ValidatePath(s: string) returns (r: Validation)
    requires s != "" && s[0] == '$'
    ensures r == TypeOf(Parse(s, 1))
  {
    hide *;
    NothingRead(s);
    var pathType, ptr := REGULAR, 1;
    ghost var done: seq<Step> := [];
    while ptr != |s|
      invariant ptr <= |s| + 1 && ReadTo(s, ptr, pathType, done)
      decreases |s| + 1 - ptr
    {
      Stops(s, ptr, pathType, done);
      if ptr > |s| {
        return PastTheEnd;
      }
      var c := s[ptr];
      ptr := ptr + 1;
      if ptr == |s| {
        return Error;
      }
      match c {
        case '.' =>
          var key := ReadKey(s, ptr);
          KeyIsRead(s, ptr - 1, pathType, done, key);
          if !key.IsValid() {
            return Error;
          }
          if key.IsWildCard() || key.recursive {
            pathType := WILDCARD;
          }
          ptr := ptr + key.charsRead;
          done := done + KeySteps(key);
        case '[' =>
          var ok, next, arrayIndex, fromBack := ReadArrayIndex(s, ptr);
          IndexIsRead(s, ptr - 1, pathType, done, IndexReadAt(s, ptr));
          if !ok {
            return Error;
          }
          done := done + [IndexReadAt(s, ptr).step];
          if arrayIndex == INVALID_INDEX {
            pathType := WILDCARD;
          }
          ptr := next;
        case _ =>
          return Error;
      }
    }
    Stops(s, ptr, pathType, done);
    r := Valid(pathType);
  }

  // ----- the single-value evaluator -----

  /** A path whose first steps are known. */
  lemma PlainParts(steps: seq<Step>, path: Path, whole: Path)
    requires PlainPath(whole) && whole == Before(steps, path)
    ensures PlainPath(path) && AllPlain(steps) && whole.steps == steps + path.steps
  {
    PlainConcat(steps, path.steps);
  }

  lemma PlainKey(key: KeyRead)
    requires AllPlain(KeySteps(key))
    ensures KeySteps(key) == [Key(key.key)]
  {
    KeyStepsPlain(key);
  }

  lemma ParseOverrun(s: string, p: nat)
    requires p <= |s| + 1 && PlainPath(Parse(s, p))
    ensures p <= |s|
  {
  }

  /** A step of a regular path is a plain step, and what follows it is a regular path. */
  lemma PlainTurn(s: string, p: nat)
    requires p < |s| && PlainPath(Parse(s, p))
    ensures p + 1 < |s| && s[p] in ".[" && Parse(s, p).steps != []
    ensures s[p] == '.' ==>
              var key := KeyReadAt(s, p + 1);
              && key.IsValid() && PlainPath(Parse(s, p + 1 + key.charsRead))
              && Parse(s, p).steps[0] == Key(key.key)
              && Parse(s, p).steps[1..] == Parse(s, p + 1 + key.charsRead).steps
    ensures s[p] == '[' ==>
              var r := IndexReadAt(s, p + 1);
              && r.IndexRead? && r.next <= |s| && PlainPath(Parse(s, r.next)) && r.step.Index?
              && Parse(s, p).steps[0] == r.step
              && Parse(s, p).steps[1..] == Parse(s, r.next).steps
  {
    ParseTurn(s, p);
    if p + 1 < |s| && s[p] == '.' {
      var key := KeyReadAt(s, p + 1);
      hide *;
      PlainParts(KeySteps(key), Parse(s, p + 1 + key.charsRead), Parse(s, p));
      PlainKey(key);
    } else if p + 1 < |s| && s[p] == '[' {
      var r := IndexReadAt(s, p + 1);
      hide *;
      PlainParts([r.step], Parse(s, r.next), Parse(s, p));
      IndexStepPlain(r.step);
      ParseOverrun(s, r.next);
    }
  }

  /** An index that is read is an unsigned 64-bit number. */
  lemma IndexIs64(s: string, p: nat)
    requires p < |s|
    ensures var r := IndexReadAt(s, p); r.IndexRead? ==> Indices64([r.step])
  {
    SafeDigits();
    hide Pow10;
  }

  lemma KeysAre64(key: KeyRead)
    ensures Indices64(KeySteps(key))
  {
  }

  predicate Is64(path: Path) {
    path.Path? ==> Indices64(path.steps)
  }

  lemma BeforeIs64(steps: seq<Step>, path: Path)
    requires Indices64(steps) && Is64(path)
    ensures Is64(Before(steps, path))
  {
  }

  lemma NothingIs64()
    ensures Is64(PathError) && Is64(Overrun) && Is64(Path([]))
  {
  }

  /** So are all indices of a path. */
  lemma {:induction false} PathIs64(s: string, p: nat)
    requires p <= |s| + 1
    ensures Is64(Parse(s, p))
    decreases |s| + 1 - p
  {
    hide *;
    ParseTurn(s, p);
    NothingIs64();
    if p + 1 < |s| && s[p] == '.' {
      var key := KeyReadAt(s, p + 1);
      if key.IsValid() {
        PathIs64(s, p + 1 + key.charsRead);
        KeysAre64(key);
        BeforeIs64(KeySteps(key), Parse(s, p + 1 + key.charsRead));
      }
    } else if p + 1 < |s| && s[p] == '[' {
      var r := IndexReadAt(s, p + 1);
      if r.IndexRead? {
        PathIs64(s, r.next);
        IndexIs64(s, p + 1);
        BeforeIs64([r.step], Parse(s, r.next));
      }
    }
  }

  /** LookupAll, unfolded once. */
  lemma LookupTurn(steps: seq<Step>, v: Json)
    ensures LookupAll(steps, v) ==
              if steps == [] then Some(v) else
              var next := Lookup(steps[0], v); if next.None? then None else LookupAll(steps[1..], next.value)
  {
  }

  lemma LookedUp(v: Json, s: string)
    requires s != "" && PlainPath(Parse(s, 1))
    ensures LeadsOnlyTo(Parse(s, 1).steps, v, LookupAll(Parse(s, 1).steps, v))
  {
    hide Parse, Leads, LookupAll, Fits;
    PathIs64(s, 1);
    if Fits(v) {
      forall y ensures LookupAll(Parse(s, 1).steps, v) == Some(y) <==> Leads(Parse(s, 1).steps, v, y) {
        LookupAllExactly(Parse(s, 1).steps, v, y);
      }
    }
  }

  /** On a path that was validated as regular, the plain lookups folded over the value: what the steps
      lead to. */
  method GetPath(v: Json, s: string) returns (r: Option<Json>)
    requires s != "" && s[0] == '$'
    requires PlainPath(Parse(s, 1))
    ensures r == LookupAll(Parse(s, 1).steps, v)
    ensures LeadsOnlyTo(Parse(s, 1).steps, v, r)
  {
    hide Parse, KeyReadAt, IndexReadAt, LookupAll, AllPlain, LeadsOnlyTo;
    LookedUp(v, s);
    r := Some(v);
    var ptr := 1;
    while r.Some? && ptr != |s|
      invariant ptr <= |s| && PlainPath(Parse(s, ptr))
      invariant LookupAll(Parse(s, 1).steps, v) == if r.Some? then LookupAll(Parse(s, ptr).steps, r.value) else None
      decreases |s| - ptr
    {
      PlainTurn(s, ptr);
      LookupTurn(Parse(s, ptr).steps, r.value);
      var c := s[ptr];
      ptr := ptr + 1;
      if c == '.' {
        if !r.value.Obj? {
          return None;
        }
        var key := ReadKey(s, ptr);
        ptr := ptr + key.charsRead;
        r := ObjGet(r.value.members, key.key);
      } else {
        if !r.value.Arr? {
          return None;
        }
        var _, next, arrayIndex, fromBack := ReadArrayIndex(s, ptr);
        var length := |r.value.elements|;
        if fromBack && arrayIndex != 0 {
          arrayIndex := (length - arrayIndex) % TWO_TO_THE_64;
        }
        ptr := next;
        r := ArrGet(r.value.elements, arrayIndex);
      }
    }
    if r.Some? {
      ParseTurn(s, ptr);
      LookupTurn([], r.value);
    }
  }
}
