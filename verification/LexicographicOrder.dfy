/** Orders on sequences: the first difference decides, and a sequence comes after those it extends. */
module LexicographicOrder {

  ghost predicate TotalOrder<T(!new)>(leq: (T, T) -> bool) {
    && (forall a, b :: leq(a, b) || leq(b, a))
    && (forall a, b :: leq(a, b) && leq(b, a) ==> a == b)
    && (forall a, b, c :: leq(a, b) && leq(b, c) ==> leq(a, c))
  }

  predicate Lex<T(==)>(leq: (T, T) -> bool, a: seq<T>, b: seq<T>) {
    a == [] || (b != [] && if a[0] == b[0] then Lex(leq, a[1..], b[1..]) else leq(a[0], b[0]))
  }

  lemma {:induction false} LexTotal<T(!new)>(leq: (T, T) -> bool, a: seq<T>, b: seq<T>)
    requires TotalOrder(leq)
    ensures Lex(leq, a, b) || Lex(leq, b, a)
    decreases |a|
  {
    if a != [] && b != [] && a[0] == b[0] {
      LexTotal(leq, a[1..], b[1..]);
    }
  }

  lemma {:induction false} LexAntisymmetric<T(!new)>(leq: (T, T) -> bool, a: seq<T>, b: seq<T>)
    requires TotalOrder(leq) && Lex(leq, a, b) && Lex(leq, b, a)
    ensures a == b
    decreases |a|
  {
    if a != [] && b != [] && a[0] == b[0] {
      LexAntisymmetric(leq, a[1..], b[1..]);
      assert a == [a[0]] + a[1..] && b == [b[0]] + b[1..];
    }
  }

  lemma {:induction false} LexTransitive<T(!new)>(leq: (T, T) -> bool, a: seq<T>, b: seq<T>, c: seq<T>)
    requires TotalOrder(leq) && Lex(leq, a, b) && Lex(leq, b, c)
    ensures Lex(leq, a, c)
    decreases |a|
  {
    if a != [] && b != [] && c != [] && a[0] == b[0] == c[0] {
      LexTransitive(leq, a[1..], b[1..], c[1..]);
    }
  }

  lemma {:induction false} LexReflexive<T(!new)>(leq: (T, T) -> bool, a: seq<T>)
    ensures Lex(leq, a, a)
    decreases |a|
  {
    if a != [] {
      LexReflexive(leq, a[1..]);
    }
  }

  // ----- texts, and lists of texts -----

  predicate CharLeq(a: char, b: char) {
    a <= b
  }

  predicate TextLeq(a: string, b: string) {
    Lex(CharLeq, a, b)
  }

  predicate TextsLeq(a: seq<string>, b: seq<string>) {
    Lex(TextLeq, a, b)
  }

  /** The order of tuples whose components are texts or lists of texts. */
  predicate TupleLeq(a: seq<seq<string>>, b: seq<seq<string>>) {
    Lex(TextsLeq, a, b)
  }

  lemma TextsAreOrdered()
    ensures TotalOrder(TextLeq)
  {
    forall a, b ensures TextLeq(a, b) || TextLeq(b, a) {
      LexTotal(CharLeq, a, b);
    }
    forall a, b | TextLeq(a, b) && TextLeq(b, a) ensures a == b {
      LexAntisymmetric(CharLeq, a, b);
    }
    forall a, b, c | TextLeq(a, b) && TextLeq(b, c) ensures TextLeq(a, c) {
      LexTransitive(CharLeq, a, b, c);
    }
  }

  lemma ListsAreOrdered()
    ensures TotalOrder(TextsLeq)
  {
    TextsAreOrdered();
    forall a, b ensures TextsLeq(a, b) || TextsLeq(b, a) {
      LexTotal(TextLeq, a, b);
    }
    forall a, b | TextsLeq(a, b) && TextsLeq(b, a) ensures a == b {
      LexAntisymmetric(TextLeq, a, b);
    }
    forall a, b, c | TextsLeq(a, b) && TextsLeq(b, c) ensures TextsLeq(a, c) {
      LexTransitive(TextLeq, a, b, c);
    }
  }

  lemma TuplesAreOrdered()
    ensures TotalOrder(TupleLeq)
  {
    ListsAreOrdered();
    forall a, b ensures TupleLeq(a, b) || TupleLeq(b, a) {
      LexTotal(TextsLeq, a, b);
    }
    forall a, b | TupleLeq(a, b) && TupleLeq(b, a) ensures a == b {
      LexAntisymmetric(TextsLeq, a, b);
    }
    forall a, b, c | TupleLeq(a, b) && TupleLeq(b, c) ensures TupleLeq(a, c) {
      LexTransitive(TextsLeq, a, b, c);
    }
  }
}
