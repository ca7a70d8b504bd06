/** Optional values, results, and facts about sequences that several components share. */
module Sequences {

  datatype Option<+T> = None | Some(value: T)

  datatype Result<+T, +E> = Ok(value: T) | Err(error: E)

  /** The elements of a sequence of sequences, in order. */
  function Flatten<T>(xss: seq<seq<T>>): seq<T> {
    if xss == [] then [] else xss[0] + Flatten(xss[1..])
  }

  lemma {:induction false} FlattenConcat<T>(xss: seq<seq<T>>, yss: seq<seq<T>>)
    ensures Flatten(xss + yss) == Flatten(xss) + Flatten(yss)
  {
    if xss == [] {
      assert xss + yss == yss;
    } else {
      assert (xss + yss)[1..] == xss[1..] + yss;
      FlattenConcat(xss[1..], yss);
    }
  }

  lemma FlattenSnoc<T>(xss: seq<seq<T>>, xs: seq<T>)
    ensures Flatten(xss + [xs]) == Flatten(xss) + xs
  {
    FlattenConcat(xss, [xs]);
    assert Flatten([xs]) == xs;
  }

  /** The element at offset `s` of part `k` of a flattened sequence. */
  lemma {:induction false} FlattenAt<T>(xss: seq<seq<T>>, k: nat, s: nat)
    requires k < |xss| && s < |xss[k]|
    ensures |Flatten(xss[..k])| + s < |Flatten(xss)|
    ensures Flatten(xss)[|Flatten(xss[..k])| + s] == xss[k][s]
  {
    assert xss == xss[..k] + ([xss[k]] + xss[k + 1..]);
    FlattenConcat(xss[..k], [xss[k]] + xss[k + 1..]);
    assert ([xss[k]] + xss[k + 1..])[1..] == xss[k + 1..];
  }
}
