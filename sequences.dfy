/**
 Facts about concatenation that Dafny proves unaided. Proofs about strings and
 parameter lists cite them by name, so that the solver meets them as plain
 equations instead of rediscovering them element by element amid the
 definitions of split, trim and parse.
 */
module Sequences {
  lemma {:induction false} AppendEmpty<T>(a: seq<T>)
    ensures a + [] == a && [] + a == a
  {
  }

  lemma {:induction false} NoTrailing<T>(a: seq<T>, c: T)
    ensures a + seq(0, _ => c) == a
  {
  }

  lemma {:induction false} PrefixThenRest<T>(a: seq<T>, b: seq<T>)
    requires a <= b
    ensures b == a + b[|a|..]
  {
  }

  lemma {:induction false} AppendAssoc<T>(a: seq<T>, b: seq<T>, c: seq<T>)
    ensures a + b + c == a + (b + c)
  {
  }
}
