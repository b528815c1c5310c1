/** Option, used for JavaScript's optional fields, for regex steps that may
    not match and for calls that may throw. */
module Wrappers {

  datatype Option<+T> = None | Some(value: T)
}

/** Facts about sequences that more than one module uses. */
module Sequences {

  /** Concatenation is associative; the explicit call keeps the prover from
      searching for it. */
  lemma {:induction false} ConcatAssoc<T>(a: seq<T>, b: seq<T>, c: seq<T>)
    ensures a + (b + c) == (a + b) + c
  {
  }

  /** The head and the tail of a concatenation whose left part is not empty. */
  lemma {:induction false} ConcatHeadTail<T>(a: seq<T>, b: seq<T>)
    requires a != []
    ensures (a + b)[0] == a[0] && (a + b)[1..] == a[1..] + b
  {
  }
}
