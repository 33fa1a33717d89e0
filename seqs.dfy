/** Generic sequence facts shared by the path, pattern and command modules. */
module Sequences {

  /** Concatenation regroups freely; kept apart so callers pay for it once. */
  lemma ConcatAssoc<T>(a: seq<T>, b: seq<T>, c: seq<T>)
    ensures (a + b) + c == a + (b + c)
  {
  }
}
