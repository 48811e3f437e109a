/** Optional values, used for the identifier slots and for lookups, and one sequence fact shared by the loops. */
module Wrappers {
  datatype Option<+T> = None | Some(value: T)

  /** Concatenation regroups; the loops that build their output by appending use it. */
  lemma AppendAssoc<T>(a: seq<T>, b: seq<T>, c: seq<T>)
    ensures (a + b) + c == a + (b + c)
  {
  }
}
