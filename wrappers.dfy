/** Optional values (JavaScript's null/undefined, SQLite's NULL, a missing row) and duplicate-free sequences. */
module Wrappers {
  datatype Option<+T> = None | Some(value: T)

  /** No element occurs twice: what spreading a JavaScript Set into an array yields. */
  predicate Distinct<T(==)>(s: seq<T>)
  {
    forall i, j | 0 <= i < j < |s| :: s[i] != s[j]
  }
}
