/**
 Small definitions shared by the other modules: the smaller and larger of two
 integers, and a sequence in which no entry occurs twice.
 */
module Seqs {
  function Min(a: int, b: int): int
  {
    if a < b then a else b
  }

  function Max(a: int, b: int): int
  {
    if a < b then b else a
  }

  /** No two places of `s` hold equal entries (for objects: the same object). */
  predicate NoDup<T(==)>(s: seq<T>)
  {
    forall i, j :: 0 <= i < j < |s| ==> s[i] != s[j]
  }
}
