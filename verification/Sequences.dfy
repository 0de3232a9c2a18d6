/** Facts about sequences that several modules use. */
module Sequences {
  lemma Regroup<T>(done: seq<T>, x: T, rest: seq<T>)
    ensures done + [x] + rest == done + ([x] + rest)
  {
  }
}
