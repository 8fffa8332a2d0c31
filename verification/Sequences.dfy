/** Sequences of sequences. */
module Sequences {

  /** All elements, those of the last sequence last. */
  ghost function Flat<T>(s: seq<seq<T>>): seq<T> {
    if s == [] then [] else Flat(s[..|s| - 1]) + s[|s| - 1]
  }
}
