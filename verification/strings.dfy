/** String predicates the trie exercises rely on: Python's `str.startswith`
    and `str.endswith`, over strings as sequences of characters. */
module Strings {

  /** `w.startswith(p)`: the first |p| characters of `w` are `p`. */
  predicate StartsWith(w: string, p: string) {
    |p| <= |w| && w[..|p|] == p
  }

  /** `w.endswith(p)`: the last |p| characters of `w` are `p`. */
  predicate EndsWith(w: string, p: string) {
    |p| <= |w| && w[|w| - |p|..] == p
  }
}

