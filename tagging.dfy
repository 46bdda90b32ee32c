/** Tagging every element of a set of indices with one fixed index, as the
    row index of a table is paired with the indices of the rows it meets. */
module Tagging {

  /** The pairs `(n, j)` for `j` in `s`. */
  function Tag(n: int, s: set<int>): (r: set<(int, int)>)
    ensures forall j :: (n, j) in r <==> j in s
  {
    set j | j in s :: (n, j)
  }

  /** Tagging the empty set gives no pairs. */
  lemma TagEmpty(n: int)
    ensures Tag(n, {}) == {}
  {
  }

  /** Adding an index adds its pair. */
  lemma TagAdd(n: int, s: set<int>, k: int)
    ensures Tag(n, s + {k}) == Tag(n, s) + {(n, k)}
  {
  }
}
