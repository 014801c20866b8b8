/**
 * The `(x, y, expected)` input/output examples of the two single-file
 * drafts, and the evaluators that stand in for `eval` on a term or a
 * predicate at `x`, `y` (a raised exception is a `Failure`).
 */
module Triples {
  import opened Wrappers

  datatype Triple = Triple(x: int, y: int, expected: int)

  /** `eval(term)` with `x` and `y` bound. */
  type TermEval = (string, int, int) -> Result<int, Error>

  /** `eval(predicate)` with `x` and `y` bound. */
  type PredEval = (string, int, int) -> Result<bool, Error>
}
