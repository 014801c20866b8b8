/** Failure-compatible result types shared by every module of the model. */
module Wrappers {

  datatype Option<+T> = None | Some(value: T)

  datatype Result<+T, +E> = Success(value: T) | Failure(error: E)

  /** The Python exceptions that the modelled code can raise and that the model keeps apart. */
  datatype Error =
    | IndexError      // a list index past the end (token lists in predicate pruning)
    | AttributeError  // an attribute looked up on None or never assigned
    | ValueError      // an explicit `raise ValueError(...)`
    | EvalError       // any exception raised while evaluating an expression string
    | SynthesisFailed // works.py: `raise Exception("Failed to synthesize.")`
}
