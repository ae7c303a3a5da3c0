/** Optional values, the errors the transformer can raise, and results that carry them. */
module Outcomes {

  datatype Option<T> = None | Some(value: T)

  /** The exceptions that escape `fixed_point_iteration`.
      ValueError: `float(...)` of an exponent text that is not a number.
      LatexError: the LaTeX parser rejected a text.
      RecursionLimit: the recursion budget of this model ran out (Python would raise RecursionError).
      AttributeError: a candidate is a plain number, which has no `subs` method. */
  datatype Error =
    | ValueError(text: string)
    | LatexError(text: string)
    | RecursionLimit
    | AttributeError(text: string)

  datatype Result<T> = Success(value: T) | Failure(error: Error)
}
