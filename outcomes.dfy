/** The exceptions the pipeline can raise, as values, and the two wrapper types
    the model uses instead of raising them. */
module Outcomes {

  /** One constructor per kind of Python exception that reaches the caller. */
  datatype Error =
    | IncompleteResult(lineCount: nat)  // RuntimeError: the solver output has fewer than 11 lines
    | ValueError                        // int() of a malformed token, or an edge line without two tokens
    | KeyError                          // a position 0 <= i < n that the raw mapping never mentions
    | IndexError                        // a list subscript out of range, or l[0] of an empty line
    | AssertionError                    // a kept clique with more than k missing pairs

  datatype Option<T> = None | Some(value: T)

  datatype Result<T> = Ok(value: T) | Err(error: Error)
}
