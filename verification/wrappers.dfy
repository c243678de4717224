/** Failure-carrying values shared by the whole model: `Option` for Go's
    nil-able results (a parsed address, an absent matcher) and `Result` for
    construction that can fail (a pattern `regexp.MustCompile` rejects). */
module Wrappers {

  datatype Option<+T> = None | Some(value: T)

  datatype Result<+R, +E> = Success(value: R) | Failure(error: E)
}
