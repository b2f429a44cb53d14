/** Optional values and the three error values of the package. */
module Wrappers {

  /** Go's `nil` is `None`: an absent child link, an empty payload slot, a failed lookup. */
  datatype Option<+T> = None | Some(value: T)

  /** ErrNodeBusy, ErrNotFound and ErrBadIP. */
  datatype Error = NodeBusy | NotFound | BadIP

  /** A value together with a Go `error`: `Ok` stands for a nil error. */
  datatype Result<+T> = Ok(value: T) | Err(error: Error)

  /** A bare Go `error` result: `Pass` stands for nil. */
  datatype Outcome = Pass | Fail(error: Error)
}
