/** Optional values and results, standing for the `null` a lookup returns and the exceptions
    the date arithmetic throws. */
module Wrappers {

  /** The value of `FirstOrDefault`: a record, or `null` when nothing matched. */
  datatype Option<+T> = None | Some(value: T)

  /** The exceptions the modelled code can raise. */
  datatype Exception = ArgumentOutOfRange

  /** The value of a call that either returns normally or throws. */
  datatype Result<+T> = Ok(value: T) | Failure(error: Exception)
}
