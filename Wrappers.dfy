/** Optional values and the success/error envelope every operation of the store returns. */
module Wrappers {

  /** `T | null | undefined` in the source. */
  datatype Option<+T> = None | Some(value: T)

  /** A value, or the `message` of the error the source throws or reports. */
  datatype Result<+T> = Ok(value: T) | Err(msg: string)
}
