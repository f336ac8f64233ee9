/** Shared failure and absence types. */
module Wrappers {
  datatype Option<+T> = None | Some(value: T)

  datatype Result<+T, +E> = Ok(value: T) | Err(error: E)

  /** How an effect on the outside world ends, as the program sees it.  After `Failed` the effect may
      have happened all the same; after `Crashed` the program is gone. */
  datatype Fate = Done | Failed | Crashed
}
