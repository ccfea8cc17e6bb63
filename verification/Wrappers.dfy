/** Optional values and results of operations that can throw. */
module Wrappers {
  datatype Option<+T> = None | Some(value: T) {
    function GetOr(default: T): T
    {
      if Some? then value else default
    }
  }

  datatype Result<+T> = Ok(value: T) | Thrown
}
