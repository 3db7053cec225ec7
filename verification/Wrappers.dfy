/** Result types and arithmetic the other modules share. */
module Wrappers {

  datatype Option<+T> = None | Some(value: T)

  datatype Result<+R, +E> = Ok(value: R) | Err(error: E)

  /** Addition that stops at `max`, as the machine's unsigned words do. */
  function SaturatingAdd(a: int, b: int, max: int): (r: int)
    requires 0 <= a && 0 <= b && 0 <= max
    ensures 0 <= r <= max
  {
    if a + b <= max then a + b else max
  }
}
