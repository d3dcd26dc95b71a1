// Results that the kernel expresses with Rust's Option and Result.
module Wrappers {

  datatype Option<+T> = None | Some(value: T)

  datatype Result<+T, +E> = Ok(value: T) | Err(error: E) {
    function ToOption(): Option<T> {
      match this
      case Ok(v) => Some(v)
      case Err(_) => None
    }

    function Failure(): Option<E> {
      match this
      case Ok(_) => None
      case Err(e) => Some(e)
    }
  }
}
