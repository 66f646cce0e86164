/** Machine integers and the two core sum types (`Option`, `Result`) that the
    parser is written against. `Result` is failure-compatible, so `:-` plays
    the part of Rust's `?` operator. */
module Prelude {

  type uint8 = x: int | 0 <= x < 0x100
  type uint16 = x: int | 0 <= x < 0x1_0000
  type uint32 = x: int | 0 <= x < 0x1_0000_0000

  /** A byte stream: the bytes a forward-only iterator has yet to yield. */
  type Bytes = seq<uint8>

  /** An IEEE-754 binary32 value, carried by its bit pattern. The parser only
      moves such values around, so no float arithmetic is modelled. */
  datatype F32 = F32(bits: uint32)

  function Min(a: int, b: int): int
  {
    if a <= b then a else b
  }

  datatype Option<+T> = None | Some(value: T) {

    /** `Option::ok_or`: `Some` becomes `Ok`, `None` becomes the given error. */
    function OkOr<E>(err: E): Result<T, E>
    {
      match this
      case Some(v) => Ok(v)
      case None => Err(err)
    }
  }

  datatype Result<+T, +E> = Ok(value: T) | Err(error: E) {

    predicate IsFailure()
    {
      Err?
    }

    function PropagateFailure<U>(): Result<U, E>
      requires Err?
    {
      Err(error)
    }

    function Extract(): T
      requires Ok?
    {
      value
    }

    /** `Result::ok`: forgets the error. */
    function ToOption(): Option<T>
    {
      match this
      case Ok(v) => Some(v)
      case Err(_) => None
    }
  }
}
