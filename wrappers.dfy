/** Shared result types and the byte type used across the model. */
module Wrappers {
  /** An 8-bit byte, as Rust's `u8`. */
  type byte = x: int | 0 <= x < 0x100

  datatype Option<+T> = None | Some(value: T)
  {
    predicate IsFailure() { None? }

    function PropagateFailure<U>(): Option<U>
      requires None?
    {
      None
    }

    function Extract(): T
      requires Some?
    {
      value
    }
  }

  /** The `Result<T, ErrorHandle>` of the source; the message stands for the error text. */
  datatype Result<+T> = Ok(value: T) | Err(msg: string)
  {
    predicate IsFailure() { Err? }

    function PropagateFailure<U>(): Result<U>
      requires Err?
    {
      Err(msg)
    }

    function Extract(): T
      requires Ok?
    {
      value
    }
  }

  /** Rust's `()`. */
  datatype Unit = Unit
}
