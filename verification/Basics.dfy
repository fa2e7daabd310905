/** Machine integers, byte strings and the error type shared by every module. */
module Basics {
  type byte = x: int | 0 <= x < 0x100
  type u16 = x: int | 0 <= x < 0x1_0000
  type u32 = x: int | 0 <= x < 0x1_0000_0000
  type bytes = seq<byte>

  const U16_MAX: int := 0xFFFF
  const TWO_32: int := 0x1_0000_0000

  datatype Option<+T> = None | Some(value: T)

  /** What can go wrong: a response code of the TPM, a transport failure, or one
      of three complaints of the stack; message texts are not modelled. */
  datatype Error =
    | Code(rc: u32)
    | Unreachable
    | Malformed
    | Protocol
    | Usage

  datatype Result<+T> = Success(value: T) | Failure(error: Error) {
    predicate IsFailure() {
      Failure?
    }

    function PropagateFailure<U>(): Result<U>
      requires Failure?
    {
      Failure(error)
    }

    function Extract(): T
      requires Success?
    {
      value
    }

    function ToOption(): Option<T> {
      if Success? then Some(value) else None
    }
  }
}
