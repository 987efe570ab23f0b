/** Bytes, 32-bit words and the outcome of a parse, shared by the VCDIFF modules. */
module Bytes {

  type byte = x: int | 0 <= x < 256

  const TWO32: int := 0x1_0000_0000

  type uint32 = x: int | 0 <= x < TWO32

  /** The least size of a COPY or RUN. */
  const MIN_MATCH := 4

  /** Addition and subtraction of unsigned 32-bit words. */
  function Sum32(a: uint32, b: uint32): uint32 {
    if a + b < TWO32 then a + b else a + b - TWO32
  }

  function Diff32(a: uint32, b: uint32): uint32 {
    if a >= b then a - b else a - b + TWO32
  }

  /** The outcome of an operation that the source ends with EINVAL when it fails. */
  datatype Result<+T> = Ok(value: T) | Invalid {
    predicate IsFailure() { Invalid? }

    function PropagateFailure<U>(): Result<U>
      requires Invalid?
    {
      Invalid
    }

    function Extract(): T
      requires Ok?
    {
      value
    }
  }
}
