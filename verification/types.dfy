/** Machine integer ranges, the `Option`/`Result` shapes the Rust code returns,
    and the error values of the crate's `errors` module. */
module Types {

  /** An unsigned 8-bit value (`u8`). */
  type uint8 = x: int | 0 <= x < 0x100

  /** An unsigned 32-bit value (`u32`). */
  type uint32 = x: int | 0 <= x < 0x1_0000_0000

  /** The largest `u32`, `0xffffffff`. */
  const U32_MAX: int := 0xffff_ffff

  datatype Option<+T> = None | Some(value: T)

  /** Rust's `Result`; `:-` plays the part of the `?` operator. */
  datatype Result<+T, +E> = Ok(value: T) | Err(error: E) {
    predicate IsFailure() {
      Err?
    }

    function PropagateFailure<U>(): Result<U, E>
      requires Err?
    {
      Err(error)
    }

    function Extract(): T
      requires Ok?
    {
      value
    }
  }

  /** `scrypt` was handed an output buffer whose length it refuses. */
  datatype InvalidOutputLen = InvalidOutputLen

  /** Why `scrypt_check` turned a stored hash down: the string is not a
      well-formed rscrypt hash, or it is but the password does not match. */
  datatype CheckError = InvalidFormat | HashMismatch
}
