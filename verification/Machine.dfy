/** The 32-bit machine that all modules share, its error codes (common/errno.h), and values that may be missing. */
module Machine {
  type Byte = x: int | 0 <= x < 256
  type Bytes = seq<Byte>

  const WORD := 0x1_0000_0000      // number of values of an unsigned word
  const INT_MAX := 0x7FFF_FFFF

  const EINVAL := 7
  const EPERM := 8
  const ENOSPC := 13
  const EDEADLK := 14
  const EIO := 23
  const ESRCH := 26

  /** A word read as an int. */
  function AsInt(x: nat): int {
    if x <= INT_MAX then x else x - WORD
  }

  datatype Option<T> = None | Some(value: T)
}
