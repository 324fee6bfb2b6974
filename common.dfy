/** Value types shared by every part of the backup model: Go's fixed-width
    integers and bytes, Go's `error` values, and the usual Option/Result pair. */
module Common {

  /** A Go `byte`. */
  newtype byte = x: int | 0 <= x < 256

  const MaxInt64: int := 0x7fff_ffff_ffff_ffff
  const MinInt64: int := -0x8000_0000_0000_0000

  /** A Go `int64` (file sizes) and a Go `int` on a 64-bit platform (row ids). */
  type int64 = x: int | MinInt64 <= x <= MaxInt64

  /** A non-nil Go `error`; only its message is observable to this program. */
  datatype Error = Error(msg: string)

  datatype Option<+T> = None | Some(value: T)

  datatype Result<+T> = Success(value: T) | Failure(error: Error)
}
