/** Small shared vocabulary: the error-or-value result the pipeline threads
    through every stage, and Go's `byte`. */
module Basics {

  /** A Go `(value, error)` pair: exactly one of the two is meaningful. */
  datatype Result<+T, +E> = Success(value: T) | Failure(error: E)

  /** Go's `byte` (`uint8`): the unit of a Go string and of a paletted pixel. */
  type Byte = b: int | 0 <= b < 256

  /** A Go string, seen as its bytes (`len` counts bytes, indexing yields bytes). */
  type Bytes = seq<Byte>
}
