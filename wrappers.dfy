/** Small shared vocabulary: an optional value and the largest C++ `int`. */
module Wrappers {

  /** A value that may be absent (a null pointer, or the -1 "no index" of the C++ code). */
  datatype Option<+T> = None | Some(value: T)

  /** Largest value of a 32-bit signed `int`. */
  const INT_MAX: int := 0x7fff_ffff
}
