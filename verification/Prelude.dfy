/** Types shared by all modules. */
module Prelude {

  datatype Option<+T> = None | Some(value: T)

  /** The range of Go's int64. */
  predicate Fits(x: int) { -0x8000_0000_0000_0000 <= x <= 0x7FFF_FFFF_FFFF_FFFF }

  type Int64 = x: int | -0x8000_0000_0000_0000 <= x <= 0x7FFF_FFFF_FFFF_FFFF

  const MIN_INT64: Int64 := -0x8000_0000_0000_0000
}
