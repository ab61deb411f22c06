/** Fixed-width integer types of the .NET runtime, as ranges of Dafny's unbounded integers. */
module Ints {
  const TwoTo31: nat := 0x8000_0000
  const TwoTo32: nat := 0x1_0000_0000
  const MaxInt32: nat := 0x7fff_ffff

  newtype byte = x: int | 0 <= x < 0x100
  type uint32 = x: int | 0 <= x < 0x1_0000_0000
  type uint64 = x: int | 0 <= x < 0x1_0000_0000_0000_0000
  type int32 = x: int | -0x8000_0000 <= x < 0x8000_0000

  /** Two's-complement wrap-around of a C# `int` expression whose exact value is x. */
  function WrapInt32(x: int): (r: int32)
    ensures (r - x) % TwoTo32 == 0
    ensures -0x8000_0000 <= x < 0x8000_0000 ==> r == x
  {
    (x + TwoTo31) % TwoTo32 - TwoTo31
  }
}
