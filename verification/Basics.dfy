/** What several of the models share. */
module Basics {
  type byte = x: int | 0 <= x < 256

  datatype Option<+T> = None | Some(value: T)

  const U32 := 0x1_0000_0000

  type uint32 = x: int | 0 <= x < U32

  /** The conversion to a 32-bit signed integer. */
  function Int32(x: int): int {
    (x + 0x8000_0000) % U32 - 0x8000_0000
  }

  /** nstime_t */
  datatype Time = Time(secs: int, nsecs: int)

  /** The / of C, which rounds toward zero. */
  function TruncDiv(a: int, b: int): int
    requires b != 0
  {
    if (0 <= a) == (0 < b) then Abs(a) / Abs(b) else -(Abs(a) / Abs(b))
  }

  function Abs(a: int): nat {
    if a < 0 then -a else a
  }
}
