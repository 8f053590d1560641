/** The machine integers of the program. Arithmetic on them is written out with
    its wrap-around wherever a result can leave the range. */
module Integers {
  type u8 = x: int | 0 <= x < 0x100
  type u16 = x: int | 0 <= x < 0x1_0000
  type u32 = x: int | 0 <= x < 0x1_0000_0000
  type i32 = x: int | -0x8000_0000 <= x < 0x8000_0000

  function Distance(a: int, b: int): nat {
    if a < b then b - a else a - b
  }
}
