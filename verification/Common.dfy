/** Values shared by several components. */
module Common {

  datatype Option<+T> = None | Some(value: T)

  type u8 = x: int | 0 <= x < 0x100
  type u16 = x: int | 0 <= x < 0x1_0000
  type u32 = x: int | 0 <= x < 0x1_0000_0000

  /** Conversion of an integer to a 32-bit unsigned word. */
  function Wrap32(x: int): u32 {
    x % 0x1_0000_0000
  }
}
