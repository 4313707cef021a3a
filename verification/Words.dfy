/** Fixed-width unsigned words of the firmware's C types, and a shared option type. */
module Words {
  type u8 = x: int | 0 <= x < 0x100
  type u16 = x: int | 0 <= x < 0x1_0000
  type u32 = x: int | 0 <= x < 0x1_0000_0000

  datatype Option<+T> = None | Some(value: T)

  /** The little-endian 16-bit value at an offset. */
  function Word(h: seq<u8>, i: nat): (w: u16)
    requires i + 1 < |h|
    ensures w % 256 == h[i] && w / 256 == h[i + 1]
  {
    var high: int := h[i + 1];
    high * 256 + h[i]
  }
}
