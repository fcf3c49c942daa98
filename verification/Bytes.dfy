/** Machine integers of the firmware: bytes, 16- and 32-bit words in little-endian order. */
module Bytes {
  type byte = x: int | 0 <= x < 0x100
  type u16 = x: int | 0 <= x < 0x1_0000
  type u32 = x: int | 0 <= x < 0x1_0000_0000
  type bytes = seq<byte>

  datatype Option<+T> = None | Some(value: T)

  const WORD := 0x1_0000_0000

  /** LOW_BYTE */
  function Low(x: u16): byte { x % 0x100 }

  /** GROUPID_BYTE: bit 15 is reserved for future use and masked out */
  function GroupId(x: u16): byte { x / 0x100 % 0x80 }

  function PutLe16(x: u16): (b: bytes)
    ensures |b| == 2
  {
    [x % 0x100, x / 0x100]
  }

  function GetLe16(b: bytes): u16
    requires |b| == 2
  {
    (b[0] as int) + 0x100 * (b[1] as int)
  }

  function PutLe32(x: u32): (b: bytes)
    ensures |b| == 4
  {
    [x % 0x100, x / 0x100 % 0x100, x / 0x1_0000 % 0x100, x / 0x100_0000]
  }

  function GetLe32(b: bytes): u32
    requires |b| == 4
  {
    (b[0] as int) + 0x100 * (b[1] as int) + 0x1_0000 * (b[2] as int) + 0x100_0000 * (b[3] as int)
  }

  lemma Le16RoundTrip(x: u16)
    ensures GetLe16(PutLe16(x)) == x
  {
  }

  lemma Le32RoundTrip(x: u32)
    ensures GetLe32(PutLe32(x)) == x
  {
    assert x / 0x100 == x / 0x1_0000 * 0x100 + x / 0x100 % 0x100;
    assert x / 0x1_0000 == x / 0x100_0000 * 0x100 + x / 0x1_0000 % 0x100;
  }
}
