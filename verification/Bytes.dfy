// Machine integers and the 32-byte raw HID report.
module Bytes {
  type u8 = x: int | 0 <= x < 0x100
  type u16 = x: int | 0 <= x < 0x1_0000
  type u32 = x: int | 0 <= x < 0x1_0000_0000

  const REPORT_LEN: nat := 32

  type Report = s: seq<u8> | |s| == REPORT_LEN witness seq(REPORT_LEN, i => 0)

  function High(x: u16): u8 { x / 0x100 }

  function Low(x: u16): u8 { x % 0x100 }

  function BigEndian16(hi: u8, lo: u8): u16 { hi * 0x100 + lo }

  function BigEndian32(a: u8, b: u8, c: u8, d: u8): u32
  {
    BigEndian16(a, b) * 0x1_0000 + BigEndian16(c, d)
  }

  function Bytes32(x: u32): (b: seq<u8>)
    ensures |b| == 4 && BigEndian32(b[0], b[1], b[2], b[3]) == x
  {
    var hi: u16, lo: u16 := x / 0x1_0000, x % 0x1_0000;
    [High(hi), Low(hi), High(lo), Low(lo)]
  }

  function Zeros(n: nat): (s: seq<u8>)
    ensures |s| == n
  {
    seq(n, i => 0)
  }
}
