/**
 CRC-16/XMODEM, the checksum the bootloader frames carry: polynomial 0x1021,
 initial value 0x0000, bits taken most significant first, no final XOR.
 */
module Crc16 {
  import opened Bytes

  const Poly: bv16 := 0x1021

  /** One step of the shift register: shift one bit out of the top, XORing in the polynomial when it was set. */
  function Bit(crc: bv16): bv16 {
    if crc & 0x8000 != 0 then (crc << 1) ^ Poly else crc << 1
  }

  /** Eight steps of the shift register. */
  function Shift8(crc: bv16): bv16 {
    Bit(Bit(Bit(Bit(Bit(Bit(Bit(Bit(crc))))))))
  }

  /** The register after feeding one byte: the byte XORed into the top half, then eight steps. */
  function Feed(crc: bv16, b: byte): bv16 {
    Shift8(crc ^ ((b as bv16) << 8))
  }

  /** The register after feeding `s` in order, starting from `crc`. */
  function FeedAll(crc: bv16, s: seq<byte>): bv16
    decreases |s|
  {
    if s == [] then crc else FeedAll(Feed(crc, s[0]), s[1..])
  }

  /** `crc16.crc16xmodem(s)`. */
  function Crc(s: seq<byte>): (r: int)
    ensures 0 <= r < 0x1_0000
  {
    FeedAll(0, s) as int
  }

  /** One step of `FeedAll`, with the byte already moved into the top half as `top`. */
  lemma FeedStep(crc: bv16, s: seq<byte>, b: byte, top: bv16, next: bv16)
    requires s != [] && s[0] == b && (b as bv16) << 8 == top && Shift8(crc ^ top) == next
    ensures FeedAll(crc, s) == FeedAll(next, s[1..])
  {
  }

  /** Three steps of `FeedAll`, each byte given with its top-half image and the register after it. */
  lemma FeedThree(c0: bv16, s: seq<byte>, b0: byte, t0: bv16, c1: bv16, b1: byte, t1: bv16, c2: bv16, b2: byte, t2: bv16, c3: bv16)
    requires |s| >= 3 && s[0] == b0 && s[1] == b1 && s[2] == b2
    requires (b0 as bv16) << 8 == t0 && (b1 as bv16) << 8 == t1 && (b2 as bv16) << 8 == t2
    requires Shift8(c0 ^ t0) == c1 && Shift8(c1 ^ t1) == c2 && Shift8(c2 ^ t2) == c3
    ensures FeedAll(c0, s) == FeedAll(c3, s[3..])
  {
    FeedStep(c0, s, b0, t0, c1);
    FeedStep(c1, s[1..], b1, t1, c2);
    FeedStep(c2, s[2..], b2, t2, c3);
    assert s[1..][1..][1..] == s[3..];
  }

  /** The published CRC-16/XMODEM check value: the CRC of the ASCII digits "123456789" (given byte by byte) is 0x31C3. */
  lemma CheckValue(s: seq<byte>)
    requires |s| == 9 && s[0] == 0x31 && s[1] == 0x32 && s[2] == 0x33 && s[3] == 0x34 && s[4] == 0x35
    requires s[5] == 0x36 && s[6] == 0x37 && s[7] == 0x38 && s[8] == 0x39
    ensures Crc(s) == 0x31C3
  {
    FeedThree(0x0000, s, 0x31, 0x3100, 0x2672, 0x32, 0x3200, 0x20B5, 0x33, 0x3300, 0x9752);
    FeedThree(0x9752, s[3..], 0x34, 0x3400, 0xD789, 0x35, 0x3500, 0x546C, 0x36, 0x3600, 0x20E4);
    FeedThree(0x20E4, s[6..], 0x37, 0x3700, 0x86D6, 0x38, 0x3800, 0x9015, 0x39, 0x3900, 0x31C3);
    assert s[3..][3..] == s[6..] && s[6..][3..] == [];
  }
}
