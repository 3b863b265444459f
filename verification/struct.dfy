/** The little-endian `struct` formats the client packs and unpacks: `<H`, `<L` and `b`. */
module Struct {
  import opened Bytes
  import opened Results

  /** The integer an unsigned little-endian 16-bit field holds. */
  function U16(lo: byte, hi: byte): (v: int)
    ensures 0 <= v < 0x1_0000
  {
    lo as int + 256 * hi
  }

  /** `struct.pack('<H', v)` for a value the format can hold. */
  function Le16(v: int): (r: seq<byte>)
    requires 0 <= v < 0x1_0000
    ensures |r| == 2 && U16(r[0], r[1]) == v
  {
    [v % 256, v / 256]
  }

  lemma Le16OfU16(lo: byte, hi: byte)
    ensures Le16(U16(lo, hi)) == [lo, hi]
  {
  }

  /** `struct.pack('<H', v)`, which raises for a value outside 0..65535. */
  function PackU16(v: int): (r: Result<seq<byte>>)
    ensures r.Ok? <==> 0 <= v < 0x1_0000
    ensures r.Ok? ==> |r.value| == 2 && U16(r.value[0], r.value[1]) == v
    ensures r.Err? ==> r.fault == OutOfRange(v)
  {
    if 0 <= v < 0x1_0000 then Ok(Le16(v)) else Err(OutOfRange(v))
  }

  /** The integer an unsigned little-endian 32-bit field holds. */
  function U32(b: seq<byte>): (v: int)
    requires |b| == 4
    ensures 0 <= v < 0x1_0000_0000
  {
    b[0] as int + 256 * (b[1] as int) + 65536 * (b[2] as int) + 16777216 * (b[3] as int)
  }

  /** `struct.pack('<L', v)` for a value the format can hold. */
  function Le32(v: int): (r: seq<byte>)
    requires 0 <= v < 0x1_0000_0000
    ensures |r| == 4 && U32(r) == v
  {
    var q1 := v / 256;
    var q2 := q1 / 256;
    var q3 := q2 / 256;
    assert v == v % 256 + 256 * q1 && q1 == q1 % 256 + 256 * q2 && q2 == q2 % 256 + 256 * q3;
    [v % 256, q1 % 256, q2 % 256, q3]
  }

  /** Packing the value four bytes hold gives those bytes back. */
  lemma Le32OfU32(b: seq<byte>)
    requires |b| == 4
    ensures Le32(U32(b)) == b
  {
    var v := U32(b);
    var q1 := b[1] as int + 256 * (b[2] as int) + 65536 * (b[3] as int);
    var q2 := b[2] as int + 256 * (b[3] as int);
    assert v == b[0] as int + 256 * q1 && q1 == b[1] as int + 256 * q2 && q2 == b[2] as int + 256 * (b[3] as int);
    assert v % 256 == b[0] as int && v / 256 == q1;
    assert q1 % 256 == b[1] as int && q1 / 256 == q2;
    assert q2 % 256 == b[2] as int && q2 / 256 == b[3] as int;
  }

  /** `struct.pack('<L', v)`, which raises for a value outside 0..2^32-1. */
  function PackU32(v: int): (r: Result<seq<byte>>)
    ensures r.Ok? <==> 0 <= v < 0x1_0000_0000
    ensures r.Ok? ==> |r.value| == 4 && U32(r.value) == v
    ensures r.Err? ==> r.fault == OutOfRange(v)
  {
    if 0 <= v < 0x1_0000_0000 then Ok(Le32(v)) else Err(OutOfRange(v))
  }

  /** The signed value a `b` field holds (two's complement). */
  function S8(b: byte): (v: int)
    ensures -128 <= v < 128 && v % 256 == b
  {
    if b < 128 then b else b - 256
  }

  /** `struct.pack('b', v)` for a value in -128..127. */
  function S8Byte(v: int): (b: byte)
    requires -128 <= v < 128
    ensures S8(b) == v
  {
    v % 256
  }
}
