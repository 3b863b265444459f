/**
 The bootloader's frame: `0x71 | cmd | len (LE16) | 0x00 | payload | crc (LE16)`,
 where the CRC-16/XMODEM covers `cmd | len | 0x00 | payload`. Both clients
 build frames with the same `build_packet` (qntool.py and nvdstool.py).
 */
module Frame {
  import opened Bytes
  import opened Results
  import opened Struct
  import opened Crc16

  const StartByte: byte := 0x71

  /** A command byte and its payload, as the device reads them out of a frame. */
  datatype Packet = Packet(cmd: int, payload: seq<byte>)

  /** The `<bH` header fields can hold the command and the payload length. */
  predicate Fits(p: Packet) {
    -128 <= p.cmd < 128 && |p.payload| < 0x1_0000
  }

  /** `struct.pack('<bHx', cmd, len(data)) + data`: the bytes the checksum covers. */
  function Message(p: Packet): (m: seq<byte>)
    requires Fits(p)
    ensures |m| == |p.payload| + 4
  {
    [S8Byte(p.cmd)] + Le16(|p.payload|) + [0] + p.payload
  }

  /** The frame for a packet whose fields fit. */
  function Encode(p: Packet): (f: seq<byte>)
    requires Fits(p)
    ensures |f| == |p.payload| + 7
  {
    var msg := Message(p);
    [StartByte] + msg + Le16(Crc(msg))
  }

  /**
   The device's side of the exchange: the packet a well-formed frame carries,
   `None` for anything else (wrong start byte, reserved byte not zero, length
   field disagreeing with the frame's size, checksum mismatch).
   */
  function Unframe(f: seq<byte>): Option<Packet> {
    if |f| < 7 || f[0] != StartByte || f[4] != 0 then None
    else if |f| != U16(f[2], f[3]) + 7 then None
    else if U16(f[|f| - 2], f[|f| - 1]) != Crc(f[1..|f| - 2]) then None
    else Some(Packet(S8(f[1]), f[5..|f| - 2]))
  }

  /** Where each field of a frame sits, for any two trailing checksum bytes. */
  lemma Layout(p: Packet, sum: seq<byte>)
    requires Fits(p) && |sum| == 2
    ensures var f := [StartByte] + Message(p) + sum;
      && |f| == |p.payload| + 7 && f[0] == StartByte && f[4] == 0
      && S8(f[1]) == p.cmd && U16(f[2], f[3]) == |p.payload|
      && f[1..|f| - 2] == Message(p) && f[5..|f| - 2] == p.payload
      && f[|f| - 2] == sum[0] && f[|f| - 1] == sum[1]
  {
    var f := [StartByte] + Message(p) + sum;
    assert f[1..|f| - 2] == Message(p);
    assert f[5..|f| - 2] == p.payload;
  }

  /** The encoding of a packet whose fields fit decodes back to it. */
  lemma UnframeOfEncode(p: Packet)
    requires Fits(p)
    ensures Unframe(Encode(p)) == Some(p)
  {
    Layout(p, Le16(Crc(Message(p))));
  }

  /** The four header bytes of a frame: command, length field holding the payload's length, reserved zero. */
  lemma HeaderOf(p: Packet) returns (header: seq<byte>)
    requires Fits(p)
    ensures |header| == 4 && U16(header[1], header[2]) == |p.payload|
    ensures Message(p) == header + p.payload
  {
    var len := Le16(|p.payload|);
    header := [S8Byte(p.cmd), len[0], len[1], 0];
    assert [S8Byte(p.cmd)] + len + [0] == header;
  }

  /** A frame is the start byte, a four-byte header whose length field is the payload's, the payload, and the checksum over header and payload. */
  lemma EncodeFields(p: Packet) returns (header: seq<byte>)
    requires Fits(p)
    ensures |header| == 4 && U16(header[1], header[2]) == |p.payload|
    ensures Encode(p) == [StartByte] + header + p.payload + Le16(Crc(header + p.payload))
  {
    header := HeaderOf(p);
    Associate([StartByte], header, p.payload, Le16(Crc(Message(p))));
  }

  lemma Associate(a: seq<byte>, b: seq<byte>, c: seq<byte>, d: seq<byte>)
    ensures a + (b + c) + d == a + b + c + d
  {
  }

  /** A frame splits into its start byte, the checksummed message and the checksum. */
  lemma Split(f: seq<byte>)
    requires |f| >= 7
    ensures f == [f[0]] + ([f[1]] + f[2..4] + [f[4]] + f[5..|f| - 2]) + [f[|f| - 2], f[|f| - 1]]
  {
  }

  /** Whatever decodes was produced by `Encode`: the frame is fully determined by its packet. */
  lemma EncodeOfUnframe(f: seq<byte>)
    requires Unframe(f).Some?
    ensures Fits(Unframe(f).value) && f == Encode(Unframe(f).value)
  {
    var n := |f|;
    var p := Unframe(f).value;
    var msg := f[1..n - 2];
    assert Fits(p);
    assert S8Byte(p.cmd) == f[1];
    assert Le16(|p.payload|) == f[2..4] by {
      Le16OfU16(f[2], f[3]);
    }
    assert Message(p) == msg by {
      Split(f);
    }
    assert Le16(Crc(msg)) == [f[n - 2], f[n - 1]] by {
      Le16OfU16(f[n - 2], f[n - 1]);
    }
    Split(f);
  }

  /** A frame decodes to a packet exactly when it is that packet's encoding. */
  lemma UnframeEncode(f: seq<byte>, p: Packet)
    ensures Unframe(f) == Some(p) <==> Fits(p) && f == Encode(p)
  {
    if Fits(p) && f == Encode(p) {
      UnframeOfEncode(p);
    }
    if Unframe(f) == Some(p) {
      EncodeOfUnframe(f);
    }
  }

  /** `build_packet(cmd, data)`, raising `struct.error` when a field does not fit. */
  function BuildPacket(cmd: int, data: seq<byte>): (r: Result<seq<byte>>)
    ensures r.Ok? <==> Fits(Packet(cmd, data))
    ensures !(-128 <= cmd < 128) ==> r == Err(OutOfRange(cmd))
    ensures -128 <= cmd < 128 && |data| >= 0x1_0000 ==> r == Err(OutOfRange(|data|))
    ensures r.Ok? ==> Unframe(r.value) == Some(Packet(cmd, data))
    ensures r.Ok? ==>
      var f := r.value;
      && |f| == |data| + 7 && f[0] == StartByte && f[4] == 0
      && U16(f[2], f[3]) == |data| && f[5..|f| - 2] == data
      && U16(f[|f| - 2], f[|f| - 1]) == Crc(f[1..|f| - 2])
  {
    if !(-128 <= cmd < 128) then Err(OutOfRange(cmd))
    else if |data| >= 0x1_0000 then Err(OutOfRange(|data|))
    else
      var p := Packet(cmd, data);
      UnframeEncode(Encode(p), p);
      Ok(Encode(p))
  }

  /** The checksum of the baud-rate command's message `34 04 00 00 2C 08 00 00` (given byte by byte) for the divisor 0x082C. */
  lemma BaudMessageCrc(s: seq<byte>)
    requires |s| == 8 && s[0] == 0x34 && s[1] == 0x04 && s[2] == 0x00 && s[3] == 0x00
    requires s[4] == 0x2C && s[5] == 0x08 && s[6] == 0x00 && s[7] == 0x00
    ensures Crc(s) == 0x59AA
  {
    FeedThree(0x0000, s, 0x34, 0x3400, 0x76D7, 0x04, 0x0400, 0x89D5, 0x00, 0x0000, 0xD5A1);
    FeedThree(0xD5A1, s[3..], 0x00, 0x0000, 0x3AD8, 0x2C, 0x2C00, 0xAAF7, 0x08, 0x0800, 0x62A8);
    FeedStep(0x62A8, s[6..], 0x00, 0x0000, 0xE4E4);
    FeedStep(0xE4E4, s[7..], 0x00, 0x0000, 0x59AA);
    assert s[3..][3..] == s[6..] && s[6..][1..] == s[7..] && s[7..][1..] == [];
  }

  /**
   The frame both clients send to switch the line to 115200 baud on the
   default 16 MHz clock: command 0x34 with the divisor register `2C 08 00 00`.
   */
  lemma BaudFrame()
    ensures BuildPacket(0x34, [0x2C, 0x08, 0x00, 0x00])
         == Ok([0x71, 0x34, 0x04, 0x00, 0x00, 0x2C, 0x08, 0x00, 0x00, 0xAA, 0x59])
  {
    var p := Packet(0x34, [0x2C, 0x08, 0x00, 0x00]);
    var msg: seq<byte> := [0x34, 0x04, 0x00, 0x00, 0x2C, 0x08, 0x00, 0x00];
    assert S8Byte(0x34) == 0x34;
    assert Le16(4) == [0x04, 0x00];
    assert Message(p) == msg;
    BaudMessageCrc(msg);
    assert Le16(0x59AA) == [0xAA, 0x59];
    assert Encode(p) == [StartByte] + msg + [0xAA, 0x59];
    BaudFrameBytes(msg);
    assert BuildPacket(0x34, p.payload) == Ok(Encode(p));
  }

  lemma BaudFrameBytes(msg: seq<byte>)
    requires msg == [0x34, 0x04, 0x00, 0x00, 0x2C, 0x08, 0x00, 0x00]
    ensures [StartByte] + msg + [0xAA, 0x59] == [0x71, 0x34, 0x04, 0x00, 0x00, 0x2C, 0x08, 0x00, 0x00, 0xAA, 0x59]
  {
  }
}
