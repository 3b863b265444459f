/**
 The programming client of qntool.py: the UART divisor computation, the
 reply decoder, the command wrappers, the handshake, and the sequences the
 command line runs (read the NVDS block, write it, upload an application).
 */
module QnTool {
  import opened Bytes
  import opened Results
  import opened Struct
  import opened Crc16
  import opened Transport
  import opened Frame
  import opened Session
  import Nvds

  // ---------------------------------------------------------------------------
  // calc_div
  // ---------------------------------------------------------------------------

  /** Python 2's `a / b` on integers: the quotient rounded towards minus infinity. */
  function FloorDiv(a: int, b: int): (q: int)
    requires b != 0
    ensures b > 0 ==> q * b <= a < q * b + b
    ensures b < 0 ==> q * b >= a > q * b + b
  {
    if b > 0 then a / b else (-a) / (-b)
  }

  /**
   `calc_div(clock, baudrate)`: the integer part of `clock / (16 * baudrate)`
   in the upper bits and the remainder in 64ths, rounded, in the low byte.
   */
  function CalcDiv(clock: int, baud: int): (r: Result<int>)
    ensures r.Err? <==> baud == 0
    ensures r.Err? ==> r.fault == DivisionByZero
  {
    var tmp := 16 * baud;
    if tmp == 0 then Err(DivisionByZero)
    else
      var inter := FloorDiv(clock, tmp);
      var frac := FloorDiv((clock - inter * tmp) * 64 + FloorDiv(tmp, 2), tmp);
      Ok(inter * 256 + frac)
  }

  /** `struct.pack('<L', calc_div(clock, baudrate))`, the payload of command 0x34. */
  function DivisorRegister(clock: int, baud: int): (r: Result<seq<byte>>)
    ensures r.Ok? <==> CalcDiv(clock, baud).Ok? && 0 <= CalcDiv(clock, baud).value < 0x1_0000_0000
    ensures r.Ok? ==> |r.value| == 4 && U32(r.value) == CalcDiv(clock, baud).value
  {
    var v :- CalcDiv(clock, baud);
    PackU32(v)
  }

  /**
   For a positive baud rate the fraction is the remainder of
   `clock / (16 * baud)` rounded to the nearest 64th, so it lies in 0..64 and
   never reaches into the integer part: the value's upper bits are the floor
   quotient and its low byte is the fraction.
   */
  lemma CalcDivFields(clock: int, baud: int)
    requires baud > 0
    ensures var tmp := 16 * baud;
      var r := CalcDiv(clock, baud);
      var inter := FloorDiv(clock, tmp);
      var frac := r.value % 256;
      && r.Ok? && r.value / 256 == inter
      && 0 <= frac <= 64
      && -tmp / 2 < frac * tmp - (clock - inter * tmp) * 64 <= tmp / 2
  {
    var tmp := 16 * baud;
    var inter := FloorDiv(clock, tmp);
    var rem := clock - inter * tmp;
    RoundedFraction(rem, tmp);
    var frac := FloorDiv(rem * 64 + FloorDiv(tmp, 2), tmp);
    assert frac == (rem * 64 + tmp / 2) / tmp;
    assert CalcDiv(clock, baud) == Ok(inter * 256 + frac);
    SplitByte(inter, frac);
  }

  /** The rounded fraction of a remainder below the divisor is at most 64. */
  lemma RoundedFraction(rem: int, tmp: int)
    requires 0 <= rem < tmp && tmp % 2 == 0
    ensures var frac := (rem * 64 + tmp / 2) / tmp;
      && 0 <= frac <= 64
      && -tmp / 2 < frac * tmp - rem * 64 <= tmp / 2
  {
    var n := rem * 64 + tmp / 2;
    var frac := n / tmp;
    var m := n % tmp;
    assert n == frac * tmp + m && 0 <= m < tmp;
    assert n < 65 * tmp;
    BelowMultiple(frac, 65, tmp);
  }

  /** `a * t < b * t` with `t` positive means `a < b`. */
  lemma BelowMultiple(a: int, b: int, t: int)
    requires t > 0 && a * t < b * t
    ensures a < b
  {
  }

  /** A value below 256 in the low byte leaves the upper part intact. */
  lemma SplitByte(hi: int, lo: int)
    requires 0 <= lo < 256
    ensures (hi * 256 + lo) / 256 == hi && (hi * 256 + lo) % 256 == lo
  {
  }

  /**
   On the default 16 MHz clock at 115200 baud the register is 0x082C, packed
   as `2C 08 00 00`: the bytes the handshake has always sent.
   */
  lemma DefaultDivisor()
    ensures CalcDiv(16000000, 115200) == Ok(0x082C)
    ensures DivisorRegister(16000000, 115200) == Ok([0x2C, 0x08, 0x00, 0x00])
  {
    assert FloorDiv(16000000, 1843200) == 8;
    assert FloorDiv(1843200, 2) == 921600;
    assert FloorDiv((16000000 - 8 * 1843200) * 64 + 921600, 1843200) == 44;
    Le32OfU32([0x2C, 0x08, 0x00, 0x00]);
  }

  // ---------------------------------------------------------------------------
  // read_packet
  // ---------------------------------------------------------------------------

  /** What `read_packet` returns: nothing (confirm only), a one-byte result code, or a frame's payload. */
  datatype Reply = Nothing | Code(code: byte) | Payload(data: seq<byte>)

  /** The one-byte results: 0x03 for success, 0x04 for failure. */
  predicate IsCode(b: byte) {
    b == 3 || b == 4
  }

  /**
   The rest of a full reply once its start byte has been read: the four
   header bytes (a short header is a `struct.error`), then the start byte's
   check, the payload of the length the header gives, and the checksum over
   header and payload.
   */
  function ReadFrame(link: Link, start: byte): (r: Step<Reply>)
    ensures r.link.sent == link.sent
    ensures r.Done? ==> start == StartByte && r.value.Payload?
    ensures start != StartByte ==> r.Failed?
  {
    var (header, l1) := Receive(link, 4);
    if |header| < 4 then Failed(ShortHeader, l1)
    else if start != StartByte then Failed(StartByteExpected(start), l1)
    else
      var (data, l2) := Receive(l1, U16(header[1], header[2]));
      var (sum, l3) := Receive(l2, 2);
      if sum != Le16(Crc(header + data)) then Failed(BadChecksum, l3)
      else Done(Payload(data), l3)
  }

  /**
   `read_packet(only_confirm)`: the 0x01 that accepts the command, then,
   unless only the confirmation is wanted, either a one-byte result code or a
   full frame.
   */
  function ReadPacket(link: Link, onlyConfirm: bool): (r: Step<Reply>)
    ensures r.link.sent == link.sent
    ensures r.Done? ==> |link.input| > 0 && link.input[0] == Byte(Ack)
    ensures (link.input == [] || link.input[0] != Byte(Ack)) ==> r.Failed? && r.fault.SyncExpected?
    ensures r.Done? ==> (r.value == Nothing <==> onlyConfirm)
    ensures onlyConfirm && |link.input| > 0 && link.input[0] == Byte(Ack) ==>
      r == Done(Nothing, Link(link.input[1..], link.sent))
    ensures !onlyConfirm && |link.input| > 0 && link.input[0] == Byte(Ack) ==>
      if |link.input| == 1 || link.input[1] == Gap then r.Failed? && r.fault == NoStartByte
      else if IsCode(link.input[1].b) then r == Done(Code(link.input[1].b), Link(link.input[2..], link.sent))
      else if link.input[1].b != StartByte then r.Failed?
      else r.Done? ==> r.value.Payload?
  {
    var (sync, l1) := ReceiveByte(link);
    if sync != [Ack] then Failed(SyncExpected(sync), l1)
    else if onlyConfirm then Done(Nothing, l1)
    else
      var (start, l2) := ReceiveByte(l1);
      if start == [] then Failed(NoStartByte, l2)
      else if IsCode(start[0]) then Done(Code(start[0]), l2)
      else ReadFrame(l2, start[0])
  }

  /** How a reply's bytes lie on the line, field by field. */
  lemma ReplyLayout(header: seq<byte>, data: seq<byte>, sum: seq<byte>, rest: seq<Rx>)
    ensures Wire([Ack, StartByte] + header + data + sum) + rest
         == Wire([Ack]) + (Wire([StartByte]) + (Wire(header) + (Wire(data) + (Wire(sum) + rest))))
  {
    WireAppend([Ack, StartByte] + header + data, sum);
    WireAppend([Ack, StartByte] + header, data);
    WireAppend([Ack, StartByte], header);
    WireAppend([Ack], [StartByte]);
  }

  /** The part of a reply after its start byte, read by `ReadFrame`. */
  lemma ReadFrameWire(header: seq<byte>, data: seq<byte>, sum: seq<byte>, rest: seq<Rx>, sent: seq<Event>)
    requires |header| == 4 && |data| == U16(header[1], header[2]) && |sum| == 2
    ensures ReadFrame(Link(Wire(header) + (Wire(data) + (Wire(sum) + rest)), sent), StartByte)
      == if sum == Le16(Crc(header + data)) then Done(Payload(data), Link(rest, sent))
         else Failed(BadChecksum, Link(rest, sent))
  {
    ReadWire(header, Wire(data) + (Wire(sum) + rest));
    ReadWire(data, Wire(sum) + rest);
    ReadWire(sum, rest);
  }

  /**
   A complete reply on the line, its length field matching its payload: it is
   accepted exactly when its two trailing bytes are the checksum over header
   and payload, and either way the reply is consumed and nothing more.
   */
  lemma FrameChecksum(header: seq<byte>, data: seq<byte>, sum: seq<byte>, rest: seq<Rx>, sent: seq<Event>)
    requires |header| == 4 && |data| == U16(header[1], header[2]) && |sum| == 2
    ensures ReadPacket(Link(Wire([Ack, StartByte] + header + data + sum) + rest, sent), false)
      == if sum == Le16(Crc(header + data)) then Done(Payload(data), Link(rest, sent))
         else Failed(BadChecksum, Link(rest, sent))
  {
    var r2 := Wire(header) + (Wire(data) + (Wire(sum) + rest));
    var r1 := Wire([StartByte]) + r2;
    ReplyLayout(header, data, sum, rest);
    ReadWire([Ack], r1);
    ReadWire([StartByte], r2);
    ReadFrameWire(header, data, sum, rest, sent);
  }

  /** The frame that `build_packet` produces, answered with 0x01 in front, reads back as its payload. */
  lemma ReadPacketRoundTrip(p: Packet, rest: seq<Rx>, sent: seq<Event>)
    requires Fits(p)
    ensures ReadPacket(Link(Wire([Ack] + Encode(p)) + rest, sent), false) == Done(Payload(p.payload), Link(rest, sent))
  {
    var header := EncodeFields(p);
    var sum := Le16(Crc(header + p.payload));
    Prepend(Ack, StartByte, header, p.payload, sum);
    FrameChecksum(header, p.payload, sum, rest, sent);
  }

  // ---------------------------------------------------------------------------
  // commands
  // ---------------------------------------------------------------------------

  /** `send_command(cmd, data)` followed by `read_packet(only_confirm)`. */
  function Call(link: Link, cmd: int, data: seq<byte>, onlyConfirm: bool): (r: Step<Reply>)
    ensures !Fits(Packet(cmd, data)) ==> r.Failed? && r.link == link && r.fault.OutOfRange?
    ensures Fits(Packet(cmd, data)) ==>
      r.link.sent == link.sent + [Send(Encode(Packet(cmd, data)))] && Packets(r.link.sent) == Packets(link.sent) + [Packet(cmd, data)]
    ensures r.Done? ==> (r.value == Nothing <==> onlyConfirm)
  {
    match SendCommand(link, cmd, data)
    case Failed(e, l) => Failed(e, l)
    case Done(_, l) => ReadPacket(l, onlyConfirm)
  }

  /** A command whose payload is one `<L` word; a value the word cannot hold raises before anything is sent. */
  function CallWord(link: Link, cmd: int, word: int, onlyConfirm: bool): (r: Step<Reply>)
    requires -128 <= cmd < 128
    ensures !(0 <= word < 0x1_0000_0000) ==> r == Failed(OutOfRange(word), link)
    ensures 0 <= word < 0x1_0000_0000 ==>
      |r.link.sent| == |link.sent| + 1 && Packets(r.link.sent) == Packets(link.sent) + [Packet(cmd, Le32(word))]
    ensures r.Done? ==> (r.value == Nothing <==> onlyConfirm)
  {
    match PackU32(word)
    case Err(e) => Failed(e, link)
    case Ok(payload) => Call(link, cmd, payload, onlyConfirm)
  }

  /** `set_program_address(address)`: where the next erase, program or read starts. */
  function SetProgramAddress(link: Link, address: int): (r: Step<Reply>)
    ensures !(0 <= address < 0x1_0000_0000) ==> r == Failed(OutOfRange(address), link)
    ensures 0 <= address < 0x1_0000_0000 ==>
      Packets(r.link.sent) == Packets(link.sent) + [Packet(ProgramAddressCmd, Le32(address))]
    ensures r.Done? ==> r.value == Nothing
  {
    CallWord(link, ProgramAddressCmd, address, true)
  }

  /** `sector_erase(sector_count)`. */
  function SectorErase(link: Link, count: int): (r: Step<Reply>)
    ensures !(0 <= count < 0x1_0000_0000) ==> r == Failed(OutOfRange(count), link)
    ensures 0 <= count < 0x1_0000_0000 ==>
      Packets(r.link.sent) == Packets(link.sent) + [Packet(SectorEraseCmd, Le32(count))]
    ensures r.Done? ==> r.value != Nothing
  {
    CallWord(link, SectorEraseCmd, count, false)
  }

  /** `set_load_target(target)`: 1 loads to flash, 0 to SRAM. */
  function SetLoadTarget(link: Link, target: int): (r: Step<Reply>)
    ensures !(0 <= target < 0x1_0000_0000) ==> r == Failed(OutOfRange(target), link)
    ensures 0 <= target < 0x1_0000_0000 ==>
      Packets(r.link.sent) == Packets(link.sent) + [Packet(LoadTargetCmd, Le32(target))]
    ensures r.Done? ==> r.value == Nothing
  {
    CallWord(link, LoadTargetCmd, target, true)
  }

  /** `program(data)`: write a chunk at the program address. */
  function Program(link: Link, data: seq<byte>): (r: Step<Reply>)
    ensures |data| >= 0x1_0000 ==> r == Failed(OutOfRange(|data|), link)
    ensures |data| < 0x1_0000 ==> Packets(r.link.sent) == Packets(link.sent) + [Packet(ProgramCmd, data)]
    ensures r.Done? ==> r.value != Nothing
  {
    Call(link, ProgramCmd, data, false)
  }

  /** `reboot()`. */
  function Reboot(link: Link): (r: Step<Reply>)
    ensures Packets(r.link.sent) == Packets(link.sent) + [Packet(RebootCmd, [])]
    ensures r.Done? ==> r.value == Nothing
  {
    assert Fits(Packet(RebootCmd, []));
    Call(link, RebootCmd, [], true)
  }

  /** `get_bootloader_version()`. */
  function GetBootloaderVersion(link: Link): (r: Step<Reply>)
    ensures Packets(r.link.sent) == Packets(link.sent) + [Packet(BootloaderVersionCmd, [])]
    ensures r.Done? ==> r.value != Nothing
  {
    assert Fits(Packet(BootloaderVersionCmd, []));
    Call(link, BootloaderVersionCmd, [], false)
  }

  /** `get_chip_id()`. */
  function GetChipId(link: Link): (r: Step<Reply>)
    ensures Packets(r.link.sent) == Packets(link.sent) + [Packet(ChipIdCmd, [])]
    ensures r.Done? ==> r.value != Nothing
  {
    assert Fits(Packet(ChipIdCmd, []));
    Call(link, ChipIdCmd, [], false)
  }

  /** `get_flash_id()`. */
  function GetFlashId(link: Link): (r: Step<Reply>)
    ensures Packets(r.link.sent) == Packets(link.sent) + [Packet(FlashIdCmd, [])]
    ensures r.Done? ==> r.value != Nothing
  {
    assert Fits(Packet(FlashIdCmd, []));
    Call(link, FlashIdCmd, [], false)
  }

  // ---------------------------------------------------------------------------
  // validate_nvds and the 256-byte chunks
  // ---------------------------------------------------------------------------

  /** `validate_nvds(data)`: the signature is checked first, then the size. */
  function ValidateNvds(data: seq<byte>): (r: Result<()>)
    ensures r.Ok? <==> |data| == Nvds.BlockSize && data[..4] == Nvds.Signature
    ensures Take(data, 4) != Nvds.Signature ==> r == Err(MissingNvdsHeader)
    ensures Take(data, 4) == Nvds.Signature && |data| != Nvds.BlockSize ==> r == Err(BadNvdsLength(|data|))
  {
    if Take(data, 4) != Nvds.Signature then Err(MissingNvdsHeader)
    else if |data| != Nvds.BlockSize then Err(BadNvdsLength(|data|))
    else Ok(())
  }

  /** A block `dumps` produces from entries that fit in it passes `validate_nvds`. */
  lemma DumpsValidates(es: seq<Nvds.Entry>)
    requires Nvds.Packable(es) && 4 + Nvds.EncodedSize(es) <= Nvds.BlockSize
    ensures ValidateNvds(Nvds.Dumps(es).value) == Ok(())
  {
    var _ := Nvds.DumpsSplit(es);
  }

  /** `data[n:n+256]` for `n` in `range(0, len(data), 256)`. */
  function Chunks(data: seq<byte>): (cs: seq<seq<byte>>)
    decreases |data|
    ensures |cs| == (|data| + 255) / 256
    ensures forall i | 0 <= i < |cs| :: 0 < |cs[i]| <= 256
    ensures Flatten(cs) == data
  {
    if data == [] then []
    else
      var cs := [Take(data, 256)] + Chunks(Drop(data, 256));
      assert cs[1..] == Chunks(Drop(data, 256));
      cs
  }

  /** Chunk `i` is the slice of `data` from `256 * i`, 256 bytes long or cut short by the end of `data`. */
  lemma {:induction false} ChunkAt(data: seq<byte>, i: nat)
    requires i < |Chunks(data)|
    ensures 256 * i < |data|
    ensures Chunks(data)[i] == data[256 * i..ChunkEnd(|data|, i)]
    decreases i
  {
    if i > 0 {
      var tail := Drop(data, 256);
      assert Chunks(data)[i] == Chunks(tail)[i - 1];
      ChunkAt(tail, i - 1);
      ChunkShift(data, tail, i, Chunks(data)[i]);
    }
  }

  /** Where chunk `i` of a string of `n` bytes ends. */
  function ChunkEnd(n: nat, i: nat): nat {
    if 256 * i + 256 <= n then 256 * i + 256 else n
  }

  /** Chunk `i - 1` of what follows the first chunk is chunk `i` of the whole. */
  lemma ChunkShift(data: seq<byte>, tail: seq<byte>, i: nat, c: seq<byte>)
    requires i > 0 && |data| > 256 && tail == data[256..]
    requires 256 * (i - 1) < |tail| && c == tail[256 * (i - 1)..ChunkEnd(|tail|, i - 1)]
    ensures 256 * i < |data| && c == data[256 * i..ChunkEnd(|data|, i)]
  {
    assert 256 * i == 256 + 256 * (i - 1);
  }

  /** A block that passes `validate_nvds` is programmed as exactly 16 full chunks. */
  lemma ValidBlockChunks(data: seq<byte>)
    requires ValidateNvds(data).Ok?
    ensures |Chunks(data)| == 16
    ensures forall i | 0 <= i < 16 :: Chunks(data)[i] == data[256 * i..256 * i + 256]
  {
    forall i | 0 <= i < 16
      ensures Chunks(data)[i] == data[256 * i..256 * i + 256]
    {
      ChunkAt(data, i);
    }
  }

  // ---------------------------------------------------------------------------
  // the sequences the command line runs
  // ---------------------------------------------------------------------------

  /** One program command per chunk, in order. */
  function Programs(chunks: seq<seq<byte>>): (ps: seq<Packet>)
    ensures |ps| == |chunks| && forall i | 0 <= i < |chunks| :: ps[i] == Packet(ProgramCmd, chunks[i])
  {
    seq(|chunks|, i requires 0 <= i < |chunks| => Packet(ProgramCmd, chunks[i]))
  }

  lemma ProgramsSnoc(chunks: seq<seq<byte>>)
    requires chunks != []
    ensures Programs(chunks) == Programs(chunks[..|chunks| - 1]) + [Packet(ProgramCmd, chunks[|chunks| - 1])]
  {
  }

  /** The `program(chunk)` loop: each chunk in turn, each reply read and then ignored. */
  function ProgramAll(link: Link, chunks: seq<seq<byte>>): (r: Step<()>)
    decreases |chunks|
    ensures r.Done? ==> Packets(r.link.sent) == Packets(link.sent) + Programs(chunks)
  {
    if chunks == [] then Done((), link)
    else
      var n := |chunks| - 1;
      match ProgramAll(link, chunks[..n])
      case Failed(e, l) => Failed(e, l)
      case Done(_, l) =>
        match Program(l, chunks[n])
        case Failed(e, l') => Failed(e, l')
        case Done(_, l') =>
          assert |chunks[n]| < 0x1_0000;
          ProgramsSnoc(chunks);
          Then(link.sent, l.sent, l'.sent, Programs(chunks[..n]), [Packet(ProgramCmd, chunks[n])]);
          Done((), l')
  }

  /**
   `n` rounds of one command expecting a payload, the payloads appended in
   order; a reply that is not a payload cannot be appended to a string.
   */
  function Repeat(link: Link, cmd: int, data: seq<byte>, n: nat): (r: Step<seq<byte>>)
    requires Fits(Packet(cmd, data))
    decreases n
    ensures r.Done? ==> Packets(r.link.sent) == Packets(link.sent) + Copies(Packet(cmd, data), n)
  {
    if n == 0 then Done([], link)
    else
      match Repeat(link, cmd, data, n - 1)
      case Failed(e, l) => Failed(e, l)
      case Done(out, l) =>
        var reply := Call(l, cmd, data, false);
        Then(link.sent, l.sent, reply.link.sent, Copies(Packet(cmd, data), n - 1), [Packet(cmd, data)]);
        Collect(out, reply)
  }

  /** `out += reply`: a payload is appended, anything else cannot be appended to a string. */
  function Collect(out: seq<byte>, reply: Step<Reply>): (r: Step<seq<byte>>)
    ensures r.link == reply.link
    ensures r.Done? <==> reply.Done? && reply.value.Payload?
    ensures r.Done? ==> r.value == out + reply.value.data
    ensures reply.Done? && !reply.value.Payload? ==> r.fault == NotAPayload
  {
    match reply
    case Failed(e, l) => Failed(e, l)
    case Done(Payload(page), l) => Done(out + page, l)
    case Done(_, l) => Failed(NotAPayload, l)
  }

  /** The page loop of `read_nvds`: `n` requests for the next page. */
  function ReadPages(link: Link, n: nat): (r: Step<seq<byte>>)
    ensures r.Done? ==> Packets(r.link.sent) == Packets(link.sent) + PageRequests(n)
  {
    assert Fits(Packet(ReadCmd, PageRequest));
    Repeat(link, ReadCmd, PageRequest, n)
  }

  /** The `<L` words of the NVDS block's address and sector count. */
  lemma NvdsWords()
    ensures Le32(0) == [0, 0, 0, 0] && Le32(1) == [1, 0, 0, 0]
  {
    Le32OfU32([0, 0, 0, 0]);
    Le32OfU32([1, 0, 0, 0]);
  }

  /**
   `read_nvds()`: the program address set to 0, then 16 pages read. The block
   is validated only to log a warning, so an invalid block is returned as read.
   */
  function ReadNvds(link: Link): (r: Step<seq<byte>>)
    ensures r.Done? ==> Packets(r.link.sent) == Packets(link.sent) + [Packet(ProgramAddressCmd, [0, 0, 0, 0])] + PageRequests(16)
  {
    match SetProgramAddress(link, 0)
    case Failed(e, l) => Failed(e, l)
    case Done(_, l) =>
      NvdsWords();
      ReadPages(l, 16)
  }

  /** `set_program_address(address)` then `sector_erase(sectors)`, as both write modes start. */
  function Erase(link: Link, address: int, sectors: int): (r: Step<()>)
    ensures r.Done? ==> 0 <= address < 0x1_0000_0000 && 0 <= sectors < 0x1_0000_0000
    ensures r.Done? ==>
      Packets(r.link.sent)
        == Packets(link.sent) + [Packet(ProgramAddressCmd, Le32(address))] + [Packet(SectorEraseCmd, Le32(sectors))]
  {
    match SetProgramAddress(link, address)
    case Failed(e, l) => Failed(e, l)
    case Done(_, l1) =>
      match SectorErase(l1, sectors)
      case Failed(e, l) => Failed(e, l)
      case Done(_, l2) => Done((), l2)
  }

  /** The program address set, then the chunks of `data` programmed from there. */
  function ProgramFrom(link: Link, address: int, data: seq<byte>): (r: Step<()>)
    ensures r.Done? ==> 0 <= address < 0x1_0000_0000
    ensures r.Done? ==>
      Packets(r.link.sent) == Packets(link.sent) + [Packet(ProgramAddressCmd, Le32(address))] + Programs(Chunks(data))
  {
    match SetProgramAddress(link, address)
    case Failed(e, l) => Failed(e, l)
    case Done(_, l1) =>
      match ProgramAll(l1, Chunks(data))
      case Failed(e, l) => Failed(e, l)
      case Done(_, l2) => Done((), l2)
  }

  /**
   The write mode of the command line: a block that fails `validate_nvds` is
   refused unless forced; otherwise sector 0 is erased and the block is
   programmed from address 0 in 256-byte chunks.
   */
  function WriteNvds(link: Link, data: seq<byte>, force: bool): (r: Step<()>)
    ensures ValidateNvds(data).Err? && !force ==> r == Failed(ValidateNvds(data).fault, link)
    ensures r.Done? ==> ValidateNvds(data).Ok? || force
    ensures r.Done? ==>
      Packets(r.link.sent)
        == Packets(link.sent)
           + [Packet(ProgramAddressCmd, [0, 0, 0, 0])] + [Packet(SectorEraseCmd, [1, 0, 0, 0])]
           + [Packet(ProgramAddressCmd, [0, 0, 0, 0])] + Programs(Chunks(data))
  {
    var check := ValidateNvds(data);
    if check.Err? && !force then Failed(check.fault, link)
    else
      NvdsWords();
      match Erase(link, 0, 1)
      case Failed(e, l) => Failed(e, l)
      case Done(_, l1) =>
        match ProgramFrom(l1, 0, data)
        case Failed(e, l) => Failed(e, l)
        case Done(_, l2) =>
          Extend(Packets(link.sent), Packets(l1.sent), Packets(l2.sent),
            [Packet(ProgramAddressCmd, [0, 0, 0, 0])], [Packet(SectorEraseCmd, [1, 0, 0, 0])],
            [Packet(ProgramAddressCmd, [0, 0, 0, 0])], Programs(Chunks(data)));
          Done((), l2)
  }

  /** Two steps that add two groups of packets each add all four, in order. */
  lemma Extend(p0: seq<Packet>, p1: seq<Packet>, p2: seq<Packet>, a: seq<Packet>, b: seq<Packet>, c: seq<Packet>, d: seq<Packet>)
    requires p1 == p0 + a + b && p2 == p1 + c + d
    ensures p2 == p0 + a + b + c + d
  {
  }

  /** The two undocumented commands the upload sends before the image, with their payloads as opaque bytes. */
  const Unknown4C: Packet := Packet(0x4c, [0x00, 0x00, 0x00, 0x10])
  const Unknown4D: Packet := Packet(0x4d, [0xd4, 0x00, 0x00, 0x10])

  /** The two undocumented commands, each reply read and ignored. */
  function Unknowns(link: Link): (r: Step<()>)
    ensures r.Done? ==> Packets(r.link.sent) == Packets(link.sent) + [Unknown4C] + [Unknown4D]
  {
    assert Fits(Unknown4C) && Fits(Unknown4D);
    match Call(link, Unknown4C.cmd, Unknown4C.payload, false)
    case Failed(e, l) => Failed(e, l)
    case Done(_, l1) =>
      match Call(l1, Unknown4D.cmd, Unknown4D.payload, false)
      case Failed(e, l) => Failed(e, l)
      case Done(_, l2) => Done((), l2)
  }

  /** The `<L` words of the upload's addresses and sector count. */
  lemma UploadWords()
    ensures Le32(0x1000) == [0x00, 0x10, 0, 0] && Le32(0x0f) == [0x0f, 0, 0, 0] && Le32(0x1100) == [0x00, 0x11, 0, 0]
  {
    Le32OfU32([0x00, 0x10, 0, 0]);
    Le32OfU32([0x0f, 0, 0, 0]);
    Le32OfU32([0x00, 0x11, 0, 0]);
  }

  /** What the upload does before the image: erase from 0x1000, address 0x1100, the two undocumented commands. */
  function PrepareUpload(link: Link): (r: Step<()>)
    ensures r.Done? ==>
      Packets(r.link.sent)
        == Packets(link.sent)
           + [Packet(ProgramAddressCmd, [0x00, 0x10, 0, 0])] + [Packet(SectorEraseCmd, [0x0f, 0, 0, 0])]
           + [Packet(ProgramAddressCmd, [0x00, 0x11, 0, 0])] + [Unknown4C] + [Unknown4D]
  {
    var erased := Erase(link, 0x1000, 0x0f);
    if erased.Failed? then erased
    else
      var addressed := SetProgramAddress(erased.link, 0x1100);
      if addressed.Failed? then Failed(addressed.fault, addressed.link)
      else
        UploadWords();
        Unknowns(addressed.link)
  }

  /**
   The upload mode of the command line: address 0x1000, 15 sectors erased,
   address 0x1100, the two undocumented commands, then the image in 256-byte
   chunks.
   */
  function ProgramImage(link: Link, image: seq<byte>): (r: Step<()>)
    ensures r.Done? ==>
      Packets(r.link.sent)
        == Packets(link.sent)
           + [Packet(ProgramAddressCmd, [0x00, 0x10, 0, 0])] + [Packet(SectorEraseCmd, [0x0f, 0, 0, 0])]
           + [Packet(ProgramAddressCmd, [0x00, 0x11, 0, 0])] + [Unknown4C] + [Unknown4D] + Programs(Chunks(image))
  {
    match PrepareUpload(link)
    case Failed(e, l) => Failed(e, l)
    case Done(_, l1) => ProgramAll(l1, Chunks(image))
  }

  // ---------------------------------------------------------------------------
  // connect and the command line
  // ---------------------------------------------------------------------------

  /**
   The baud switch: command 0x34 with the divisor register, confirmed, the
   port reopened at `baud`, and the very same frame sent and confirmed again.
   */
  function SwitchBaud(link: Link, reg: seq<byte>, baud: int): (r: Step<()>)
    requires Fits(Packet(SetBaudCmd, reg))
    ensures r.Done? ==>
      var frame := Encode(Packet(SetBaudCmd, reg));
      r.link.sent == link.sent + [Send(frame), Open(baud), Send(frame)]
  {
    var first := Call(link, SetBaudCmd, reg, true);
    if first.Failed? then Failed(first.fault, first.link)
    else
      var l1 := Reopen(first.link, baud);
      var second := Call(l1, SetBaudCmd, reg, true);
      if second.Failed? then Failed(second.fault, second.link)
      else
        SwitchLog(link.sent, first.link.sent, l1.sent, second.link.sent, Encode(Packet(SetBaudCmd, reg)), baud);
        Done((), second.link)
  }

  /** The log of the baud switch, write by write. */
  lemma SwitchLog(before: seq<Event>, first: seq<Event>, reopened: seq<Event>, after: seq<Event>, frame: seq<byte>, baud: int)
    requires first == before + [Send(frame)] && reopened == first + [Open(baud)] && after == reopened + [Send(frame)]
    ensures after == before + [Send(frame), Open(baud), Send(frame)]
  {
  }

  /** What `connect` does once the bootloader has answered the sync: the divisor register computed and the baud switch. */
  function AfterSync(link: Link, clock: int, baud: int): (r: Step<()>)
    ensures r.Done? ==> DivisorRegister(clock, baud).Ok?
    ensures r.Done? ==>
      var frame := Encode(Packet(SetBaudCmd, DivisorRegister(clock, baud).value));
      r.link.sent == link.sent + [Send(frame), Open(baud), Send(frame)]
  {
    match DivisorRegister(clock, baud)
    case Err(e) => Failed(e, link)
    case Ok(reg) =>
      assert Fits(Packet(SetBaudCmd, reg));
      SwitchBaud(link, reg, baud)
  }

  /**
   `connect(timeout)`: reopen at 9600 baud, run the sync loop, then send the
   divisor register with command 0x34, reopen at the working rate and send
   the same frame again; each 0x34 needs only its 0x01 confirmation.
   */
  function Connect(link: Link, clock: int, baud: int, limit: int): (r: Step<()>)
    ensures r.Done? ==> DivisorRegister(clock, baud).Ok?
  {
    var l0 := Reopen(link, ConnectBaud);
    match SyncLoop(l0, limit)
    case Failed(e, l) => Failed(e, l)
    case Done(_, l1) => AfterSync(l1, clock, baud)
  }

  /**
   A successful handshake writes, in order: the reopening at 9600 baud, one
   or more syncs, the 0x34 frame, the reopening at the working rate, and the
   byte-identical 0x34 frame again.
   */
  lemma ConnectSends(link: Link, clock: int, baud: int, limit: int)
    ensures var r := Connect(link, clock, baud, limit);
      r.Done? ==>
        var frame := Encode(Packet(SetBaudCmd, DivisorRegister(clock, baud).value));
        var k := |r.link.sent| - |link.sent| - 4;
        && k >= 1
        && r.link.sent == link.sent + [Open(ConnectBaud)] + Syncs(k) + [Send(frame), Open(baud), Send(frame)]
  {
    var l0 := Reopen(link, ConnectBaud);
    var s := SyncLoop(l0, limit);
    if s.Done? {
      var a := AfterSync(s.link, clock, baud);
      assert Connect(link, clock, baud, limit) == a;
      if a.Done? {
        var frame := Encode(Packet(SetBaudCmd, DivisorRegister(clock, baud).value));
        var tail := [Send(frame), Open(baud), Send(frame)];
        var m := |s.link.sent| - |l0.sent|;
        assert l0.sent == link.sent + [Open(ConnectBaud)];
        assert s.link.sent == l0.sent + Syncs(m);
        assert a.link.sent == s.link.sent + tail;
        ConnectLog(link.sent, s.link.sent, a.link.sent, m, tail);
      }
    }
  }

  lemma ConnectLog(before: seq<Event>, synced: seq<Event>, after: seq<Event>, m: nat, tail: seq<Event>)
    requires synced == before + [Open(ConnectBaud)] + Syncs(m) && after == synced + tail && |tail| == 3
    ensures m == |after| - |before| - 4 && after == before + [Open(ConnectBaud)] + Syncs(m) + tail
  {
  }

  lemma Prepend(x: byte, y: byte, a: seq<byte>, b: seq<byte>, c: seq<byte>)
    ensures [x] + ([y] + a + b + c) == [x, y] + a + b + c
  {
  }
}
