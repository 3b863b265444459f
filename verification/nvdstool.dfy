/**
 The NVDS client of nvdstool.py. It shares the frame and the sync loop with
 the programming client but differs in three places: its `read_packet` always
 reads a five-byte header after the 0x01 (and returns nothing when none
 comes), its handshake writes one more 0x33 and always sends the fixed
 divisor register `2C 08 00 00`, and its command line can only read.
 */
module NvdsTool {
  import opened Bytes
  import opened Results
  import opened Struct
  import opened Crc16
  import opened Transport
  import opened Frame
  import opened Session
  import QnTool
  import ReadBack

  /**
   `read_packet()`: the 0x01, then five bytes: start byte, command, length
   (LE16) and a pad byte. No header at all is a reply without data; a header
   cut short is a `struct.error`. The checksum covers the four header bytes
   after the start byte, then the payload.
   */
  function ReadPacket(link: Link): (r: Step<Option<seq<byte>>>)
    ensures r.link.sent == link.sent
    ensures r.Done? ==> |link.input| > 0 && link.input[0] == Byte(Ack)
    ensures (link.input == [] || link.input[0] != Byte(Ack)) ==> r.Failed? && r.fault.SyncExpected?
    ensures r.Done? && r.value.None? ==> r.link.input == Drop(link.input, 2) && (|link.input| < 2 || link.input[1] == Gap)
    ensures (r.Done? && r.value.None?) <==> (|link.input| > 0 && link.input[0] == Byte(Ack) && (|link.input| == 1 || link.input[1] == Gap))
  {
    var (sync, l1) := ReceiveByte(link);
    if sync != [Ack] then Failed(SyncExpected(sync), l1)
    else
      var (header, l2) := Receive(l1, 5);
      if header == [] then Done(None, l2)
      else if |header| < 5 then Failed(ShortHeader, l2)
      else if header[0] != StartByte then Failed(StartByteExpected(header[0]), l2)
      else
        var (data, l3) := Receive(l2, U16(header[2], header[3]));
        var (sum, l4) := Receive(l3, 2);
        if sum != Le16(Crc(header[1..] + data)) then Failed(BadChecksum, l4)
        else Done(Some(data), l4)
  }

  /** A device that confirms with 0x01 and then falls silent gives a reply without data, and the silence is used up. */
  lemma ConfirmOnly(rest: seq<Rx>, sent: seq<Event>)
    ensures ReadPacket(Link([Byte(Ack), Gap] + rest, sent)) == Done(None, Link(rest, sent))
  {
    var input := [Byte(Ack), Gap] + rest;
    assert input[1..] == [Gap] + rest;
    assert ([Gap] + rest)[1..] == rest;
  }

  /** A header of one to four bytes followed by silence is a `struct.error`. */
  lemma HeaderCutShort(header: seq<byte>, rest: seq<Rx>, sent: seq<Event>)
    requires 0 < |header| < 5
    ensures ReadPacket(Link([Byte(Ack)] + Wire(header) + [Gap] + rest, sent)) == Failed(ShortHeader, Link(rest, sent))
  {
    var input := [Byte(Ack)] + Wire(header) + [Gap] + rest;
    assert input[1..] == Wire(header) + ([Gap] + rest);
    GapAfterWire(header, 5, [Gap] + rest, rest);
  }

  /** A full five-byte header that does not open with 0x71 fails, naming the byte found, whatever follows it. */
  lemma WrongStart(header: seq<byte>, rest: seq<Rx>, sent: seq<Event>)
    requires |header| == 5 && header[0] != StartByte
    ensures ReadPacket(Link([Byte(Ack)] + Wire(header) + rest, sent))
         == Failed(StartByteExpected(header[0]), Link(rest, sent))
  {
    var input := [Byte(Ack)] + Wire(header) + rest;
    assert input[1..] == Wire(header) + rest;
    ReadWire(header, rest);
  }

  /** Reading more bytes than are on the wire before a gap returns those bytes and uses up the gap. */
  lemma {:induction false} GapAfterWire(s: seq<byte>, n: nat, tail: seq<Rx>, rest: seq<Rx>)
    requires |s| < n && tail == [Gap] + rest
    ensures Read(Wire(s) + tail, n) == (s, rest)
    decreases |s|
  {
    if s == [] {
      assert Wire(s) + tail == tail;
    } else {
      WireTail(s, tail);
      GapAfterWire(s[1..], n - 1, tail, rest);
    }
  }

  /** The first byte on the wire, and what follows it. */
  lemma WireTail(s: seq<byte>, tail: seq<Rx>)
    requires s != []
    ensures (Wire(s) + tail)[0] == Byte(s[0]) && (Wire(s) + tail)[1..] == Wire(s[1..]) + tail
    ensures s == [s[0]] + s[1..]
  {
    assert (Wire(s) + tail)[1..] == Wire(s[1..]) + tail;
  }

  /** How a reply lies on the line: the 0x01, the five header bytes, the payload, the checksum. */
  lemma ReplyOnLine(header: seq<byte>, data: seq<byte>, sum: seq<byte>, rest: seq<Rx>)
    ensures Wire([Ack] + header + data + sum) + rest
         == Wire([Ack]) + (Wire(header) + (Wire(data) + (Wire(sum) + rest)))
  {
    WireAppend([Ack] + header + data, sum);
    WireAppend([Ack] + header, data);
    WireAppend([Ack], header);
  }

  /**
   A complete reply on the line, its length field matching its payload: it is
   accepted exactly when its two trailing bytes are the checksum over the
   header after the start byte and the payload, and either way exactly the
   reply is consumed.
   */
  lemma FrameChecksum(header: seq<byte>, data: seq<byte>, sum: seq<byte>, rest: seq<Rx>, sent: seq<Event>)
    requires |header| == 5 && header[0] == StartByte && |data| == U16(header[2], header[3]) && |sum| == 2
    ensures ReadPacket(Link(Wire([Ack] + header + data + sum) + rest, sent))
      == if sum == Le16(Crc(header[1..] + data)) then Done(Some(data), Link(rest, sent))
         else Failed(BadChecksum, Link(rest, sent))
  {
    var r2 := Wire(header) + (Wire(data) + (Wire(sum) + rest));
    ReplyOnLine(header, data, sum, rest);
    ReadWire([Ack], r2);
    ReadWire(header, Wire(data) + (Wire(sum) + rest));
    ReadWire(data, Wire(sum) + rest);
    ReadWire(sum, rest);
  }

  /** The frame that `build_packet` produces, answered with 0x01 in front, reads back as its payload. */
  lemma ReadPacketRoundTrip(p: Packet, rest: seq<Rx>, sent: seq<Event>)
    requires Fits(p)
    ensures ReadPacket(Link(Wire([Ack] + Encode(p)) + rest, sent)) == Done(Some(p.payload), Link(rest, sent))
  {
    var header := FiveByteHeader(p);
    FrameChecksum(header, p.payload, Le16(Crc(header[1..] + p.payload)), rest, sent);
  }

  /** A frame as this `read_packet` splits it: five header bytes from the start byte on, the payload, the checksum over the last four header bytes and the payload. */
  lemma FiveByteHeader(p: Packet) returns (header: seq<byte>)
    requires Fits(p)
    ensures |header| == 5 && header[0] == StartByte && U16(header[2], header[3]) == |p.payload|
    ensures [Ack] + Encode(p) == [Ack] + header + p.payload + Le16(Crc(header[1..] + p.payload))
  {
    var fields := EncodeFields(p);
    header := [StartByte] + fields;
    assert header[1..] == fields;
    Rejoin(Ack, StartByte, fields, p.payload, Le16(Crc(fields + p.payload)));
  }

  lemma Rejoin(a: byte, b: byte, fields: seq<byte>, data: seq<byte>, sum: seq<byte>)
    ensures [a] + ([b] + fields + data + sum) == [a] + ([b] + fields) + data + sum
  {
  }

  /** `send_command(cmd, data)` followed by `read_packet()`. */
  function Call(link: Link, cmd: int, data: seq<byte>): (r: Step<Option<seq<byte>>>)
    ensures !Fits(Packet(cmd, data)) ==> r.Failed? && r.link == link && r.fault.OutOfRange?
    ensures Fits(Packet(cmd, data)) ==>
      r.link.sent == link.sent + [Send(Encode(Packet(cmd, data)))] && Packets(r.link.sent) == Packets(link.sent) + [Packet(cmd, data)]
  {
    match SendCommand(link, cmd, data)
    case Failed(e, l) => Failed(e, l)
    case Done(_, l) => ReadPacket(l)
  }

  /**
   The page loop of `read_nvds`: `n` requests for the next page, each reply
   appended. A reply without data cannot be appended to a string.
   */
  function ReadPages(link: Link, n: nat): (r: Step<seq<byte>>)
    decreases n
    ensures r.Done? ==> Packets(r.link.sent) == Packets(link.sent) + PageRequests(n)
  {
    if n == 0 then Done([], link)
    else
      match ReadPages(link, n - 1)
      case Failed(e, l) => Failed(e, l)
      case Done(out, l) =>
        assert Fits(Packet(ReadCmd, PageRequest));
        var reply := Call(l, ReadCmd, PageRequest);
        Then(link.sent, l.sent, reply.link.sent, PageRequests(n - 1), [Packet(ReadCmd, PageRequest)]);
        match reply
        case Failed(e, l') => Failed(e, l')
        case Done(None, l') => Failed(NotAPayload, l')
        case Done(Some(page), l') => Done(out + page, l')
  }

  /** The payload of the program-address command that starts every read: address 0. */
  const ZeroAddress: seq<byte> := [0x00, 0x00, 0x00, 0x00]

  /**
   `read_nvds()`: the program address set to 0 (its reply read and dropped),
   then 16 pages read. The block is checked only to log a warning, so a
   block without the signature is returned as read.
   */
  function ReadNvds(link: Link): (r: Step<seq<byte>>)
    ensures r.Done? ==> Packets(r.link.sent) == Packets(link.sent) + [Packet(ProgramAddressCmd, ZeroAddress)] + PageRequests(16)
  {
    assert Fits(Packet(ProgramAddressCmd, ZeroAddress));
    match Call(link, ProgramAddressCmd, ZeroAddress)
    case Failed(e, l) => Failed(e, l)
    case Done(_, l) => ReadPages(l, 16)
  }

  /** `|ps|` page requests, each answered with a payload frame, read back the payloads in order and nothing more. */
  lemma {:induction false} ReadPagesAnswered(ps: seq<Packet>, rest: seq<Rx>, link: Link)
    requires ReadBack.AllFit(ps) && link.input == ReadBack.Answers(ps) + rest
    ensures var r := ReadPages(link, |ps|);
      r.Done? && r.value == ReadBack.Payloads(ps) && r.link.input == rest
    decreases |ps|
  {
    if ps != [] {
      var n := |ps| - 1;
      var last := Wire([Ack] + Encode(ps[n]));
      ReadBack.AnswersLast(ps, rest);
      var front := ps[..n];
      assert |front| == n;
      ReadPagesAnswered(front, last + rest, link);
      var before := ReadPages(link, n);
      assert Fits(ps[n]);
      CallAnswered(before.link, ps[n], rest);
      PagesStep(link, n, before.value, before.link, ps[n].payload,
        Link(rest, before.link.sent + [Send(Encode(Packet(ReadCmd, PageRequest)))]));
      assert ReadBack.Payloads(ps) == ReadBack.Payloads(front) + ps[n].payload;
    }
  }

  /** One more answered page request appends its payload to what the loop has read. */
  lemma PagesStep(link: Link, n: nat, out: seq<byte>, before: Link, page: seq<byte>, after: Link)
    requires ReadPages(link, n) == Done(out, before)
    requires Call(before, ReadCmd, PageRequest) == Done(Some(page), after)
    ensures ReadPages(link, n + 1) == Done(out + page, after)
  {
  }

  /** A page request answered with a payload frame returns that payload and consumes exactly its bytes. */
  lemma CallAnswered(link: Link, p: Packet, rest: seq<Rx>)
    requires Fits(p) && link.input == Wire([Ack] + Encode(p)) + rest
    ensures Call(link, ReadCmd, PageRequest)
         == Done(Some(p.payload), Link(rest, link.sent + [Send(Encode(Packet(ReadCmd, PageRequest)))]))
  {
    assert Fits(Packet(ReadCmd, PageRequest));
    ReadPacketRoundTrip(p, rest, link.sent + [Send(Encode(Packet(ReadCmd, PageRequest)))]);
  }

  /**
   A device that confirms the address command and then answers the 16 page
   requests with payload frames: `read_nvds` returns the pages joined in order.
   */
  lemma ReadNvdsAnswered(ps: seq<Packet>, rest: seq<Rx>, sent: seq<Event>)
    requires |ps| == 16 && ReadBack.AllFit(ps)
    ensures var r := ReadNvds(Link([Byte(Ack), Gap] + (ReadBack.Answers(ps) + rest), sent));
      r.Done? && r.value == ReadBack.Payloads(ps) && r.link.input == rest
  {
    var tail := ReadBack.Answers(ps) + rest;
    var l0 := Link([Byte(Ack), Gap] + tail, sent);
    assert Fits(Packet(ProgramAddressCmd, ZeroAddress));
    var l := Link(tail, sent + [Send(Encode(Packet(ProgramAddressCmd, ZeroAddress)))]);
    ConfirmOnly(tail, l.sent);
    assert Call(l0, ProgramAddressCmd, ZeroAddress) == Done(None, l);
    ReadPagesAnswered(ps, rest, l);
    AddressThenPages(l0, l, ReadPages(l, |ps|));
  }

  /** A confirmed address command hands the line to the page loop. */
  lemma AddressThenPages(link: Link, l: Link, pages: Step<seq<byte>>)
    requires Call(link, ProgramAddressCmd, ZeroAddress) == Done(None, l)
    requires pages == ReadPages(l, 16)
    ensures ReadNvds(link) == pages
  {
  }

  /** The divisor register nvdstool always sends: 0x082C, packed little-endian. */
  const FixedDivisor: seq<byte> := [0x2C, 0x08, 0x00, 0x00]

  /** The fixed register is what the programming client computes for the default 16 MHz clock at 115200 baud. */
  lemma FixedDivisorIsDefault()
    ensures QnTool.DivisorRegister(16000000, 115200) == Ok(FixedDivisor)
  {
    QnTool.DefaultDivisor();
  }

  /**
   The baud switch: command 0x34 with the divisor register and its reply read,
   the port reopened at `baud`, and the very same command and reply again.
   */
  function SwitchBaud(link: Link, reg: seq<byte>, baud: int): (r: Step<()>)
    requires Fits(Packet(SetBaudCmd, reg))
    ensures r.Done? ==>
      var frame := Encode(Packet(SetBaudCmd, reg));
      r.link.sent == link.sent + [Send(frame), Open(baud), Send(frame)]
  {
    var first := Call(link, SetBaudCmd, reg);
    if first.Failed? then Failed(first.fault, first.link)
    else
      var l1 := Reopen(first.link, baud);
      var second := Call(l1, SetBaudCmd, reg);
      if second.Failed? then Failed(second.fault, second.link)
      else
        QnTool.SwitchLog(link.sent, first.link.sent, l1.sent, second.link.sent, Encode(Packet(SetBaudCmd, reg)), baud);
        Done((), second.link)
  }

  /** What `connect` does once the bootloader has answered the sync: one more 0x33, then the switch to the fixed register. */
  function AfterSync(link: Link, baud: int): (r: Step<()>)
    ensures r.Done? ==>
      var frame := Encode(Packet(SetBaudCmd, FixedDivisor));
      r.link.sent == link.sent + [Send([SyncByte])] + [Send(frame), Open(baud), Send(frame)]
  {
    assert Fits(Packet(SetBaudCmd, FixedDivisor));
    SwitchBaud(Transmit(link, [SyncByte]), FixedDivisor, baud)
  }

  /** `connect(timeout)`: reopen at 9600 baud, run the sync loop, then the steps after it. */
  function Connect(link: Link, baud: int, limit: int): (r: Step<()>)
  {
    var l0 := Reopen(link, ConnectBaud);
    match SyncLoop(l0, limit)
    case Failed(e, l) => Failed(e, l)
    case Done(_, l1) => AfterSync(l1, baud)
  }

  /**
   A successful handshake writes, in order: the reopening at 9600 baud, one
   or more syncs, the extra 0x33, the 0x34 frame, the reopening at the
   working rate, and the byte-identical 0x34 frame again.
   */
  lemma ConnectSends(link: Link, baud: int, limit: int)
    ensures var r := Connect(link, baud, limit);
      r.Done? ==>
        var frame := Encode(Packet(SetBaudCmd, FixedDivisor));
        var k := |r.link.sent| - |link.sent| - 5;
        && k >= 1
        && r.link.sent == link.sent + [Open(ConnectBaud)] + Syncs(k) + [Send([SyncByte]), Send(frame), Open(baud), Send(frame)]
  {
    var l0 := Reopen(link, ConnectBaud);
    var s := SyncLoop(l0, limit);
    if s.Done? {
      var a := AfterSync(s.link, baud);
      assert Connect(link, baud, limit) == a;
      if a.Done? {
        var m := |s.link.sent| - |l0.sent|;
        assert l0.sent == link.sent + [Open(ConnectBaud)];
        assert s.link.sent == l0.sent + Syncs(m);
        ConnectLog(link.sent, s.link.sent, a.link.sent, m, Encode(Packet(SetBaudCmd, FixedDivisor)), baud);
      }
    }
  }

  /** The log of the handshake, piece by piece. */
  lemma ConnectLog(before: seq<Event>, synced: seq<Event>, after: seq<Event>, m: nat, frame: seq<byte>, baud: int)
    requires synced == before + [Open(ConnectBaud)] + Syncs(m)
    requires after == synced + [Send([SyncByte])] + [Send(frame), Open(baud), Send(frame)]
    ensures m == |after| - |before| - 5
    ensures after == before + [Open(ConnectBaud)] + Syncs(m) + [Send([SyncByte]), Send(frame), Open(baud), Send(frame)]
  {
  }

  /** The packets in the handshake's log: the syncs, the extra 0x33 and the reopenings are no packets to the device. */
  lemma HandshakePackets(before: seq<Event>, k: nat, frame: seq<byte>, p: Packet, baud: int)
    requires Unframe(frame) == Some(p)
    ensures Packets(before + [Open(ConnectBaud)] + Syncs(k) + [Send([SyncByte]), Send(frame), Open(baud), Send(frame)])
         == Packets(before) + [p, p]
  {
    var e3 := ((before + [Open(ConnectBaud)]) + Syncs(k)) + [Send([SyncByte])];
    PreamblePackets(before, k);
    var e4 := e3 + [Send(frame)];
    SendFrame(e3, frame, p);
    var e5 := e4 + [Open(baud)];
    NoFrame(e4, Open(baud));
    var e6 := e5 + [Send(frame)];
    SendFrame(e5, frame, p);
    TwoPackets(Packets(before), Packets(e3), Packets(e4), Packets(e5), Packets(e6), p);
    HandshakeLog(before, Open(ConnectBaud), Syncs(k), Send([SyncByte]), Send(frame), Open(baud));
  }

  /** Two frames after a stretch with no packet add exactly those two packets. */
  lemma TwoPackets(v0: seq<Packet>, v3: seq<Packet>, v4: seq<Packet>, v5: seq<Packet>, v6: seq<Packet>, p: Packet)
    requires v3 == v0 && v4 == v3 + [p] && v5 == v4 && v6 == v5 + [p]
    ensures v6 == v0 + [p, p]
  {
  }

  /** The reopening at 9600 baud and the sync writes before the handshake's command carry no packet. */
  lemma PreamblePackets(before: seq<Event>, k: nat)
    ensures Packets(((before + [Open(ConnectBaud)]) + Syncs(k)) + [Send([SyncByte])]) == Packets(before)
  {
    var e1 := before + [Open(ConnectBaud)];
    NoFrame(before, Open(ConnectBaud));
    PacketsAppend(e1, Syncs(k));
    PacketsOfSyncs(k);
    NoFrame(e1 + Syncs(k), Send([SyncByte]));
  }

  /** An event that is not a well-formed frame adds nothing to the device's view. */
  lemma NoFrame(a: seq<Event>, e: Event)
    requires !(e.Send? && Unframe(e.bytes).Some?)
    ensures Packets(a + [e]) == Packets(a)
  {
    assert (a + [e])[..|a + [e]| - 1] == a;
  }

  /** Writing a well-formed frame adds the packet it carries to the device's view. */
  lemma SendFrame(a: seq<Event>, frame: seq<byte>, p: Packet)
    requires Unframe(frame) == Some(p)
    ensures Packets(a + [Send(frame)]) == Packets(a) + [p]
  {
    assert (a + [Send(frame)])[..|a|] == a;
  }

  /** The handshake's log regrouped one event at a time. */
  lemma HandshakeLog(before: seq<Event>, o: Event, syncs: seq<Event>, x: Event, y: Event, z: Event)
    ensures before + [o] + syncs + [x, y, z, y] == (((((before + [o]) + syncs) + [x]) + [y]) + [z]) + [y]
  {
  }

  /**
   What the device decodes from a successful handshake: the baud command with
   the fixed register, twice, and nothing else.
   */
  lemma ConnectPackets(link: Link, baud: int, limit: int)
    ensures var r := Connect(link, baud, limit);
      r.Done? ==>
        Packets(r.link.sent) == Packets(link.sent) + [Packet(SetBaudCmd, FixedDivisor), Packet(SetBaudCmd, FixedDivisor)]
  {
    var l0 := Reopen(link, ConnectBaud);
    var s := SyncLoop(l0, limit);
    if s.Done? {
      var a := AfterSync(s.link, baud);
      assert Connect(link, baud, limit) == a;
      if a.Done? {
        var m := |s.link.sent| - |l0.sent|;
        assert l0.sent == link.sent + [Open(ConnectBaud)];
        assert s.link.sent == l0.sent + Syncs(m);
        FixedFrameDecodes();
        HandshakeView(link.sent, s.link.sent, a.link.sent, m,
          Encode(Packet(SetBaudCmd, FixedDivisor)), Packet(SetBaudCmd, FixedDivisor), baud);
      }
    }
  }

  /** The device's view of a log that has the handshake's shape. */
  lemma HandshakeView(before: seq<Event>, synced: seq<Event>, after: seq<Event>, m: nat, frame: seq<byte>, p: Packet, baud: int)
    requires Unframe(frame) == Some(p)
    requires synced == before + [Open(ConnectBaud)] + Syncs(m)
    requires after == synced + [Send([SyncByte])] + [Send(frame), Open(baud), Send(frame)]
    ensures Packets(after) == Packets(before) + [p, p]
  {
    ConnectLog(before, synced, after, m, frame, baud);
    HandshakePackets(before, m, frame, p, baud);
  }

  /** The handshake's baud command fits its fields, so the device decodes its frame. */
  lemma FixedFrameDecodes()
    ensures Unframe(Encode(Packet(SetBaudCmd, FixedDivisor))) == Some(Packet(SetBaudCmd, FixedDivisor))
  {
    assert Fits(Packet(SetBaudCmd, FixedDivisor));
    UnframeOfEncode(Packet(SetBaudCmd, FixedDivisor));
  }

  /** What the command line was asked to do: read the block into a file, or write one (not implemented). */
  datatype Mode = ReadMode | WriteMode

  /**
   The command line: connect, then read the block, or raise for the write
   mode, which exists only as an option.
   */
  function Run(link: Link, baud: int, limit: int, mode: Mode): (r: Step<seq<byte>>)
    ensures var c := Connect(link, baud, limit);
      c.Failed? ==> r == Failed(c.fault, c.link)
    ensures mode == WriteMode ==> r.Failed? && (r.fault == WriteUnsupported || Connect(link, baud, limit).Failed?)
  {
    match Connect(link, baud, limit)
    case Failed(e, l) => Failed(e, l)
    case Done(_, l) =>
      match mode
      case ReadMode => ReadNvds(l)
      case WriteMode => Failed(WriteUnsupported, l)
  }

  /**
   A successful read run: the device has decoded the two baud commands, the
   program address 0 and the 16 page requests, in that order and nothing else.
   */
  lemma RunSends(link: Link, baud: int, limit: int)
    ensures var r := Run(link, baud, limit, ReadMode);
      r.Done? ==>
        Packets(r.link.sent)
          == Packets(link.sent) + [Packet(SetBaudCmd, FixedDivisor), Packet(SetBaudCmd, FixedDivisor)]
             + [Packet(ProgramAddressCmd, ZeroAddress)] + PageRequests(16)
  {
    var c := Connect(link, baud, limit);
    if c.Done? {
      ConnectPackets(link, baud, limit);
      var r := ReadNvds(c.link);
      assert Run(link, baud, limit, ReadMode) == r;
      if r.Done? {
        Chain(Packets(link.sent), Packets(c.link.sent), Packets(r.link.sent),
          [Packet(SetBaudCmd, FixedDivisor), Packet(SetBaudCmd, FixedDivisor)],
          [Packet(ProgramAddressCmd, ZeroAddress)], PageRequests(16));
      }
    }
  }

  /** Packet views chained over two stages. */
  lemma Chain(p0: seq<Packet>, p1: seq<Packet>, p2: seq<Packet>, a: seq<Packet>, b: seq<Packet>, c: seq<Packet>)
    requires p1 == p0 + a && p2 == p1 + b + c
    ensures p2 == p0 + a + b + c
  {
  }
}
