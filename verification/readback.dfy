/**
 What the programming client reads back when the device answers every
 request with a well-formed payload frame: the payloads, in order, with the
 rest of the line untouched.
 */
module ReadBack {
  import opened Bytes
  import opened Results
  import opened Transport
  import opened Frame
  import opened Session
  import opened QnTool

  /** Every packet of `ps` fits its frame's fields. */
  predicate AllFit(ps: seq<Packet>)
    decreases |ps|
  {
    ps == [] || (AllFit(ps[..|ps| - 1]) && Fits(ps[|ps| - 1]))
  }

  /** What the device sends back for each reply packet in `ps`: 0x01, then the packet's frame. */
  function Answers(ps: seq<Packet>): (w: seq<Rx>)
    requires AllFit(ps)
    decreases |ps|
  {
    if ps == [] then []
    else Answers(ps[..|ps| - 1]) + Wire([Ack] + Encode(ps[|ps| - 1]))
  }

  /** The payloads of `ps`, one after the other. */
  function Payloads(ps: seq<Packet>): (data: seq<byte>)
    decreases |ps|
  {
    if ps == [] then [] else Payloads(ps[..|ps| - 1]) + ps[|ps| - 1].payload
  }

  /** The last answer of `ps` lies between the earlier ones and whatever follows on the line. */
  lemma AnswersLast(ps: seq<Packet>, rest: seq<Rx>)
    requires ps != [] && AllFit(ps)
    ensures Answers(ps) + rest == Answers(ps[..|ps| - 1]) + (Wire([Ack] + Encode(ps[|ps| - 1])) + rest)
  {
    var front := Answers(ps[..|ps| - 1]);
    var last := Wire([Ack] + Encode(ps[|ps| - 1]));
    assert Answers(ps) == front + last;
    Regroup(front, last, rest);
  }

  /** A command answered with a well-formed payload frame returns that payload and consumes exactly its bytes. */
  lemma CallAnswered(link: Link, cmd: int, data: seq<byte>, p: Packet, rest: seq<Rx>)
    requires Fits(Packet(cmd, data)) && Fits(p)
    requires link.input == Wire([Ack] + Encode(p)) + rest
    ensures Call(link, cmd, data, false)
         == Done(Payload(p.payload), Link(rest, link.sent + [Send(Encode(Packet(cmd, data)))]))
  {
    ReadPacketRoundTrip(p, rest, link.sent + [Send(Encode(Packet(cmd, data)))]);
  }

  /** `|ps|` rounds of `Repeat`, each answered with a payload frame, read back the payloads in order and nothing more. */
  lemma {:induction false} RepeatAnswered(cmd: int, data: seq<byte>, ps: seq<Packet>, rest: seq<Rx>, link: Link)
    requires Fits(Packet(cmd, data)) && AllFit(ps) && link.input == Answers(ps) + rest
    ensures var r := Repeat(link, cmd, data, |ps|);
      r.Done? && r.value == Payloads(ps) && r.link.input == rest
    decreases |ps|
  {
    if ps != [] {
      var n := |ps| - 1;
      var last := Wire([Ack] + Encode(ps[n]));
      AnswersLast(ps, rest);
      var front := ps[..n];
      assert |front| == n;
      RepeatAnswered(cmd, data, front, last + rest, link);
      var before := Repeat(link, cmd, data, n);
      assert Fits(ps[n]);
      assert before.link.input == last + rest;
      CallAnswered(before.link, cmd, data, ps[n], rest);
      assert Payloads(ps) == Payloads(front) + ps[n].payload;
    }
  }

  /**
   Page requests each answered with a payload frame read back the
   concatenation of the payloads and leave the rest of the line untouched.
   */
  lemma ReadPagesAnswered(ps: seq<Packet>, rest: seq<Rx>, sent: seq<Event>)
    requires AllFit(ps)
    ensures var r := ReadPages(Link(Answers(ps) + rest, sent), |ps|);
      r.Done? && r.value == Payloads(ps) && r.link.input == rest
  {
    assert Fits(Packet(ReadCmd, PageRequest));
    RepeatAnswered(ReadCmd, PageRequest, ps, rest, Link(Answers(ps) + rest, sent));
  }

  /**
   `read_nvds()` against a device that confirms the address and answers the 16
   page requests with payload frames: the pages joined in order, whatever they
   hold, since the block is validated only to log a warning.
   */
  lemma ReadNvdsAnswered(ps: seq<Packet>, rest: seq<Rx>, sent: seq<Event>)
    requires |ps| == 16 && AllFit(ps)
    ensures var r := ReadNvds(Link([Byte(Ack)] + (Answers(ps) + rest), sent));
      r.Done? && r.value == Payloads(ps) && r.link.input == rest
  {
    var tail := Answers(ps) + rest;
    var l0 := Link([Byte(Ack)] + tail, sent);
    NvdsWords();
    assert Fits(Packet(ProgramAddressCmd, [0, 0, 0, 0]));
    var l := Link(tail, sent + [Send(Encode(Packet(ProgramAddressCmd, [0, 0, 0, 0])))]);
    assert ([Byte(Ack)] + tail)[1..] == tail;
    assert SetProgramAddress(l0, 0) == Done(Nothing, l);
    ReadPagesAnswered(ps, rest, l.sent);
    AddressThenPages(l0, l, ReadPages(l, 16));
  }

  /** A confirmed program address hands the line to the page loop. */
  lemma AddressThenPages(link: Link, l: Link, pages: Step<seq<byte>>)
    requires SetProgramAddress(link, 0) == Done(Nothing, l)
    requires pages == ReadPages(l, 16)
    ensures ReadNvds(link) == pages
  {
  }
}
