/**
 What both clients share on the line: sending a command frame, the sync loop
 of the handshake, and the device's view of the writes (the packets it can
 decode out of them).
 */
module Session {
  import opened Bytes
  import opened Results
  import opened Transport
  import opened Frame

  /** The byte the client writes to wake the bootloader. */
  const SyncByte: byte := 0x33
  /** The byte the bootloader answers a sync or a command with when it accepts it. */
  const Ack: byte := 0x01

  // The bootloader's command bytes, as both clients use them.
  const SetBaudCmd := 0x34
  const BootloaderVersionCmd := 0x36
  const ChipIdCmd := 0x37
  const FlashIdCmd := 0x38
  const LoadTargetCmd := 0x39
  const ProgramAddressCmd := 0x3b
  const SectorEraseCmd := 0x42
  const ProgramCmd := 0x45
  const ReadCmd := 0x46
  const RebootCmd := 0x4a

  /** The payload of every read request: a 256-byte page. */
  const PageRequest: seq<byte> := [0x00, 0x01, 0x00, 0x00]

  /** The rate the bootloader listens at before the handshake changes it. */
  const ConnectBaud := 9600

  /** `n` sync writes in a row. */
  function Syncs(n: nat): (w: seq<Event>)
    ensures |w| == n && forall i | 0 <= i < n :: w[i] == Send([SyncByte])
  {
    seq(n, _ => Send([SyncByte]))
  }

  /** The packets the device decodes from the writes in `events`, in order; anything that is not a frame is skipped. */
  function Packets(events: seq<Event>): seq<Packet>
    decreases |events|
  {
    if events == [] then []
    else
      var last := events[|events| - 1];
      Packets(events[..|events| - 1])
        + if last.Send? && Unframe(last.bytes).Some? then [Unframe(last.bytes).value] else []
  }

  /** The device's view of a log is the concatenation of its views of the log's parts. */
  lemma {:induction false} PacketsAppend(a: seq<Event>, b: seq<Event>)
    ensures Packets(a + b) == Packets(a) + Packets(b)
    decreases |b|
  {
    if b == [] {
      assert a + b == a;
    } else {
      var b' := b[..|b| - 1];
      assert (a + b)[..|a + b| - 1] == a + b';
      PacketsAppend(a, b');
    }
  }

  /** A sync write is too short to be a frame: the device sees no packet in any run of them. */
  lemma {:induction false} PacketsOfSyncs(n: nat)
    ensures Packets(Syncs(n)) == []
  {
    if n > 0 {
      assert Syncs(n)[..n - 1] == Syncs(n - 1);
      PacketsOfSyncs(n - 1);
    }
  }

  /** Two steps that each add packets to the device's view add their concatenation. */
  lemma Then(a: seq<Event>, b: seq<Event>, c: seq<Event>, x: seq<Packet>, y: seq<Packet>)
    requires Packets(b) == Packets(a) + x && Packets(c) == Packets(b) + y
    ensures Packets(c) == Packets(a) + (x + y)
  {
  }

  /** The packet `p`, `n` times over. */
  function Copies(p: Packet, n: nat): (ps: seq<Packet>)
    ensures |ps| == n && forall i | 0 <= i < n :: ps[i] == p
  {
    if n == 0 then [] else Copies(p, n - 1) + [p]
  }

  /** `n` requests for a 256-byte page. */
  function PageRequests(n: nat): (ps: seq<Packet>)
    ensures |ps| == n && forall i | 0 <= i < n :: ps[i] == Packet(ReadCmd, PageRequest)
  {
    Copies(Packet(ReadCmd, PageRequest), n)
  }

  /**
   `send_command(cmd, data)`: the frame is written and flushed; building it
   raises when the command or the payload length does not fit its field, and
   then nothing is written.
   */
  function SendCommand(link: Link, cmd: int, data: seq<byte>): (r: Step<()>)
    ensures r.Done? <==> Fits(Packet(cmd, data))
    ensures r.Failed? ==> r.link == link && r.fault.OutOfRange?
    ensures r.Done? ==> r.link.input == link.input && r.link.sent == link.sent + [Send(Encode(Packet(cmd, data)))]
    ensures r.Done? ==> Packets(r.link.sent) == Packets(link.sent) + [Packet(cmd, data)]
  {
    match BuildPacket(cmd, data)
    case Err(e) => Failed(e, link)
    case Ok(f) =>
      var l := Transmit(link, f);
      assert l.sent[..|l.sent| - 1] == link.sent;
      Done((), l)
  }

  /**
   The passes of the sync loop of `connect` over the stream `input`: each
   pass writes 0x33 and reads one element. A byte ends the loop, a gap or the
   end of the stream loops again until the deadline. The deadline is `limit`
   empty reads (each costs one read timeout); `limit <= 0` means none, and
   then a line that has gone silent for good fails with `Silent` instead of
   looping forever. The result is the byte that arrived (or the fault) and
   the number of passes.
   */
  function SyncRun(input: seq<Rx>, limit: int, waited: nat): (r: (Result<byte>, nat))
    decreases |input|, if limit > waited then limit - waited else 0
    ensures r.1 >= 1
    ensures r.0.Err? ==> r.0.fault == Timeout || r.0.fault == Silent
  {
    if input != [] && input[0].Byte? then (Ok(input[0].b), 1)
    else if limit > 0 && waited + 1 > limit then (Err(Timeout), 1)
    else if limit <= 0 && input == [] then (Err(Silent), 1)
    else
      var (e, n) := SyncRun(if input == [] then [] else input[1..], limit, waited + 1);
      (e, n + 1)
  }

  /**
   The sync loop on the line: one 0x33 written per pass, one element of the
   stream used per pass while it lasts; a 0x01 ends it, any other byte fails it.
   */
  function SyncLoop(link: Link, limit: int): (r: Step<()>)
    ensures |r.link.sent| > |link.sent| && r.link.sent == link.sent + Syncs(|r.link.sent| - |link.sent|)
    ensures |r.link.input| <= |link.input| && r.link.input == link.input[|link.input| - |r.link.input|..]
    ensures r.Failed? ==> r.fault.UnexpectedResponse? || r.fault == Timeout || r.fault == Silent
  {
    var (e, n) := SyncRun(link.input, limit, 0);
    var l := Link(Drop(link.input, n), link.sent + Syncs(n));
    match e
    case Ok(b) => if b == Ack then Done((), l) else Failed(UnexpectedResponse(b), l)
    case Err(f) => Failed(f, l)
  }

  /**
   The loop ends at the first byte of the stream, and only there: every pass
   before it met a gap.
   */
  lemma {:induction false} SyncRunAnswer(input: seq<Rx>, limit: int, waited: nat)
    decreases |input|, if limit > waited then limit - waited else 0
    ensures var r := SyncRun(input, limit, waited);
      r.0.Ok? ==> r.1 <= |input| && input[..r.1] == Gaps(r.1 - 1) + [Byte(r.0.value)]
  {
    var r := SyncRun(input, limit, waited);
    if input != [] && input[0].Byte? {
      assert input[..1] == Gaps(0) + [Byte(r.0.value)];
    } else if limit > 0 && waited + 1 > limit {
    } else if limit <= 0 && input == [] {
    } else {
      var rest := if input == [] then [] else input[1..];
      var q := SyncRun(rest, limit, waited + 1);
      assert r == (q.0, q.1 + 1);
      SyncRunAnswer(rest, limit, waited + 1);
      if r.0.Ok? {
        GapsPrefix(input, rest, q.1, [Byte(r.0.value)]);
      }
    }
  }

  /**
   On the line: a loop that ends on a byte wrote one sync per element it used,
   met only gaps before that byte, and succeeded exactly when the byte is 0x01.
   */
  lemma SyncLoopAnswer(link: Link, limit: int)
    ensures var r := SyncLoop(link, limit);
      var n := |r.link.sent| - |link.sent|;
      r.Done? || r.fault.UnexpectedResponse? ==>
        && n <= |link.input| && r.link.input == link.input[n..]
        && link.input[..n] == Gaps(n - 1) + [Byte(if r.Done? then Ack else r.fault.got)]
        && (r.Failed? ==> r.fault.got != Ack)
  {
    SyncRunAnswer(link.input, limit, 0);
  }

  /** A gap in front of `rest`, whose first `n` elements are `k` gaps and then `tail`. */
  lemma GapsPrefix(input: seq<Rx>, rest: seq<Rx>, n: nat, tail: seq<Rx>)
    requires input != [] && input[0] == Gap && rest == input[1..]
    requires n <= |rest| && n >= |tail| && rest[..n] == Gaps(n - |tail|) + tail
    ensures input[..n + 1] == Gaps(n + 1 - |tail|) + tail
  {
    assert input[..n + 1] == [Gap] + rest[..n];
    GapsCons(n - |tail|);
  }

  /**
   The loop gives up on the deadline only when one is set, after one pass per
   allowed empty read and one more, all of them met by gaps or the end of the stream.
   */
  lemma {:induction false} SyncRunTimeout(input: seq<Rx>, limit: int, waited: nat)
    decreases |input|, if limit > waited then limit - waited else 0
    ensures var r := SyncRun(input, limit, waited);
      r.0 == Err(Timeout) ==>
        && limit > 0 && (waited <= limit ==> r.1 == limit - waited + 1)
        && Take(input, r.1) == Gaps(|Take(input, r.1)|)
  {
    var r := SyncRun(input, limit, waited);
    if input != [] && input[0].Byte? {
    } else if limit > 0 && waited + 1 > limit {
      if input != [] {
        assert Take(input, 1) == [Gap];
      }
    } else if limit <= 0 && input == [] {
    } else {
      var rest := if input == [] then [] else input[1..];
      var q := SyncRun(rest, limit, waited + 1);
      assert r == (q.0, q.1 + 1);
      SyncRunTimeout(rest, limit, waited + 1);
      if r.0 == Err(Timeout) && input != [] {
        TakeGaps(input, rest, q.1);
      }
    }
  }

  /** A gap in front of `rest`, whose first `n` elements (as far as they go) are gaps. */
  lemma TakeGaps(input: seq<Rx>, rest: seq<Rx>, n: nat)
    requires input != [] && input[0] == Gap && rest == input[1..]
    requires Take(rest, n) == Gaps(|Take(rest, n)|)
    ensures Take(input, n + 1) == Gaps(|Take(input, n + 1)|)
  {
    assert Take(input, n + 1) == [Gap] + Take(rest, n);
    GapsCons(|Take(rest, n)|);
  }

  /**
   The loop reports a silent line only when no deadline is set and the stream
   brought nothing but gaps, after one pass per gap and one more.
   */
  lemma {:induction false} SyncRunSilent(input: seq<Rx>, limit: int, waited: nat)
    decreases |input|, if limit > waited then limit - waited else 0
    ensures var r := SyncRun(input, limit, waited);
      r.0 == Err(Silent) ==> limit <= 0 && r.1 == |input| + 1 && input == Gaps(|input|)
  {
    var r := SyncRun(input, limit, waited);
    if input != [] && input[0].Byte? {
    } else if limit > 0 && waited + 1 > limit {
    } else if limit <= 0 && input == [] {
    } else {
      var rest := if input == [] then [] else input[1..];
      var q := SyncRun(rest, limit, waited + 1);
      assert r == (q.0, q.1 + 1);
      SyncRunSilent(rest, limit, waited + 1);
      if r.0 == Err(Silent) {
        assert input == [Gap] + rest;
        GapsCons(|rest|);
      }
    }
  }

  /**
   A device that stays silent for `k` read timeouts and then sends `b`: the
   loop makes `k + 1` passes and ends on `b`, as long as the deadline leaves
   room for the `k` empty reads.
   */
  lemma {:induction false} SyncRunAnswered(k: nat, b: byte, rest: seq<Rx>, limit: int, waited: nat)
    requires limit <= 0 || waited + k <= limit
    ensures SyncRun(Gaps(k) + [Byte(b)] + rest, limit, waited) == (Ok(b), k + 1)
    decreases k
  {
    var input := Gaps(k) + [Byte(b)] + rest;
    if k == 0 {
      assert input[0] == Byte(b);
    } else {
      var tail := Gaps(k - 1) + [Byte(b)] + rest;
      assert input == [Gap] + tail;
      assert input[1..] == tail;
      SyncRunAnswered(k - 1, b, rest, limit, waited + 1);
    }
  }

  /**
   On the line: the loop writes `k + 1` syncs, uses up the gaps and the byte,
   and succeeds exactly when `b` is 0x01.
   */
  lemma SyncAnswered(k: nat, b: byte, rest: seq<Rx>, sent: seq<Event>, limit: int)
    requires limit <= 0 || k <= limit
    ensures var l := Link(rest, sent + Syncs(k + 1));
      SyncLoop(Link(Gaps(k) + [Byte(b)] + rest, sent), limit)
        == if b == Ack then Done((), l) else Failed(UnexpectedResponse(b), l)
  {
    var input := Gaps(k) + [Byte(b)] + rest;
    SyncRunAnswered(k, b, rest, limit, 0);
    assert Drop(input, k + 1) == rest;
  }

  /** On a line of gaps and then nothing, a deadline of `limit` empty reads fails after `limit - waited + 1` passes. */
  lemma {:induction false} SyncRunGaps(m: nat, limit: int, waited: nat)
    requires limit > 0 && waited <= limit
    ensures SyncRun(Gaps(m), limit, waited) == (Err(Timeout), limit - waited + 1)
    decreases m, limit - waited
  {
    if waited + 1 > limit {
    } else {
      var rest := if m == 0 then [] else Gaps(m - 1);
      assert (if Gaps(m) == [] then [] else Gaps(m)[1..]) == rest;
      SyncRunGaps(if m == 0 then 0 else m - 1, limit, waited + 1);
    }
  }

  /** On a line that brings `m` gaps and then nothing, a deadline of `limit` empty reads fails after `limit + 1` syncs. */
  lemma SyncTimesOut(m: nat, sent: seq<Event>, limit: int)
    requires limit > 0
    ensures var r := SyncLoop(Link(Gaps(m), sent), limit);
      r == Failed(Timeout, r.link) && r.link.sent == sent + Syncs(limit + 1)
  {
    SyncRunGaps(m, limit, 0);
  }

  /** Without a deadline, `m` gaps and then nothing make the loop pass `m + 1` times and report a silent line. */
  lemma {:induction false} SyncRunQuiet(m: nat, limit: int, waited: nat)
    requires limit <= 0
    ensures SyncRun(Gaps(m), limit, waited) == (Err(Silent), m + 1)
    decreases m
  {
    if m > 0 {
      assert Gaps(m)[1..] == Gaps(m - 1);
      SyncRunQuiet(m - 1, limit, waited + 1);
    }
  }

  /** Without a deadline, a line that brings `m` gaps and then nothing fails with `Silent` after `m + 1` syncs. */
  lemma SyncGoesSilent(m: nat, sent: seq<Event>, limit: int)
    requires limit <= 0
    ensures SyncLoop(Link(Gaps(m), sent), limit) == Failed(Silent, Link([], sent + Syncs(m + 1)))
  {
    SyncRunQuiet(m, limit, 0);
  }

  /** A run of gaps one longer. */
  lemma GapsCons(k: nat)
    ensures [Gap] + Gaps(k) == Gaps(k + 1)
  {
  }
}
