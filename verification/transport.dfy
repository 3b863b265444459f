/**
 The serial line as the client sees it. What the device sends is a finite
 stream of bytes and gaps: a gap is a silence longer than the port's read
 timeout, so a read that reaches one returns early with what it has. Past the
 end of the stream the line is silent for good. What the client does to the
 line is a log of writes and of reopenings at a new baud rate.
 */
module Transport {
  import opened Bytes
  import opened Results

  datatype Rx = Byte(b: byte) | Gap

  datatype Event = Send(bytes: seq<byte>) | Open(baud: int)

  /** The line at one moment: what is still to arrive, and everything done to it so far. */
  datatype Link = Link(input: seq<Rx>, sent: seq<Event>)

  /** An operation on the line: its value or the exception it raised, and the line afterwards. */
  datatype Step<+T> = Done(value: T, link: Link) | Failed(fault: Fault, link: Link)

  /** Bytes arriving back to back, with no silence between them. */
  function Wire(s: seq<byte>): (w: seq<Rx>)
    ensures |w| == |s| && forall i | 0 <= i < |s| :: w[i] == Byte(s[i])
  {
    seq(|s|, i requires 0 <= i < |s| => Byte(s[i]))
  }

  /** `k` read timeouts in a row. */
  function Gaps(k: nat): (w: seq<Rx>)
    ensures |w| == k && forall i | 0 <= i < k :: w[i] == Gap
  {
    seq(k, _ => Gap)
  }

  /**
   `ser.read(n)` on the stream `input`: up to `n` bytes, fewer when a gap or
   the end of the stream comes first; the gap that cut the read short is used up.
   */
  function Read(input: seq<Rx>, n: nat): (r: (seq<byte>, seq<Rx>))
    decreases n
    ensures |r.0| <= n && |r.0| <= |input|
    ensures input[..|r.0|] == Wire(r.0)
    ensures |r.0| == n || |r.0| == |input| ==> r.1 == input[|r.0|..]
    ensures |r.0| < n && |r.0| < |input| ==> input[|r.0|] == Gap && r.1 == input[|r.0| + 1..]
  {
    if n == 0 || input == [] then ([], input)
    else
      match input[0]
      case Gap => ([], input[1..])
      case Byte(b) =>
        var (got, rest) := Read(input[1..], n - 1);
        ([b] + got, rest)
  }

  /** A read takes at least one element off a non-empty stream, and never adds any. */
  lemma ReadConsumes(input: seq<Rx>, n: nat)
    ensures |Read(input, n).1| <= |input|
    ensures n > 0 && input != [] ==> |Read(input, n).1| < |input|
  {
  }

  /** Reading exactly the bytes that are on the line returns them and leaves what follows. */
  lemma ReadWire(s: seq<byte>, tail: seq<Rx>)
    ensures Read(Wire(s) + tail, |s|) == (s, tail)
  {
    var r := Read(Wire(s) + tail, |s|);
    assert Wire(r.0) == Wire(s);
    assert r.0 == s by {
      forall i | 0 <= i < |s| ensures r.0[i] == s[i] {
        assert Wire(r.0)[i] == Wire(s)[i];
      }
    }
    assert (Wire(s) + tail)[|s|..] == tail;
  }

  /** The bytes of `a + b` on the wire are those of `a`, then those of `b`. */
  lemma WireAppend(a: seq<byte>, b: seq<byte>)
    ensures Wire(a + b) == Wire(a) + Wire(b)
  {
  }

  /** Reading the line of `link`. */
  function Receive(link: Link, n: nat): (r: (seq<byte>, Link))
    ensures r.1.sent == link.sent
    ensures (r.0, r.1.input) == Read(link.input, n)
  {
    var (got, rest) := Read(link.input, n);
    (got, Link(rest, link.sent))
  }

  /** `ser.read(1)`: the next byte, or nothing when a gap (used up) or the end of the stream comes first. */
  function ReceiveByte(link: Link): (r: (seq<byte>, Link))
    ensures r.1.sent == link.sent
    ensures link.input == [] ==> r.0 == [] && r.1.input == []
    ensures link.input != [] ==> r.1.input == link.input[1..]
    ensures link.input != [] ==> (r.0 == [] <==> link.input[0] == Gap)
    ensures r.0 != [] ==> r.0 == [link.input[0].b] && link.input[0] == Byte(r.0[0])
  {
    if link.input == [] then ([], link)
    else
      match link.input[0]
      case Gap => ([], Link(link.input[1..], link.sent))
      case Byte(b) => ([b], Link(link.input[1..], link.sent))
  }

  /** Reading one byte is the general read with a count of one. */
  lemma ReceiveOne(link: Link)
    ensures ReceiveByte(link) == Receive(link, 1)
  {
    if link.input != [] && link.input[0].Byte? {
      assert Read(link.input[1..], 0) == ([], link.input[1..]);
      assert [link.input[0].b] + [] == [link.input[0].b];
      assert Read(link.input, 1) == ([link.input[0].b], link.input[1..]);
    } else if link.input != [] {
      assert Read(link.input, 1) == ([], link.input[1..]);
    }
  }

  /** `ser.write(bytes)` followed by `ser.flush()`. */
  function Transmit(link: Link, bytes: seq<byte>): (l: Link)
    ensures l.input == link.input && l.sent == link.sent + [Send(bytes)]
  {
    Link(link.input, link.sent + [Send(bytes)])
  }

  /** `ser.close()`, setting a new baud rate and read timeout, `ser.open()`. */
  function Reopen(link: Link, baud: int): (l: Link)
    ensures l.input == link.input && l.sent == link.sent + [Open(baud)]
  {
    Link(link.input, link.sent + [Open(baud)])
  }
}
