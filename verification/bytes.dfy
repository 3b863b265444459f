/** Byte strings as the client handles them: Python 2 `str` values holding raw octets. */
module Bytes {

  /** One octet. */
  type byte = x: int | 0 <= x < 256

  /** `s[:n]`: the first `n` elements, or all of `s` when it is shorter (slicing never fails). */
  function Take<T>(s: seq<T>, n: nat): (r: seq<T>)
    ensures |r| == if n <= |s| then n else |s|
    ensures r == s[..|r|]
  {
    if n <= |s| then s[..n] else s
  }

  /** `s[n:]`: what is left after the first `n` elements, empty when `s` is shorter. */
  function Drop<T>(s: seq<T>, n: nat): (r: seq<T>)
    ensures |r| == if n <= |s| then |s| - n else 0
    ensures Take(s, n) + r == s
  {
    if n <= |s| then s[n..] else []
  }

  /** Concatenation regrouped; stated once so that proofs with large contexts need not rediscover it. */
  lemma Regroup<T>(a: seq<T>, b: seq<T>, c: seq<T>)
    ensures a + b + c == a + (b + c)
  {
  }

  /** `'\xff' * n`: `n` bytes of erased flash, empty when `n` is not positive. */
  function Fill(n: int): (r: seq<byte>)
    ensures |r| == if n > 0 then n else 0
    ensures forall i | 0 <= i < |r| :: r[i] == 0xFF
  {
    if n <= 0 then [] else seq(n, _ => 0xFF)
  }

  /** Every byte of `s` is 0xFF. */
  predicate AllFill(s: seq<byte>) {
    forall i | 0 <= i < |s| :: s[i] == 0xFF
  }

  /** The strings of `ss`, joined in order (`''.join(ss)`). */
  function Flatten(ss: seq<seq<byte>>): (r: seq<byte>)
    ensures ss == [] ==> r == []
  {
    if ss == [] then [] else ss[0] + Flatten(ss[1..])
  }

  lemma {:induction false} FlattenAppend(ss: seq<seq<byte>>, s: seq<byte>)
    ensures Flatten(ss + [s]) == Flatten(ss) + s
  {
    if ss == [] {
      assert ss + [s] == [s];
    } else {
      assert (ss + [s])[1..] == ss[1..] + [s];
      FlattenAppend(ss[1..], s);
    }
  }
}
