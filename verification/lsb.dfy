/**
 * What one channel sample carries: the parity of its value. `encode` forces
 * each sample's parity to one stream bit; `imread` reads the parities back.
 */
module Lsb {
  import opened BitCodec

  /** Every sample is a channel value 0..255. */
  predicate IsSampleRange(xs: seq<int>) {
    forall p :: 0 <= p < |xs| ==> 0 <= xs[p] <= 255
  }

  /** str(int(v % 2)): the bit a sample carries. */
  function ParityChar(v: int): (c: char)
    ensures c == '0' || c == '1'
  {
    if v % 2 == 1 then '1' else '0'
  }

  /**
   * The new value of a sample that is to carry `bit`: an odd value with bit
   * '0' and an even value with bit '1' are decremented, except that 0 becomes 1.
   */
  function EmbedBit(v: int, bit: char): (r: int)
    ensures (bit == '0' || bit == '1') ==> ParityChar(r) == bit
    ensures ParityChar(v) == bit ==> r == v
    ensures bit != '0' && bit != '1' ==> r == v
    ensures -1 <= r - v <= 1
    ensures 0 <= v <= 255 ==> 0 <= r <= 255
  {
    if v % 2 == 1 && bit == '0' then v - 1
    else if v % 2 != 1 && bit == '1' then (if v == 0 then v + 1 else v - 1)
    else v
  }

  /**
   * The samples after the stream `s` is written over `xs`, sample p carrying
   * bit p; samples past the end of the stream are left as they were.
   */
  function EmbedStream(xs: seq<int>, s: string): (r: seq<int>)
    ensures |r| == |xs|
    ensures forall p :: |s| <= p < |xs| ==> r[p] == xs[p]
    ensures forall p :: 0 <= p < |xs| ==> -1 <= r[p] - xs[p] <= 1
    ensures IsSampleRange(xs) ==> IsSampleRange(r)
    ensures IsBinary(s) ==> forall p :: 0 <= p < |xs| && p < |s| ==> ParityChar(r[p]) == s[p]
  {
    seq(|xs|, p requires 0 <= p < |xs| => if p < |s| then EmbedBit(xs[p], s[p]) else xs[p])
  }

  /** The parity of every sample, in order. */
  function ParityString(xs: seq<int>): (r: string)
    ensures |r| == |xs| && IsBinary(r)
  {
    seq(|xs|, p requires 0 <= p < |xs| => ParityChar(xs[p]))
  }

  function Min(x: int, y: int): int { if x <= y then x else y }
  function Max(x: int, y: int): int { if x <= y then y else x }

  /**
   * What `imread` returns out of the sample parities `bits` when asked for
   * `length` bits: it appends before it compares, so at least one bit.
   */
  function TakeBits(bits: string, length: int): (r: string)
    ensures |r| == Min(Max(length, 1), |bits|)
    ensures bits[..|r|] == r
  {
    bits[..Min(Max(length, 1), |bits|)]
  }

  /** Reading a shorter prefix of bits that begin with `h + t` gives `h`. */
  lemma TakeBitsPrefix(bits: string, h: string, t: string)
    requires |h| >= 1
    requires TakeBits(bits, |h| + |t|) == h + t
    ensures TakeBits(bits, |h|) == h
  {
    var full := TakeBits(bits, |h| + |t|);
    assert |full| == |h| + |t| <= |bits|;
    assert full[..|h|] == h;
  }

  /** Bits of the stream beyond the last sample are dropped without effect. */
  lemma ExtraBitsDropped(xs: seq<int>, s: string)
    requires |s| >= |xs|
    ensures EmbedStream(xs, s) == EmbedStream(xs, s[..|xs|])
  {
  }

  /** Writing stream bit d after the first d changes sample d only, from its original value. */
  lemma EmbedOneMore(xs: seq<int>, s: string, d: nat)
    requires d < |s| && d < |xs|
    ensures EmbedStream(xs, s[..d])[d] == xs[d]
    ensures EmbedStream(xs, s[..d + 1]) == EmbedStream(xs, s[..d])[d := EmbedBit(xs[d], s[d])]
  {
  }

  /**
   * Reading back as many bits as were written, from samples that hold them all,
   * gives the stream back.
   */
  lemma {:induction false} ReadBackAfterEmbed(xs: seq<int>, s: string)
    requires IsBinary(s) && 1 <= |s| <= |xs|
    ensures TakeBits(ParityString(EmbedStream(xs, s)), |s|) == s
  {
    var r := TakeBits(ParityString(EmbedStream(xs, s)), |s|);
    assert |r| == |s|;
    forall p | 0 <= p < |s|
      ensures r[p] == s[p]
    {
    }
  }
}
