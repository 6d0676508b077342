/**
 * Well-formed UTF-8, as bytes.decode() checks it before it returns text: the
 * byte sequences of Table 3-7 of the Unicode Standard, which exclude overlong
 * forms, surrogates and code points above U+10FFFF.
 */
module Utf8 {
  import opened BitCodec

  predicate IsContinuation(x: Byte) { 0x80 <= x <= 0xBF }

  /** The smallest second byte allowed after the lead byte x. */
  function SecondLow(x: Byte): Byte {
    if x == 0xE0 then 0xA0 else if x == 0xF0 then 0x90 else 0x80
  }

  /** The largest second byte allowed after the lead byte x. */
  function SecondHigh(x: Byte): Byte {
    if x == 0xED then 0x9F else if x == 0xF4 then 0x8F else 0xBF
  }

  /**
   * The length of the well-formed sequence at the start of b, or 0 when b does
   * not start with one.
   */
  function LeadLength(b: seq<Byte>): (n: nat)
    requires b != []
    ensures n <= |b| && n <= 4
    ensures n == 1 <==> b[0] < 0x80
    ensures n >= 2 ==> 0xC2 <= b[0] <= 0xF4 && forall p :: 1 <= p < n ==> IsContinuation(b[p])
  {
    var x := b[0];
    if x < 0x80 then 1
    else if 0xC2 <= x <= 0xDF then
      if |b| >= 2 && IsContinuation(b[1]) then 2 else 0
    else if 0xE0 <= x <= 0xEF then
      if |b| >= 3 && SecondLow(x) <= b[1] <= SecondHigh(x) && IsContinuation(b[2]) then 3 else 0
    else if 0xF0 <= x <= 0xF4 then
      if |b| >= 4 && SecondLow(x) <= b[1] <= SecondHigh(x) && IsContinuation(b[2]) && IsContinuation(b[3])
      then 4 else 0
    else 0
  }

  /** b is a run of well-formed sequences, so that b.decode() succeeds. */
  predicate IsUtf8(b: seq<Byte>)
    decreases |b|
  {
    b == [] || (LeadLength(b) > 0 && IsUtf8(b[LeadLength(b)..]))
  }

  /** Bytes below 0x80 are ASCII text and always decode. */
  lemma {:induction false} AsciiIsUtf8(b: seq<Byte>)
    requires forall p :: 0 <= p < |b| ==> b[p] < 0x80
    ensures IsUtf8(b)
    decreases |b|
  {
    if b != [] {
      AsciiIsUtf8(b[1..]);
    }
  }

  /** A continuation byte cannot start a character, so such bytes never decode. */
  lemma ContinuationFirstRejected(b: seq<Byte>)
    requires b != [] && IsContinuation(b[0])
    ensures !IsUtf8(b)
  {
  }
}
