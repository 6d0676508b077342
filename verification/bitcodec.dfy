/**
 * The bit codec: `byte2bin` turns bytes into a string of '0'/'1' characters,
 * eight per byte, most significant bit first; `bin2byte` reads such a string as
 * one big-endian integer and returns that integer's minimal big-endian bytes.
 */
module BitCodec {
  import opened Results

  type Byte = x: int | 0 <= x < 256

  function Pow2(n: nat): (r: nat)
    ensures r >= 1
  {
    if n == 0 then 1 else 2 * Pow2(n - 1)
  }

  predicate IsBinary(s: string) {
    forall p :: 0 <= p < |s| ==> s[p] == '0' || s[p] == '1'
  }

  lemma BinaryConcat(s: string, t: string)
    requires IsBinary(s) && IsBinary(t)
    ensures IsBinary(s + t)
  {
    forall p | 0 <= p < |s + t|
      ensures (s + t)[p] == '0' || (s + t)[p] == '1'
    {
      if p >= |s| {
        assert (s + t)[p] == t[p - |s|];
      }
    }
  }

  function BitValue(c: char): nat {
    if c == '1' then 1 else 0
  }

  /** int(s, 2) for a string of binary digits: the big-endian value of the digits. */
  function BinValue(s: string): (v: nat)
    ensures v < Pow2(|s|)
  {
    if s == [] then 0 else 2 * BinValue(s[..|s| - 1]) + BitValue(s[|s| - 1])
  }

  /** The `w` lowest bits of `v`, most significant first. */
  function BinaryDigits(v: nat, w: nat): (r: string)
    ensures |r| == w && IsBinary(r)
  {
    if w == 0 then "" else BinaryDigits(v / 2, w - 1) + [if v % 2 == 1 then '1' else '0']
  }

  lemma {:induction false} BinaryDigitsValue(v: nat, w: nat)
    requires v < Pow2(w)
    ensures BinValue(BinaryDigits(v, w)) == v
  {
    if w > 0 {
      BinaryDigitsValue(v / 2, w - 1);
      var s := BinaryDigits(v, w);
      assert s[..|s| - 1] == BinaryDigits(v / 2, w - 1);
    }
  }

  /** f'{x:0>8b}': the eight bits of one byte, most significant first. */
  function ByteBits(x: Byte): (r: string)
    ensures |r| == 8 && IsBinary(r) && BinValue(r) == x
  {
    assert Pow2(8) == 256;
    BinaryDigitsValue(x, 8);
    BinaryDigits(x, 8)
  }

  /** What `byte2bin` returns: the bits of every byte, in order. */
  function BitString(b: seq<Byte>): (r: string)
    ensures |r| == 8 * |b| && IsBinary(r)
  {
    if b == [] then "" else BitString(b[..|b| - 1]) + ByteBits(b[|b| - 1])
  }

  /** Characters 8i..8i+7 of the bit string are the binary form of byte i. */
  lemma {:induction false} BitStringChunk(b: seq<Byte>, i: nat)
    requires i < |b|
    ensures BitString(b)[8 * i .. 8 * i + 8] == ByteBits(b[i])
  {
    var prefix := b[..|b| - 1];
    assert BitString(b) == BitString(prefix) + ByteBits(b[|b| - 1]);
    if i < |b| - 1 {
      BitStringChunk(prefix, i);
    }
  }

  /** byte2bin: appends the eight-character binary form of each byte. */
  method ByteToBin(data: seq<Byte>) returns (out: string)
    ensures out == BitString(data)
  {
    out := "";
    for n := 0 to |data|
      invariant out == BitString(data[..n])
    {
      out := out + ByteBits(data[n]);
      assert data[..n + 1][..n] == data[..n];
    }
    assert data[..|data|] == data;
  }

  /** The big-endian base-256 value of a byte sequence. */
  function BytesValue(b: seq<Byte>): nat {
    if b == [] then 0 else 256 * BytesValue(b[..|b| - 1]) + b[|b| - 1]
  }

  /** The shortest big-endian bytes of `v`: empty for zero, never a leading zero byte. */
  function MinimalBytes(v: nat): (r: seq<Byte>)
    ensures BytesValue(r) == v
    ensures r == [] <==> v == 0
    ensures r != [] ==> r[0] != 0
  {
    if v == 0 then []
    else
      var r := MinimalBytes(v / 256) + [v % 256];
      assert r[..|r| - 1] == MinimalBytes(v / 256);
      r
  }

  /** b[::-1] */
  function Reversed(s: seq<Byte>): (r: seq<Byte>)
    ensures |r| == |s|
    ensures forall i :: 0 <= i < |s| ==> r[i] == s[|s| - 1 - i]
  {
    if s == [] then [] else [s[|s| - 1]] + Reversed(s[..|s| - 1])
  }

  /** What `bin2byte` returns: int(s, 2) fails on an empty or non-binary string. */
  function FromBitString(s: string): (r: Result<seq<Byte>>)
    ensures r.Ok? <==> s != [] && IsBinary(s)
    ensures r.Ok? ==> BytesValue(r.value) == BinValue(s)
    ensures r.Ok? ==> r.value == [] || r.value[0] != 0
    ensures r.Ok? ==> (r.value == [] <==> forall p :: 0 <= p < |s| ==> s[p] == '0')
  {
    if s == [] || !IsBinary(s) then Err(NotBinary)
    else
      ZeroValue(s);
      Ok(MinimalBytes(BinValue(s)))
  }

  /** A binary string has value zero exactly when all its digits are '0'. */
  lemma {:induction false} ZeroValue(s: string)
    requires IsBinary(s)
    ensures BinValue(s) == 0 <==> forall p :: 0 <= p < |s| ==> s[p] == '0'
  {
    if s != [] {
      var prefix := s[..|s| - 1];
      assert IsBinary(prefix) by {
        assert forall p :: 0 <= p < |prefix| ==> prefix[p] == s[p];
      }
      ZeroValue(prefix);
      assert forall p :: 0 <= p < |prefix| ==> prefix[p] == s[p];
    }
  }

  /**
   * bin2byte: v = int(data, 2), then repeatedly append v & 0xff and shift v
   * right by eight, and return the collected bytes reversed.
   */
  method BinToByte(data: string) returns (r: Result<seq<Byte>>)
    ensures r == FromBitString(data)
  {
    if data == [] || !IsBinary(data) {
      return Err(NotBinary);
    }
    var v := BinValue(data);
    var b: seq<Byte> := [];
    while v != 0
      invariant MinimalBytes(v) + Reversed(b) == MinimalBytes(BinValue(data))
      decreases v
    {
      assert MinimalBytes(v) == MinimalBytes(v / 256) + [v % 256];
      assert Reversed(b + [v % 256]) == [v % 256] + Reversed(b) by {
        assert (b + [v % 256])[..|b|] == b;
      }
      b := b + [v % 256];
      v := v / 256;
    }
    assert MinimalBytes(v) + Reversed(b) == Reversed(b);
    r := Ok(Reversed(b));
  }

  lemma {:induction false} BinValueConcat(s: string, t: string)
    ensures BinValue(s + t) == BinValue(s) * Pow2(|t|) + BinValue(t)
    decreases |t|
  {
    if t == [] {
      assert s + t == s;
    } else {
      var t' := t[..|t| - 1];
      BinValueConcat(s, t');
      BinValueSnoc(s, t);
      Regroup(BinValue(s), Pow2(|t'|), BinValue(t'), BitValue(t[|t| - 1]));
    }
  }

  /** The last digit of s + t is the last digit of t. */
  lemma BinValueSnoc(s: string, t: string)
    requires t != []
    ensures BinValue(s + t) == 2 * BinValue(s + t[..|t| - 1]) + BitValue(t[|t| - 1])
  {
    var st := s + t;
    assert st[..|st| - 1] == s + t[..|t| - 1];
    assert st[|st| - 1] == t[|t| - 1];
  }

  lemma Regroup(a: int, p: int, v: int, c: int)
    ensures 2 * (a * p + v) + c == a * (2 * p) + (2 * v + c)
  {
  }

  /** The value read back from a bit string is the big-endian value of the bytes. */
  lemma {:induction false} BitStringValue(b: seq<Byte>)
    ensures BinValue(BitString(b)) == BytesValue(b)
  {
    if b != [] {
      var prefix := b[..|b| - 1];
      BitStringValue(prefix);
      BinValueConcat(BitString(prefix), ByteBits(b[|b| - 1]));
      assert Pow2(8) == 256;
    }
  }

  /** `b` without its leading zero bytes. */
  function DropLeadingZeros(b: seq<Byte>): (r: seq<Byte>)
    ensures r == [] || r[0] != 0
    ensures |r| <= |b| && r == b[|b| - |r|..]
  {
    if b != [] && b[0] == 0 then DropLeadingZeros(b[1..]) else b
  }

  lemma {:induction false} BytesValueDropZeros(b: seq<Byte>)
    ensures BytesValue(DropLeadingZeros(b)) == BytesValue(b)
    decreases |b|
  {
    if b != [] && b[0] == 0 {
      BytesValueDropZeros(b[1..]);
      LeadingZeroValue(b[1..]);
      assert [0 as Byte] + b[1..] == b;
    }
  }

  lemma {:induction false} LeadingZeroValue(t: seq<Byte>)
    ensures BytesValue([0 as Byte] + t) == BytesValue(t)
  {
    if t != [] {
      var t' := t[..|t| - 1];
      assert ([0 as Byte] + t)[..|t|] == [0 as Byte] + t';
      LeadingZeroValue(t');
    }
  }

  lemma {:induction false} MinimalOfValue(b: seq<Byte>)
    requires b == [] || b[0] != 0
    ensures MinimalBytes(BytesValue(b)) == b
    ensures b != [] ==> BytesValue(b) > 0
  {
    if b != [] {
      var prefix, x := b[..|b| - 1], b[|b| - 1];
      MinimalOfValue(prefix);
      var q := BytesValue(prefix);
      var v := BytesValue(b);
      assert v == 256 * q + x;
      assert v / 256 == q && v % 256 == x;
      if prefix == [] {
        assert v == x == b[0];
      }
      assert MinimalBytes(v) == MinimalBytes(q) + [x];
      assert prefix + [x] == b;
    }
  }

  /**
   * bin2byte(byte2bin(b)) gives b back without its leading zero bytes, and
   * fails for the empty b, whose bit string is empty.
   */
  lemma BitCodecRoundTrip(b: seq<Byte>)
    ensures FromBitString(BitString(b)) == if b == [] then Err(NotBinary) else Ok(DropLeadingZeros(b))
  {
    BitStringValue(b);
    BytesValueDropZeros(b);
    MinimalOfValue(DropLeadingZeros(b));
  }

  /** The round trip is exact for a non-empty b whose first byte is not zero. */
  lemma BitCodecExact(b: seq<Byte>)
    requires b != [] && b[0] != 0
    ensures FromBitString(BitString(b)) == Ok(b)
  {
    BitCodecRoundTrip(b);
  }

  /** Reading back the value of a binary string as |s| digits gives the string. */
  lemma {:induction false} DigitsOfValue(s: string)
    requires IsBinary(s)
    ensures BinaryDigits(BinValue(s), |s|) == s
  {
    if s != [] {
      var prefix := s[..|s| - 1];
      DigitsOfValue(prefix);
    }
  }

  /**
   * The bytes of a bit string taken eight bits at a time, keeping leading zero
   * bytes: what a decoder that knows the payload's bit count can use instead
   * of `bin2byte`.
   */
  function ChunkBytes(s: string): (r: seq<Byte>)
    requires |s| % 8 == 0
    ensures |r| == |s| / 8
  {
    if s == [] then []
    else
      assert Pow2(8) == 256;
      ChunkBytes(s[..|s| - 8]) + [BinValue(s[|s| - 8..]) as Byte]
  }

  /** Chunking undoes `BitString` on every binary string of whole bytes ... */
  lemma {:induction false} ChunkBytesInverse(s: string)
    requires |s| % 8 == 0 && IsBinary(s)
    ensures BitString(ChunkBytes(s)) == s
  {
    if s != [] {
      var prefix, last := s[..|s| - 8], s[|s| - 8..];
      BinarySlice(s, 0, |s| - 8);
      BinarySlice(s, |s| - 8, |s|);
      ChunkBytesInverse(prefix);
      DigitsOfValue(last);
      var b := ChunkBytes(prefix);
      var x := BinValue(last) as Byte;
      assert ChunkBytes(s) == b + [x];
      BitStringSnoc(b, x);
      Rejoin(s, |s| - 8);
    }
  }

  lemma Rejoin(s: string, i: nat)
    requires i <= |s|
    ensures s[..i] + s[i..] == s
  {
  }

  lemma BinarySlice(s: string, i: nat, j: nat)
    requires IsBinary(s) && i <= j <= |s|
    ensures IsBinary(s[i..j])
  {
    assert forall p :: 0 <= p < j - i ==> s[i..j][p] == s[i + p];
  }

  lemma BitStringSnoc(b: seq<Byte>, x: Byte)
    ensures BitString(b + [x]) == BitString(b) + ByteBits(x)
  {
    assert (b + [x])[..|b|] == b;
  }

  lemma WholeBytes(n: nat)
    ensures (8 * n) % 8 == 0
  {
  }

  /** ... and `BitString` undoes chunking: every byte sequence comes back exactly. */
  lemma {:induction false} ChunkBytesRoundTrip(b: seq<Byte>)
    ensures |BitString(b)| % 8 == 0 && ChunkBytes(BitString(b)) == b
  {
    WholeBytes(|b|);
    if b != [] {
      var prefix, x := b[..|b| - 1], b[|b| - 1];
      var s, front, last := BitString(b), BitString(prefix), ByteBits(x);
      WholeBytes(|prefix|);
      assert s == front + last;
      SplitAt(front, last);
      ChunkBytesRoundTrip(prefix);
      assert ChunkBytes(s) == ChunkBytes(front) + [BinValue(last) as Byte];
      assert b == prefix + [x];
    }
  }

  lemma SplitAt(s: string, t: string)
    ensures (s + t)[..|s|] == s && (s + t)[|s|..] == t
  {
  }
}
