/**
 * The steganography codec itself: `encode` writes the header and payload bits
 * into the parities of the image's samples in place, and `decode` reads them
 * back with `imread`.
 */
module Stego {
  import opened Results
  import opened BitCodec
  import opened Header
  import opened Lsb
  import opened Image
  import opened Utf8

  /**
   * The embedding loop of `encode`: walks every sample in row-major then channel
   * order and makes sample d carry stream bit d, stopping once the stream is
   * used up. A stream longer than the image is cut off without an error.
   */
  method EmbedBits(a: array3<int>, data: string)
    modifies a
    ensures Samples(a) == EmbedStream(old(Samples(a)), data)
  {
    var d := 0;
    var datalen := |data|;
    for i := 0 to a.Length0
      invariant d == Index(a, i, 0, 0) && d <= datalen
      invariant Samples(a) == EmbedStream(old(Samples(a)), data[..d])
    {
      for j := 0 to a.Length1
        invariant d == Index(a, i, j, 0) && d <= datalen
        invariant Samples(a) == EmbedStream(old(Samples(a)), data[..d])
      {
        for k := 0 to a.Length2
          invariant d == Index(a, i, j, k) && d <= datalen
          invariant Samples(a) == EmbedStream(old(Samples(a)), data[..d])
        {
          if d < datalen {
            SampleAt(a, i, j, k);
            EmbedOneMore(old(Samples(a)), data, d);
            WriteParity(a, i, j, k, data[d]);
            d := d + 1;
          } else {
            // the stream is used up
            assert data[..d] == data;
            return;
          }
        }
        NextPixel(a, i, j);
      }
      NextRow(a, i);
    }
    ExtraBitsDropped(old(Samples(a)), data);
  }

  /**
   * The body of the embedding loop for one sample: an odd sample that is to
   * carry '0' and an even one that is to carry '1' are decremented, except that
   * 0 becomes 1. Only that sample changes.
   */
  method WriteParity(a: array3<int>, i: int, j: int, k: int, bit: char)
    requires InBounds(a, i, j, k)
    modifies a
    ensures 0 <= Index(a, i, j, k) < Count(a)
    ensures Samples(a) == old(Samples(a))[Index(a, i, j, k) := EmbedBit(old(a[i, j, k]), bit)]
  {
    ghost var before := Samples(a);
    forall i', j', k' | InBounds(a, i', j', k')
      ensures 0 <= Index(a, i', j', k') < |before| && a[i', j', k'] == before[Index(a, i', j', k')]
    {
      SampleAt(a, i', j', k');
    }
    var tmpdat := a[i, j, k];
    var odd := tmpdat % 2 == 1;
    if odd && bit == '0' {
      a[i, j, k] := tmpdat - 1;
    } else if !odd && bit == '1' {
      if tmpdat == 0 {
        a[i, j, k] := tmpdat + 1;
      } else {
        a[i, j, k] := tmpdat - 1;
      }
    }
    SamplesUpdated(a, i, j, k, before);
  }

  /** The stream bits `encode` writes and the method that writes them. */
  method Encode(payload: seq<Byte>, a: array3<int>)
    modifies a
    ensures Samples(a) == EmbedStream(old(Samples(a)), Stream(payload))
  {
    var data := ByteToBin(payload);
    var size := ByteToBin(SizeField(|data|));
    var options := ByteToBin(OptionsField());
    EmbedBits(a, size + options + data);
  }

  /**
   * imread: appends the parity of each sample in row-major then channel order
   * and stops once at least `length` bits are collected; the check comes after
   * the append, so even a `length` below one yields a bit.
   */
  method ReadBits(a: array3<int>, length: int) returns (output: string)
    ensures output == TakeBits(ParityString(Samples(a)), length)
  {
    output := "";
    for i := 0 to a.Length0
      invariant |output| == Index(a, i, 0, 0) <= Count(a) && |output| < Max(length, 1)
      invariant output == ParityString(Samples(a))[..|output|]
    {
      for j := 0 to a.Length1
        invariant |output| == Index(a, i, j, 0) <= Count(a) && |output| < Max(length, 1)
        invariant output == ParityString(Samples(a))[..|output|]
      {
        for k := 0 to a.Length2
          invariant |output| == Index(a, i, j, k) <= Count(a) && |output| < Max(length, 1)
          invariant output == ParityString(Samples(a))[..|output|]
        {
          SampleAt(a, i, j, k);
          output := output + [ParityChar(a[i, j, k])];
          if |output| >= length {
            return;
          }
        }
        NextPixel(a, i, j);
      }
      NextRow(a, i);
    }
  }

  /**
   * What `decode` returns for an image whose sample parities are `bits`: the
   * header's first 512 bits give the payload bit count through bin2byte and
   * int(), its last 512 bits must pass bin2byte and decode as UTF-8, and
   * bin2byte of the bits after the header, up to that count, gives the payload.
   */
  function DecodeParities(bits: string): (r: Result<seq<Byte>>)
    ensures r.Ok? ==> |bits| > HeaderBitCount
    ensures r.Ok? ==> r.value == [] || r.value[0] != 0
  {
    var header := TakeBits(bits, HeaderBitCount);
    var sizeBytes :- FromBitString(header[..Min(SizeBitCount, |header|)]);
    var size :- ParseInt(sizeBytes);
    var options :- FromBitString(header[Min(SizeBitCount, |header|)..]);
    if !IsUtf8(options) then Err(NotUtf8) else
    var output := TakeBits(bits, HeaderBitCount + size);
    FromBitString(output[Min(HeaderBitCount, |output|)..])
  }

  /** decode, with the image already loaded. */
  method Decode(a: array3<int>) returns (r: Result<seq<Byte>>)
    ensures r == DecodeParities(ParityString(Samples(a)))
  {
    var header := ReadBits(a, HeaderBitCount);
    var sizeBytes :- BinToByte(header[..Min(SizeBitCount, |header|)]);
    var size :- ParseInt(sizeBytes);
    var options :- BinToByte(header[Min(SizeBitCount, |header|)..]);
    if !IsUtf8(options) {
      return Err(NotUtf8);
    }
    var output := ReadBits(a, HeaderBitCount + size);
    r := BinToByte(output[Min(HeaderBitCount, |output|)..]);
  }

  /**
   * Reading back 1024 + 8|payload| bits from samples that hold the stream gives
   * exactly the header followed by the payload's bits.
   */
  lemma ReadBackStream(xs: seq<int>, payload: seq<Byte>)
    requires HeaderBitCount + 8 * |payload| <= |xs|
    requires 8 * |payload| < Pow10(FieldWidth)
    ensures |HeaderBits(8 * |payload|)| == HeaderBitCount
    ensures TakeBits(ParityString(EmbedStream(xs, Stream(payload))), |Stream(payload)|)
         == HeaderBits(8 * |payload|) + BitString(payload)
  {
    var n := 8 * |payload|;
    var h, t, s := HeaderBits(n), BitString(payload), Stream(payload);
    HeaderSize(n);
    assert |h| == HeaderBitCount && |t| == n;
    assert s == h + t;
    ReadBackAfterEmbed(xs, s);
    assert TakeBits(ParityString(EmbedStream(xs, s)), |s|) == h + t;
  }

  /**
   * Decoding what was encoded into samples with room for the whole stream
   * gives the payload without its leading zero bytes, and fails for the empty
   * payload.
   */
  lemma EncodeDecode(xs: seq<int>, payload: seq<Byte>)
    requires HeaderBitCount + 8 * |payload| <= |xs|
    requires 8 * |payload| < Pow10(FieldWidth)
    ensures DecodeParities(ParityString(EmbedStream(xs, Stream(payload))))
         == if payload == [] then Err(NotBinary) else Ok(DropLeadingZeros(payload))
  {
    StreamDecodes(xs, payload);
    BitCodecRoundTrip(payload);
  }

  /** Decoding the stream of `payload` gives bin2byte of the payload's bits. */
  lemma StreamDecodes(xs: seq<int>, payload: seq<Byte>)
    requires HeaderBitCount + 8 * |payload| <= |xs|
    requires 8 * |payload| < Pow10(FieldWidth)
    ensures DecodeParities(ParityString(EmbedStream(xs, Stream(payload)))) == FromBitString(BitString(payload))
  {
    var n := 8 * |payload|;
    var bits, s := ParityString(EmbedStream(xs, Stream(payload))), Stream(payload);
    var h, t := HeaderBits(n), BitString(payload);
    ReadBackStream(xs, payload);
    assert s == h + t;
    HeaderParses(n);
    DecodeFramed(bits, h, t, SizeField(n));
  }

  /**
   * DecodeParities on parities that begin with a header `h` whose size field
   * parses to the length of the body `t` that follows it: the result is
   * bin2byte of that body.
   */
  lemma DecodeFramed(bits: string, h: string, t: string, sizeBytes: seq<Byte>)
    requires |h| == HeaderBitCount
    requires FromBitString(h[..SizeBitCount]) == Ok(sizeBytes)
    requires ParseInt(sizeBytes) == Ok(|t|)
    requires FromBitString(h[SizeBitCount..]).Ok? && IsUtf8(FromBitString(h[SizeBitCount..]).value)
    requires TakeBits(bits, |h + t|) == h + t
    ensures DecodeParities(bits) == FromBitString(t)
  {
    TakeBitsPrefix(bits, h, t);
    assert (h + t)[HeaderBitCount..] == t;
  }

  /** A payload with a non-zero first byte comes back exactly. */
  lemma EncodeDecodeExact(xs: seq<int>, payload: seq<Byte>)
    requires HeaderBitCount + 8 * |payload| <= |xs|
    requires 8 * |payload| < Pow10(FieldWidth)
    requires payload != [] && payload[0] != 0
    ensures DecodeParities(ParityString(EmbedStream(xs, Stream(payload)))) == Ok(payload)
  {
    EncodeDecode(xs, payload);
  }

  /**
   * A payload whose first byte is 0x00, such as b'\x00H', never comes back
   * from `decode`: the result, when there is one, has no leading zero byte.
   */
  lemma LeadingZeroByteLost(xs: seq<int>, payload: seq<Byte>)
    requires HeaderBitCount + 8 * |payload| <= |xs|
    requires 8 * |payload| < Pow10(FieldWidth)
    requires payload != [] && payload[0] == 0
    ensures DecodeParities(ParityString(EmbedStream(xs, Stream(payload)))) != Ok(payload)
  {
    EncodeDecode(xs, payload);
  }

  /** `decode` fails on the empty payload: int('', 2) raises. */
  lemma EmptyPayloadRejected(xs: seq<int>)
    requires |xs| >= HeaderBitCount
    ensures DecodeParities(ParityString(EmbedStream(xs, Stream([])))) == Err(NotBinary)
  {
    DecimalFits(0, FieldWidth);
    EncodeDecode(xs, []);
  }

  /**
   * The decoder as intended: it reads exactly the header's bit count after the
   * header and turns it into bytes eight bits at a time, so that leading zero
   * bytes and the empty payload survive.
   */
  function DecodeParitiesExact(bits: string): (r: Result<seq<Byte>>)
    ensures r.Ok? ==> |bits| >= HeaderBitCount + 8 * |r.value|
  {
    var header := TakeBits(bits, HeaderBitCount);
    var sizeBytes :- FromBitString(header[..Min(SizeBitCount, |header|)]);
    var size :- ParseInt(sizeBytes);
    var options :- FromBitString(header[Min(SizeBitCount, |header|)..]);
    if !IsUtf8(options) then Err(NotUtf8)
    else if size < 0 || size % 8 != 0 then Err(BadLength)
    else if |bits| < HeaderBitCount + size then Err(TooShort)
    else Ok(ChunkBytes(bits[HeaderBitCount..HeaderBitCount + size]))
  }

  /** The corrected decode, with the image already loaded. */
  method DecodeExact(a: array3<int>) returns (r: Result<seq<Byte>>)
    ensures r == DecodeParitiesExact(ParityString(Samples(a)))
  {
    var header := ReadBits(a, HeaderBitCount);
    var sizeBytes :- BinToByte(header[..Min(SizeBitCount, |header|)]);
    var size :- ParseInt(sizeBytes);
    var options :- BinToByte(header[Min(SizeBitCount, |header|)..]);
    if !IsUtf8(options) {
      return Err(NotUtf8);
    }
    if size < 0 || size % 8 != 0 {
      return Err(BadLength);
    }
    var output := ReadBits(a, HeaderBitCount + size);
    if |output| < HeaderBitCount + size {
      return Err(TooShort);
    }
    r := Ok(ChunkBytes(output[HeaderBitCount..]));
  }

  /** With the corrected decoder every payload comes back exactly, the empty one included. */
  lemma EncodeDecodeCorrected(xs: seq<int>, payload: seq<Byte>)
    requires HeaderBitCount + 8 * |payload| <= |xs|
    requires 8 * |payload| < Pow10(FieldWidth)
    ensures DecodeParitiesExact(ParityString(EmbedStream(xs, Stream(payload)))) == Ok(payload)
  {
    var n := 8 * |payload|;
    ReadBackStream(xs, payload);
    HeaderParses(n);
    ChunkBytesRoundTrip(payload);
    DecodeExactFramed(ParityString(EmbedStream(xs, Stream(payload))), HeaderBits(n), BitString(payload), SizeField(n));
  }

  /**
   * DecodeParitiesExact on parities that begin with a header `h` whose size
   * field parses to the length of the whole-byte body `t` that follows it: the
   * result is that body cut into bytes.
   */
  lemma DecodeExactFramed(bits: string, h: string, t: string, sizeBytes: seq<Byte>)
    requires |h| == HeaderBitCount && |t| % 8 == 0
    requires FromBitString(h[..SizeBitCount]) == Ok(sizeBytes)
    requires ParseInt(sizeBytes) == Ok(|t|)
    requires FromBitString(h[SizeBitCount..]).Ok? && IsUtf8(FromBitString(h[SizeBitCount..]).value)
    requires TakeBits(bits, |h + t|) == h + t
    ensures DecodeParitiesExact(bits) == Ok(ChunkBytes(t))
  {
    TakeBitsPrefix(bits, h, t);
    var full := TakeBits(bits, |h| + |t|);
    assert |full| == |h| + |t| <= |bits|;
    assert bits[HeaderBitCount..HeaderBitCount + |t|] == full[HeaderBitCount..] == t;
  }

  /**
   * The program's demonstration: encode a payload into an image with room for
   * it, then decode the image.
   */
  method EncodeThenDecode(payload: seq<Byte>, a: array3<int>) returns (r: Result<seq<Byte>>)
    requires HeaderBitCount + 8 * |payload| <= Count(a)
    requires 8 * |payload| < Pow10(FieldWidth)
    modifies a
    ensures r == if payload == [] then Err(NotBinary) else Ok(DropLeadingZeros(payload))
  {
    ghost var original := Samples(a);
    Encode(payload, a);
    r := Decode(a);
    EncodeDecode(original, payload);
  }

  /** The demonstration with the corrected decoder: every payload comes back exactly. */
  method EncodeThenDecodeExact(payload: seq<Byte>, a: array3<int>) returns (r: Result<seq<Byte>>)
    requires HeaderBitCount + 8 * |payload| <= Count(a)
    requires 8 * |payload| < Pow10(FieldWidth)
    modifies a
    ensures r == Ok(payload)
  {
    ghost var original := Samples(a);
    Encode(payload, a);
    r := DecodeExact(a);
    EncodeDecodeCorrected(original, payload);
  }
}
