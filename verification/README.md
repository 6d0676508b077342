# HideInPix in Dafny

HideInPix hides a byte payload in the least-significant bits of an image's
channel samples and reads it back. This project models the codec of
`HideInPix.py`:

- `byte2bin` and `bin2byte`, the bit codec between bytes and strings of
  '0'/'1';
- the header `encode` builds: the payload's bit count as 64 zero-padded decimal
  digits, then a 64-character options field, each turned into 512 bits;
- the embedding loop of `encode`, which forces the parity of every sample, in
  row-major then channel order, to the next stream bit, in place;
- `imread`, which collects sample parities in the same order;
- the header parse and payload recovery of `decode`.

The decoded image is an `array3<int>` (rows × columns × channels). `Image.Samples`
is its samples in walk order. The methods that loop over the image
(`Stego.EmbedBits`, `Stego.ReadBits`) and over bits and bytes
(`BitCodec.ByteToBin`, `BitCodec.BinToByte`) are proved equal to functions on
sequences. The round-trip properties are proved about those functions:
`Lsb.EmbedStream`, `Lsb.ParityString`, `Lsb.TakeBits`, `BitCodec.BitString`,
`BitCodec.FromBitString`, `Stego.DecodeParities`.

Modules:

- `Results` (results.dfy) holds the error results. `NotBinary`, `NotDecimal`
  and `NotUtf8` each stand for an exception the program raises. `BadLength`
  and `TooShort` are returned only by the corrected decoder (see
  "## Findings"); the program raises neither.
- `BitCodec` (bitcodec.dfy) is `byte2bin`, `bin2byte` and Python's `int(s, 2)`.
- `Utf8` (utf8.dfy) is the well-formedness check `bytes.decode()` makes. It
  follows Table 3-7 of the Unicode Standard.
- `Header` (header.dfy) has the size and options fields, the stream, and
  Python's `int(bytes)`.
- `Lsb` (lsb.dfy) covers one sample's parity and the embedded and extracted
  streams.
- `Image` (image.dfy) fixes the walk order over the 3-D array.
- `Stego` (stego.dfy) is `encode`, `decode` and `imread`, with the round
  trips.

The model follows `HideInPix.py` as written:

- an image that is too small silently drops the rest of the stream;
- `decode` loses leading zero bytes;
- `decode` fails on the empty payload (see "## Findings").

## Model

| member | source | states |
|---|---|---|
| BitCodec.ByteBits | HideInPix.py:16 | the eight characters are binary digits whose big-endian value is the byte |
| BitCodec.BitString | HideInPix.py:13-18 | the bit string of b has exactly 8·\|b\| characters, all '0' or '1' |
| BitCodec.BitStringChunk | HideInPix.py:15-16 | characters 8i..8i+7 of the bit string are the most-significant-first binary form of byte i |
| BitCodec.ByteToBin | HideInPix.py:3-18 | the loop that appends each byte's eight bits returns exactly the bit string of the input |
| BitCodec.BinValue | HideInPix.py:31 | the value int(s, 2) reads from |s| binary digits is below 2^\|s\| |
| BitCodec.BinaryDigitsValue | HideInPix.py:16 | the w-digit binary form of v < 2^w reads back as v |
| BitCodec.MinimalBytes | HideInPix.py:32-38 | the bytes have big-endian value v, are empty exactly when v is 0 and never start with 0x00 |
| BitCodec.Reversed | HideInPix.py:38 | element i of b[::-1] is element \|b\|-1-i of b |
| BitCodec.FromBitString | HideInPix.py:31-38 | bin2byte succeeds exactly on a non-empty all-binary string; the bytes then have the string's value, no leading 0x00, and are empty exactly when every digit is '0' |
| BitCodec.ZeroValue | HideInPix.py:34 | a binary string has value 0 exactly when all its digits are '0' |
| BitCodec.BinToByte | HideInPix.py:20-38 | the shift-and-append loop followed by reversal returns exactly FromBitString, the error included |
| BitCodec.BinValueConcat | HideInPix.py:31 | the value of s + t is value(s)·2^\|t\| + value(t) |
| BitCodec.BitStringValue | HideInPix.py:13-18 | the value of byte2bin(b) is the big-endian value of b |
| BitCodec.DropLeadingZeros | HideInPix.py:34-38 | the result is a suffix of b with no leading 0x00 |
| BitCodec.BytesValueDropZeros | HideInPix.py:34-38 | leading zero bytes do not change the big-endian value |
| BitCodec.MinimalOfValue | HideInPix.py:32-38 | bytes without a leading 0x00 are the minimal bytes of their own value |
| BitCodec.BitCodecRoundTrip | HideInPix.py:13-38 | bin2byte(byte2bin(b)) is b without its leading zero bytes for non-empty b, and fails for empty b |
| BitCodec.BitCodecExact | HideInPix.py:13-38 | bin2byte(byte2bin(b)) == b for non-empty b whose first byte is not 0x00 |
| BitCodec.ChunkBytes | HideInPix.py:152 | eight bits per byte: a string of 8k bits gives k bytes |
| BitCodec.ChunkBytesInverse | HideInPix.py:152 | byte2bin of the chunked bytes is the original binary string |
| BitCodec.ChunkBytesRoundTrip | HideInPix.py:13-18 | chunking byte2bin(b) gives b back, leading zero bytes and the empty b included |
| Utf8.LeadLength | HideInPix.py:142 | a well-formed sequence has 1 to 4 bytes, is one byte exactly for an ASCII lead byte, and is otherwise a lead byte 0xC2..0xF4 followed by continuation bytes |
| Utf8.AsciiIsUtf8 | HideInPix.py:142 | bytes below 0x80 always decode |
| Utf8.ContinuationFirstRejected | HideInPix.py:142 | bytes starting with a continuation byte never decode |
| Header.DecimalString | HideInPix.py:60 | str(n) is a non-empty run of decimal digits, and starts with '0' only for n = 0 |
| Header.DecimalFits | HideInPix.py:60 | str(n) fits in k characters exactly when n < 10^k |
| Header.RightJustify | HideInPix.py:60 | rjust gives max(width, \|s\|) characters: fill characters, then s unchanged, never truncated |
| Header.LeftJustify | HideInPix.py:66 | ljust gives max(width, \|s\|) characters: s unchanged, then fill characters, never truncated |
| Header.Ascii | HideInPix.py:60-66 | encode() on ASCII text gives one byte per character, each below 0x80 and equal to the character's code |
| Header.SizeField | HideInPix.py:60 | the size field has at least 64 bytes, all ASCII digits |
| Header.OptionsField | HideInPix.py:66 | the options field has exactly 64 ASCII bytes and starts with a non-zero byte |
| Header.HeaderSize | HideInPix.py:60-70 | the options bits are 512; the size bits are at least 512; the header is exactly 1024 bits exactly when the bit count is below 10^64 |
| Header.HeaderBits | HideInPix.py:60-68 | the header is all '0'/'1': eight bits per size-field byte, then 512 options bits; HeaderParses reads the count and options back |
| Header.Stream | HideInPix.py:70 | size + options + data is all '0'/'1' and is the header followed by 8·\|payload\| data bits; ReadBackStream and StreamDecodes recover it |
| Header.TrimSpaces | HideInPix.py:140 | the result is b with only leading and trailing ASCII whitespace removed: it sits in b with only whitespace before and after it, and neither of its ends is whitespace |
| Header.IsDigitRun | HideInPix.py:140 | every non-empty all-digit field is accepted; an accepted run neither starts nor ends with '_' and never has two '_' in a row |
| Header.DigitsValue | HideInPix.py:140 | the value of \|t\| digits is below 10^\|t\|; DecimalValue shows it reads str(n) as n |
| Header.ParseInt | HideInPix.py:140 | int() fails on bytes that are empty after stripping, and reads an all-digit field as its decimal value |
| Header.ZerosValue | HideInPix.py:140 | a run of '0' digits reads as 0 |
| Header.LeadingZerosValue | HideInPix.py:140 | leading '0' digits do not change the value int() reads |
| Header.DecimalValue | HideInPix.py:60 | int(str(n)) == n |
| Header.SizeFieldParses | HideInPix.py:60 | int() of the zero-padded size field is the bit count it was built from |
| Header.HeaderParses | HideInPix.py:137-142 | for a count below 10^64 the header is 1024 bits; bin2byte of its first half is the size field and int() of that is the count; bin2byte of its second half is the options field, which decodes as UTF-8 |
| Lsb.ParityChar | HideInPix.py:173 | the character a sample yields is '0' or '1' |
| Lsb.EmbedBit | HideInPix.py:92-105 | after writing bit c the sample's parity is c; a sample that already has it is unchanged; it changes by at most 1 and stays in 0..255 (0 with '1' becomes 1) |
| Lsb.EmbedStream | HideInPix.py:84-112 | sample p carries stream bit p, samples past the stream are unchanged, each moves by at most 1, and values stay in 0..255 |
| Lsb.ParityString | HideInPix.py:168-173 | one binary character per sample |
| Lsb.TakeBits | HideInPix.py:165-180 | imread returns the first min(max(length, 1), sample count) parities: one bit even for length 0 |
| Lsb.TakeBitsPrefix | HideInPix.py:175 | a shorter read is a prefix of a longer one |
| Lsb.ExtraBitsDropped | HideInPix.py:84-112 | stream bits beyond the last sample have no effect |
| Lsb.EmbedOneMore | HideInPix.py:90-108 | writing bit d after the first d changes only sample d, from its original value |
| Lsb.ReadBackAfterEmbed | HideInPix.py:165-180 | reading back as many bits as were embedded, from an image that holds them, returns the stream |
| Image.Index | HideInPix.py:84-88 | an in-bounds sample's position in the row-major, then channel, walk lies below the sample count; CellOfIndex shows no two samples share one |
| Image.Cell | HideInPix.py:84-88 | every walk position p below the sample count names an in-bounds sample whose position is p |
| Image.CellOfIndex | HideInPix.py:84-88 | every sample has a position below the sample count, and Cell finds the sample back |
| Image.Samples | HideInPix.py:84-88 | the walk visits exactly rows·columns·channels samples |
| Image.SampleAt | HideInPix.py:84-88 | sample [i][j][k] is at position i·W·C + j·C + k of the walk |
| Image.SamplesUpdated | HideInPix.py:98-105 | when every array cell other than [i][j][k] still holds what `before` has at its position, the walk is `before` with position Index(i, j, k) set to the cell's new value: one write changes one walk position |
| Stego.WriteParity | HideInPix.py:92-105 | the loop body sets one sample to EmbedBit of its old value and leaves every other sample alone |
| Stego.EmbedBits | HideInPix.py:78-114 | the triple loop leaves the samples equal to EmbedStream of the old samples, with no error when the stream outruns the image |
| Stego.Encode | HideInPix.py:58-72 | encode writes exactly the stream size + options + data into the samples |
| Stego.ReadBits | HideInPix.py:156-180 | imread returns TakeBits of the sample parities and does not modify the image |
| Stego.DecodeParities | HideInPix.py:137-154 | a successful decode needs more than 1024 parities and never returns bytes with a leading 0x00 |
| Stego.Decode | HideInPix.py:137-154 | decode returns exactly DecodeParities of the image's parities, each error included |
| Stego.ReadBackStream | HideInPix.py:165-180 | reading 1024 + 8·\|payload\| bits from an encoded image returns the header followed by byte2bin(payload) |
| Stego.DecodeFramed | HideInPix.py:137-152 | after a header whose size field parses to the body length, decode returns bin2byte of the body |
| Stego.StreamDecodes | HideInPix.py:137-154 | decoding an encoded image returns bin2byte(byte2bin(payload)) |
| Stego.EncodeDecode | HideInPix.py:137-154 | decoding an encoded image returns the payload without leading zero bytes, or fails for the empty payload |
| Stego.EncodeDecodeExact | HideInPix.py:152 | a payload whose first byte is not 0x00 comes back exactly |
| Stego.LeadingZeroByteLost | HideInPix.py:152 | a payload starting with 0x00 never comes back |
| Stego.EmptyPayloadRejected | HideInPix.py:152 | the empty payload fails to decode |
| Stego.DecodeParitiesExact | HideInPix.py:147-152 | the corrected decoder's payload fits in the parities after the header |
| Stego.DecodeExactFramed | HideInPix.py:147-152 | after a header whose size field parses to a whole-byte body length, the corrected decoder returns that body cut into bytes |
| Stego.EncodeDecodeCorrected | HideInPix.py:147-152 | the corrected decoder returns every encoded payload exactly, the empty one included |
| Stego.DecodeExact | HideInPix.py:137-154 | the corrected decode method returns exactly DecodeParitiesExact of the image's parities |
| Stego.EncodeThenDecode | HideInPix.py:183-187 | encode then decode on an image with room returns the payload without leading zero bytes, or fails for the empty payload |
| Stego.EncodeThenDecodeExact | HideInPix.py:183-187 | encode then the corrected decode returns the payload exactly |

## Left out

- Image file I/O through Keras (`load_img`, `img_to_array`, `array_to_img`,
  `save_img`). The model takes and changes the decoded `array3<int>` directly.
- The float samples `img_to_array` produces, and `int(k % 2)` on floats.
  Samples are integers.
- Progress and options printing, which is console output only.
- The text that `.decode()` returns for the options field. Only the
  UTF-8 check that can raise is modelled; the text is never used.
- `StopIteration` is an early `return` from the loops, not an exception.
- BitCodec.FromBitString: models `int(s, 2)` only on strings of '0' and '1'.
  Python also accepts a `0b` prefix, a sign, underscores and surrounding
  whitespace, but `imread` only produces '0' and '1'.
- Stego.DecodeParities: the size parsed from the header is an unbounded
  integer. A size too large for memory, which would make Python fail, is not
  modelled.

## Findings

| source | as written | input that shows it | evidently intended | confidence | as-written member | corrected member |
|---|---|---|---|---|---|---|
| HideInPix.py:152 | `bin2byte(output[1024:])` reads the payload bits as one integer and returns its minimal bytes, although the header gives their exact count | payload b'\x00H' decodes as b'H'; the empty payload b'' makes `int('', 2)` raise | decode returns exactly the payload that was encoded | not executed | Stego.LeadingZeroByteLost | Stego.EncodeDecodeCorrected |
