/**
 * The 1024-bit header that `encode` puts in front of the payload bits: the
 * payload's bit count as a decimal ASCII string zero-padded on the left to 64
 * characters, then a constant options string space-padded on the right to 64
 * characters, both bit-encoded. `decode` reads the count back with int().
 */
module Header {
  import opened Results
  import opened BitCodec
  import opened Utf8

  /** Width in characters of each header field. */
  const FieldWidth: nat := 64
  /** Number of bits in the header: two fields of 64 bytes each. */
  const HeaderBitCount: nat := 1024
  /** Number of bits of the size field. */
  const SizeBitCount: nat := 512
  /** The placeholder text of the options field. */
  const OptionsText: string := "None Right Now Bucko"

  function Pow10(k: nat): (r: nat)
    ensures r >= 1
  {
    if k == 0 then 1 else 10 * Pow10(k - 1)
  }

  function DigitChar(d: nat): (c: char)
    requires d < 10
    ensures '0' <= c <= '9'
  {
    (48 + d) as char
  }

  /** str(n) for a non-negative n: its decimal digits, without leading zeros. */
  function DecimalString(n: nat): (r: string)
    ensures |r| >= 1
    ensures forall p :: 0 <= p < |r| ==> '0' <= r[p] <= '9'
    ensures r[0] == '0' ==> n == 0
  {
    if n < 10 then [DigitChar(n)] else DecimalString(n / 10) + [DigitChar(n % 10)]
  }

  /** The decimal form of n fits in k characters exactly when n < 10^k. */
  lemma {:induction false} DecimalFits(n: nat, k: nat)
    requires k >= 1
    ensures |DecimalString(n)| <= k <==> n < Pow10(k)
  {
    if n < 10 {
      Pow10AtLeastTen(k);
    } else if k > 1 {
      DecimalFits(n / 10, k - 1);
    }
  }

  lemma {:induction false} Pow10AtLeastTen(k: nat)
    requires k >= 1
    ensures Pow10(k) >= 10
  {
    if k > 1 {
      Pow10AtLeastTen(k - 1);
    }
  }

  /** s.rjust(width, fill): pads on the left and never truncates. */
  function RightJustify(s: string, width: nat, fill: char): (r: string)
    ensures |r| == if |s| < width then width else |s|
    ensures r[|r| - |s|..] == s
    ensures forall p :: 0 <= p < |r| - |s| ==> r[p] == fill
  {
    if |s| < width then seq(width - |s|, _ => fill) + s else s
  }

  /** s.ljust(width, fill): pads on the right and never truncates. */
  function LeftJustify(s: string, width: nat, fill: char): (r: string)
    ensures |r| == if |s| < width then width else |s|
    ensures r[..|s|] == s
    ensures forall p :: |s| <= p < |r| ==> r[p] == fill
  {
    if |s| < width then s + seq(width - |s|, _ => fill) else s
  }

  predicate IsAscii(s: string) {
    forall p :: 0 <= p < |s| ==> s[p] < 128 as char
  }

  /** str.encode() on ASCII text: one byte per character. */
  function Ascii(s: string): (r: seq<Byte>)
    requires IsAscii(s)
    ensures |r| == |s|
    ensures forall p :: 0 <= p < |r| ==> r[p] < 0x80 && r[p] as char == s[p]
  {
    seq(|s|, p requires 0 <= p < |s| => s[p] as int)
  }

  predicate IsDigit(x: Byte) { 48 <= x <= 57 }

  /** str(n).rjust(64, '0').encode(): the size field, all ASCII digits. */
  function SizeField(n: nat): (r: seq<Byte>)
    ensures |r| >= FieldWidth
    ensures forall p :: 0 <= p < |r| ==> IsDigit(r[p])
  {
    var s := RightJustify(DecimalString(n), FieldWidth, '0');
    assert forall p :: 0 <= p < |s| ==> '0' <= s[p] <= '9' by {
      var d := DecimalString(n);
      forall p | 0 <= p < |s| ensures '0' <= s[p] <= '9' {
        if p >= |s| - |d| {
          assert s[p] == s[|s| - |d|..][p - (|s| - |d|)];
        }
      }
    }
    Ascii(s)
  }

  /** "None Right Now Bucko".ljust(64, ' ').encode(): the options field. */
  function OptionsField(): (r: seq<Byte>)
    ensures |r| == FieldWidth && r[0] != 0
    ensures forall p :: 0 <= p < |r| ==> r[p] < 0x80
  {
    var s := LeftJustify(OptionsText, FieldWidth, ' ');
    assert s[0] == 'N' by {
      assert s[..|OptionsText|] == OptionsText;
    }
    Ascii(s)
  }

  /**
   * The header bits for a payload of n bits: the size field then the options
   * field, eight bits per byte, so 512 options bits follow the size bits.
   */
  function HeaderBits(n: nat): (r: string)
    ensures IsBinary(r) && |r| == 8 * |SizeField(n)| + SizeBitCount
  {
    BinaryConcat(BitString(SizeField(n)), BitString(OptionsField()));
    BitString(SizeField(n)) + BitString(OptionsField())
  }

  /** The whole bit stream `encode` writes: header, then the payload's bits. */
  function Stream(payload: seq<Byte>): (r: string)
    ensures IsBinary(r) && |r| == |HeaderBits(8 * |payload|)| + 8 * |payload|
  {
    var data := BitString(payload);
    BinaryConcat(HeaderBits(|data|), data);
    HeaderBits(|data|) + data
  }

  /**
   * The header is exactly 1024 bits, 512 per field, exactly when the bit count
   * has at most 64 decimal digits; rjust does not truncate a longer count.
   */
  lemma HeaderSize(n: nat)
    ensures |BitString(SizeField(n))| >= SizeBitCount
    ensures |BitString(OptionsField())| == SizeBitCount
    ensures |HeaderBits(n)| == HeaderBitCount <==> n < Pow10(FieldWidth)
  {
    DecimalFits(n, FieldWidth);
  }

  predicate IsSpace(x: Byte) { x == 32 || 9 <= x <= 13 }

  /** r sits at offset i of b, with only ASCII whitespace before and after it. */
  predicate SpaceFramed(b: seq<Byte>, r: seq<Byte>, i: int) {
    && 0 <= i <= |b| - |r|
    && b[i..i + |r|] == r
    && (forall p :: 0 <= p < i ==> IsSpace(b[p]))
    && (forall p :: i + |r| <= p < |b| ==> IsSpace(b[p]))
  }

  /** b.strip() of ASCII whitespace, as int() does before parsing. */
  function TrimSpaces(b: seq<Byte>): (r: seq<Byte>)
    ensures r == [] || (!IsSpace(r[0]) && !IsSpace(r[|r| - 1]))
    ensures exists i :: SpaceFramed(b, r, i)
    decreases |b|
  {
    if b == [] then
      assert SpaceFramed(b, [], 0);
      []
    else if IsSpace(b[0]) then
      var r := TrimSpaces(b[1..]);
      FramedAfterSpace(b, b[1..], r);
      r
    else if IsSpace(b[|b| - 1]) then
      var r := TrimSpaces(b[..|b| - 1]);
      FramedBeforeSpace(b, b[..|b| - 1], r);
      r
    else
      assert SpaceFramed(b, b, 0);
      b
  }

  /** Framing survives a leading space before the trimmed text c. */
  lemma FramedAfterSpace(b: seq<Byte>, c: seq<Byte>, r: seq<Byte>)
    requires b != [] && IsSpace(b[0]) && c == b[1..] && exists i :: SpaceFramed(c, r, i)
    ensures exists i :: SpaceFramed(b, r, i)
  {
    var i :| SpaceFramed(c, r, i);
    assert b[i + 1..i + 1 + |r|] == c[i..i + |r|];
    assert SpaceFramed(b, r, i + 1);
  }

  /** Framing survives a trailing space after the trimmed text c. */
  lemma FramedBeforeSpace(b: seq<Byte>, c: seq<Byte>, r: seq<Byte>)
    requires b != [] && IsSpace(b[|b| - 1]) && c == b[..|b| - 1] && exists i :: SpaceFramed(c, r, i)
    ensures exists i :: SpaceFramed(b, r, i)
  {
    var i :| SpaceFramed(c, r, i);
    assert b[i..i + |r|] == c[i..i + |r|];
    assert SpaceFramed(b, r, i);
  }

  /** Digits, with single underscores allowed between two digits. */
  predicate IsDigitRun(t: seq<Byte>)
    ensures |t| > 0 && (forall p :: 0 <= p < |t| ==> IsDigit(t[p])) ==> IsDigitRun(t)
    ensures IsDigitRun(t) ==> |t| > 0 && t[0] != 95 && t[|t| - 1] != 95
    ensures IsDigitRun(t) ==> forall p :: 0 <= p < |t| - 1 && t[p] == 95 ==> t[p + 1] != 95
  {
    && |t| > 0
    && IsDigit(t[0])
    && IsDigit(t[|t| - 1])
    && forall p :: 0 <= p < |t| ==> IsDigit(t[p]) || (t[p] == 95 && p + 1 < |t| && IsDigit(t[p + 1]))
  }

  /** The decimal value of the digits of t, skipping underscores. */
  function DigitsValue(t: seq<Byte>): (r: nat)
    ensures r < Pow10(|t|)
  {
    if t == [] then 0
    else if t[|t| - 1] == 95 then DigitsValue(t[..|t| - 1])
    else 10 * DigitsValue(t[..|t| - 1]) + (if IsDigit(t[|t| - 1]) then t[|t| - 1] - 48 else 0)
  }

  /**
   * int(b) on bytes: surrounding ASCII whitespace, an optional sign, then
   * base-10 digits with single underscores between them; anything else fails.
   */
  function ParseInt(b: seq<Byte>): (r: Result<int>)
    ensures TrimSpaces(b) == [] ==> r == Err(NotDecimal)
    ensures b != [] && (forall p :: 0 <= p < |b| ==> IsDigit(b[p])) ==> r == Ok(DigitsValue(b))
  {
    var t := TrimSpaces(b);
    if t != [] && (t[0] == 43 || t[0] == 45) then
      if IsDigitRun(t[1..]) then
        var v: int := DigitsValue(t[1..]);
        Ok(if t[0] == 45 then -v else v)
      else Err(NotDecimal)
    else if IsDigitRun(t) then Ok(DigitsValue(t))
    else Err(NotDecimal)
  }

  lemma {:induction false} ZerosValue(z: seq<Byte>)
    requires forall p :: 0 <= p < |z| ==> z[p] == 48
    ensures DigitsValue(z) == 0
  {
    if z != [] {
      ZerosValue(z[..|z| - 1]);
    }
  }

  /** Leading '0' characters do not change the value int() reads. */
  lemma {:induction false} LeadingZerosValue(z: seq<Byte>, t: seq<Byte>)
    requires forall p :: 0 <= p < |z| ==> z[p] == 48
    ensures DigitsValue(z + t) == DigitsValue(t)
  {
    if t == [] {
      assert z + t == z;
      ZerosValue(z);
    } else {
      assert (z + t)[..|z + t| - 1] == z + t[..|t| - 1];
      LeadingZerosValue(z, t[..|t| - 1]);
    }
  }

  /** int(str(n)) == n */
  lemma {:induction false} DecimalValue(n: nat)
    ensures DigitsValue(Ascii(DecimalString(n))) == n
  {
    if n >= 10 {
      DecimalValue(n / 10);
      var a := Ascii(DecimalString(n));
      assert a[..|a| - 1] == Ascii(DecimalString(n / 10));
    }
  }

  /** int() reads the zero-padded size field back as the bit count it was made from. */
  lemma SizeFieldParses(n: nat)
    ensures ParseInt(SizeField(n)) == Ok(n)
  {
    var d := DecimalString(n);
    var s := RightJustify(d, FieldWidth, '0');
    var k := |s| - |d|;
    var zeros := s[..k];
    assert s == zeros + d by {
      assert s[k..] == d;
    }
    assert IsAscii(zeros) && IsAscii(d);
    AsciiConcat(zeros, d);
    LeadingZerosValue(Ascii(zeros), Ascii(d));
    DecimalValue(n);
  }

  lemma AsciiConcat(x: string, y: string)
    requires IsAscii(x) && IsAscii(y)
    ensures IsAscii(x + y) && Ascii(x + y) == Ascii(x) + Ascii(y)
  {
    assert forall p :: 0 <= p < |x + y| ==> (x + y)[p] == if p < |x| then x[p] else y[p - |x|];
  }

  /**
   * `decode` reads the header back: bin2byte of the first 512 bits gives the
   * size field (its first byte is an ASCII digit, never 0x00), int() of that
   * gives the bit count, and bin2byte of the last 512 bits gives the options.
   */
  lemma HeaderParses(n: nat)
    requires n < Pow10(FieldWidth)
    ensures |HeaderBits(n)| == HeaderBitCount
    ensures FromBitString(HeaderBits(n)[..SizeBitCount]) == Ok(SizeField(n))
    ensures ParseInt(SizeField(n)) == Ok(n)
    ensures FromBitString(HeaderBits(n)[SizeBitCount..]) == Ok(OptionsField())
    ensures IsUtf8(OptionsField())
  {
    HeaderSize(n);
    var size, options := BitString(SizeField(n)), BitString(OptionsField());
    assert HeaderBits(n) == size + options;
    assert |size| == SizeBitCount;
    SplitAt(size, options);
    BitCodecExact(SizeField(n));
    assert FromBitString(size) == Ok(SizeField(n));
    BitCodecExact(OptionsField());
    assert FromBitString(options) == Ok(OptionsField());
    SizeFieldParses(n);
    AsciiIsUtf8(OptionsField());
  }
}
