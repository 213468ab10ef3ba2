/** Signed integers in big-endian two's-complement form, as ASN.1 INTEGER contents
    carry them (utilDecodeTC / utilEncodeTC). */
module TwosComplement {
  import opened Buffers
  import opened Radix

  /** The warning utilDecodeTC records for a redundant leading byte. */
  const NeedlesslyLongWarning := "Needlessly long format"

  /** b & 0x80: the sign bit of a byte, kept in place. */
  function TopBit(b: byte): (t: byte)
    ensures t == 0 || t == 0x80
    ensures t == 0x80 <==> b >= 0x80
  {
    if b >= 0x80 then 0x80 else 0
  }

  /** b & 0x7F: the byte without its sign bit. */
  function LowBits(b: byte): (l: byte)
    ensures l < 0x80 && TopBit(b) + l == b
  {
    b % 0x80
  }

  /** b | 0x80: the byte with its sign bit set. */
  function SetTopBit(b: byte): (s: byte)
    ensures s >= 0x80 && LowBits(s) == LowBits(b)
  {
    if b >= 0x80 then b else b + 0x80
  }

  /** The integer a two's-complement byte string stands for: its unsigned value,
      less 2^(8·N) when the sign bit of the first byte is set. The empty string
      stands for 0. */
  function SignedValue(b: seq<byte>): int
  {
    if |b| == 0 then 0
    else if b[0] >= 0x80 then Magnitude(b, 8) - Pow2(8 * |b|)
    else Magnitude(b, 8)
  }

  /** v lies in the range of an n-byte two's-complement integer. */
  predicate FitsSigned(v: int, n: nat)
  {
    n >= 1 && -(Pow2(8 * n - 1) as int) <= v < Pow2(8 * n - 1)
  }

  /** The redundant leading bytes utilDecodeTC warns about: 0xFF before a byte
      with its sign bit set, or 0x00 before one with its sign bit clear. */
  predicate NeedlesslyLong(b: seq<byte>)
  {
    |b| >= 2 && ((b[0] == 0xFF && b[1] >= 0x80) || (b[0] == 0x00 && b[1] < 0x80))
  }

  /** What utilEncodeTC promises: no bytes for a value beyond ±2^55, otherwise
      the shortest two's-complement string that stands for the value. */
  predicate IsEncodeTCResult(value: int, r: seq<byte>)
  {
    if value < -(Pow2(55) as int) || Pow2(55) < value then r == []
    else |r| >= 1 && SignedValue(r) == value && (|r| == 1 || !FitsSigned(value, |r| - 1))
  }

  lemma ByteWeights()
    ensures Pow2(7) == 128 && Pow2(8) == 256
  {
    assert Pow2(2) == 4;
    assert Pow2(4) == 16;
    assert Pow2(6) == 64;
  }

  lemma Weights(n: nat)
    requires n >= 1
    ensures Pow2(8 * n - 1) == 128 * Pow2(8 * (n - 1))
    ensures Pow2(8 * n) == 256 * Pow2(8 * (n - 1))
  {
    ByteWeights();
    assert 8 * n - 1 == 7 + 8 * (n - 1);
    Pow2Add(7, 8 * (n - 1));
    Pow2Add(8, 8 * (n - 1));
  }

  lemma BytesBelow(s: seq<byte>)
    ensures DigitsBelow(s, 8)
  {
    ByteWeights();
  }

  /** The first byte weighs 2^(8·(N−1)) and the rest stays below that weight. */
  lemma LeadSplit(s: seq<byte>)
    requires |s| >= 1
    ensures Magnitude(s, 8) == s[0] * Pow2(8 * (|s| - 1)) + Magnitude(s[1..], 8)
    ensures Magnitude(s[1..], 8) < Pow2(8 * (|s| - 1))
  {
    BytesBelow(s[1..]);
    MagnitudeBound(s[1..], 8);
  }

  /** The sign bit of the first byte is set exactly when the unsigned value
      reaches 2^(8·N−1). */
  lemma TopBitIffLarge(s: seq<byte>)
    requires |s| >= 1
    ensures s[0] >= 0x80 <==> Magnitude(s, 8) >= Pow2(8 * |s| - 1)
  {
    var p := Pow2(8 * (|s| - 1));
    LeadSplit(s);
    Weights(|s|);
    if s[0] >= 0x80 {
      MulMonotone(128, s[0], p);
    } else {
      MulBound(s[0], Magnitude(s[1..], 8), p, 128);
    }
  }

  /** An N-byte string stands for a value in the N-byte range, negative exactly
      when its sign bit is set. */
  lemma SignedValueRange(b: seq<byte>)
    requires |b| >= 1
    ensures FitsSigned(SignedValue(b), |b|)
    ensures SignedValue(b) < 0 <==> b[0] >= 0x80
  {
    TopBitIffLarge(b);
    BytesBelow(b);
    MagnitudeBound(b, 8);
    Weights(|b|);
  }

  /** A wider range holds every narrower one. */
  lemma FitsSignedMonotone(v: int, m: nat, n: nat)
    requires m <= n && FitsSigned(v, m)
    ensures FitsSigned(v, n)
  {
    Pow2Monotone(8 * m - 1, 8 * n - 1);
  }

  /** Two strings of one length that stand for the same value are equal. */
  lemma SignedInjective(a: seq<byte>, b: seq<byte>)
    requires |a| == |b| >= 1 && SignedValue(a) == SignedValue(b)
    ensures a == b
  {
    SignedValueRange(a);
    SignedValueRange(b);
    BytesBelow(a);
    BytesBelow(b);
    MagnitudeInjective(a, b, 8);
  }

  /** The signed value split at the first byte. */
  lemma SignedLead(b: seq<byte>)
    requires |b| >= 1
    ensures var p := Pow2(8 * (|b| - 1));
            SignedValue(b) == b[0] * p + Magnitude(b[1..], 8) - (if b[0] >= 0x80 then 256 * p else 0)
  {
    LeadSplit(b);
    Weights(|b|);
  }

  /** utilDecodeTC's warning fires exactly when the value would fit in one byte
      less: the leading byte carries nothing but sign. */
  lemma NeedlesslyLongIff(b: seq<byte>)
    requires |b| >= 2
    ensures NeedlesslyLong(b) <==> FitsSigned(SignedValue(b), |b| - 1)
  {
    var n := |b|;
    var rest := b[1..];
    var p: int := Pow2(8 * (n - 1));
    var m := Magnitude(rest, 8);
    SignedLead(b);
    assert m < p && (b[1] >= 0x80 <==> 2 * m >= p) by {
      LeadSplit(b);
      Weights(n - 1);
      TopBitIffLarge(rest);
      assert rest[0] == b[1];
    }
    assert FitsSigned(SignedValue(b), n - 1) <==> -p <= 2 * SignedValue(b) < p by {
      Weights(n - 1);
    }
    if b[0] < 0x80 && b[0] != 0 {
      MulMonotone(1, b[0], p);
    } else if b[0] >= 0x80 && b[0] != 0xFF {
      MulMonotone(b[0], 254, p);
    }
  }

  /** The two halves utilDecodeTC builds, the sign bit alone and the rest with
      the sign bit cleared, differ by the signed value. */
  lemma DecodeParts(b: seq<byte>, big: seq<byte>, small: seq<byte>)
    requires |b| >= 1 && |big| == |small| == |b|
    requires big[0] == TopBit(b[0]) && forall k :: 1 <= k < |big| ==> big[k] == 0
    requires small[0] == LowBits(b[0]) && small[1..] == b[1..]
    ensures Magnitude(small, 8) - Magnitude(big, 8) == SignedValue(b)
  {
    var n := |b|;
    var p := Pow2(8 * (n - 1));
    LeadSplit(b);
    LeadSplit(big);
    LeadSplit(small);
    ZerosMagnitude(big[1..], 8);
    Weights(n);
    Distribute(TopBit(b[0]), LowBits(b[0]), p);
  }

  /** The two views utilDecodeTC fills: `big` holds the sign bit of the first
      byte and zeros, `small` the bytes with that sign bit cleared. */
  method SignParts(buf: seq<byte>) returns (big: seq<byte>, small: seq<byte>)
    ensures |big| == |small| == |buf|
    ensures forall k :: 1 <= k < |big| ==> big[k] == 0
    ensures |buf| >= 1 ==> big[0] == TopBit(buf[0]) && small[0] == LowBits(buf[0]) && small[1..] == buf[1..]
  {
    var n := |buf|;
    var bigIntView := new byte[n];
    for i := 0 to n
      modifies bigIntView
      invariant forall k :: 0 <= k < i ==> bigIntView[k] == 0
    {
      bigIntView[i] := 0;
    }
    // A store at index 0 of an empty Uint8Array is dropped.
    if n > 0 {
      bigIntView[0] := TopBit(buf[0]);
    }

    var smallIntView := new byte[n];
    for j := 0 to n
      modifies smallIntView
      invariant smallIntView[..j] == buf[..j]
    {
      smallIntView[j] := buf[j];
    }
    if n > 0 {
      smallIntView[0] := LowBits(smallIntView[0]);
    }
    big, small := bigIntView[..], smallIntView[..];
  }

  /** A HexBlock of the ASN.1 layer: the raw value bytes and the warnings
      collected while decoding them. */
  class HexBlock {
    var valueHex: seq<byte>
    var warnings: seq<string>

    constructor (valueHex: seq<byte>)
      ensures this.valueHex == valueHex && warnings == []
    {
      this.valueHex := valueHex;
      warnings := [];
    }

    /** utilDecodeTC: warn about a redundant leading byte, then subtract the
        value of the sign bit alone from the value of the other bits. */
    method DecodeTC() returns (r: int)
      modifies this`warnings
      ensures r == SignedValue(valueHex)
      ensures warnings == old(warnings) + (if NeedlesslyLong(valueHex) then [NeedlesslyLongWarning] else [])
    {
      var buf := valueHex;
      var n := |buf|;
      if n >= 2 {
        var condition1 := buf[0] == 0xFF && TopBit(buf[1]) != 0;
        var condition2 := buf[0] == 0x00 && TopBit(buf[1]) == 0;
        if condition1 || condition2 {
          warnings := warnings + [NeedlesslyLongWarning];
        }
      }

      var bigIntView, smallIntView := SignParts(buf);
      var bigInt: int := FromBase(bigIntView, 8);
      var smallInt: int := FromBase(smallIntView, 8);
      r := smallInt - bigInt;
      if n > 0 {
        DecodeParts(buf, bigIntView, smallIntView);
      }
    }
  }

  /** utilToBase(v, 8, i) for v < 2^(8·i) gives exactly i bytes worth v. */
  lemma ToBaseBytes(v: nat, i: nat, r: seq<byte>)
    requires 1 <= i < 8 && v <= Pow2(8 * i - 1) && IsToBaseResult(v, 8, i, r)
    ensures |r| == i && Magnitude(r, 8) == v
  {
    Pow2Monotone(8 * i - 1, 8 * i);
    assert Fits(v, 8, i);
  }

  /** Setting the clear sign bit of a string worth m < 2^(8·N−1) makes it stand
      for m − 2^(8·N−1). */
  lemma SetSignBit(r: seq<byte>, m: nat)
    requires |r| >= 1 && Magnitude(r, 8) == m < Pow2(8 * |r| - 1)
    ensures SignedValue(r[0 := SetTopBit(r[0])]) == m - Pow2(8 * |r| - 1)
  {
    TopBitIffLarge(r);
    SetTopBitMagnitude(r, Pow2(8 * (|r| - 1)));
    Weights(|r|);
  }

  /** Setting a clear sign bit adds 128 times the weight of the first byte. */
  lemma SetTopBitMagnitude(r: seq<byte>, p: nat)
    requires |r| >= 1 && r[0] < 0x80 && p == Pow2(8 * (|r| - 1))
    ensures Magnitude(r[0 := SetTopBit(r[0])], 8) == Magnitude(r, 8) + 128 * p
  {
    var s := r[0 := SetTopBit(r[0])];
    assert s[1..] == r[1..];
    LeadSplit(r);
    LeadSplit(s);
    Distribute(r[0], 128, p);
  }

  lemma Distribute(a: int, b: int, p: int)
    ensures (a + b) * p == a * p + b * p
  {
  }

  /** A zero byte in front does not change the value of a string whose sign bit
      is set, and clears the sign. */
  lemma PrependZero(r: seq<byte>)
    requires |r| >= 1
    ensures SignedValue([0] + r) == Magnitude(r, 8)
  {
    MagnitudeLeadingZeros([0], r, 8);
  }

  /** The negative branch of utilEncodeTC at width i: the i bytes of
      2^(8·i−1) + value with the sign bit set are the shortest encoding. */
  lemma NegativeBranch(value: int, i: nat, retBuf: seq<byte>)
    requires 1 <= i < 8 && value < 0 && -value <= Pow2(8 * i - 1)
    requires i == 1 || -value > Pow2(8 * (i - 1) - 1)
    requires |retBuf| == i && Magnitude(retBuf, 8) == Pow2(8 * i - 1) + value
    ensures IsEncodeTCResult(value, retBuf[0 := SetTopBit(retBuf[0])])
  {
    var r := retBuf[0 := SetTopBit(retBuf[0])];
    assert SignedValue(r) == value by {
      SetSignBit(retBuf, Pow2(8 * i - 1) + value);
    }
    assert -(Pow2(55) as int) <= value by {
      Pow2Monotone(8 * i - 1, 55);
    }
  }

  /** The non-negative branch of utilEncodeTC at width i: the i bytes of the
      value, behind a zero byte when their sign bit is set, are the shortest
      encoding. */
  lemma NonNegativeBranch(value: nat, i: nat, retBuf: seq<byte>)
    requires 1 <= i < 8 && value <= Pow2(8 * i - 1)
    requires i == 1 || value > Pow2(8 * (i - 1) - 1)
    requires |retBuf| == i && Magnitude(retBuf, 8) == value
    ensures TopBit(retBuf[0]) != 0 ==> IsEncodeTCResult(value, [0] + retBuf)
    ensures TopBit(retBuf[0]) == 0 ==> IsEncodeTCResult(value, retBuf)
  {
    assert value <= Pow2(55) by {
      Pow2Monotone(8 * i - 1, 55);
    }
    assert TopBit(retBuf[0]) != 0 <==> value >= Pow2(8 * i - 1) by {
      TopBitIffLarge(retBuf);
    }
    if TopBit(retBuf[0]) != 0 {
      var r := [0] + retBuf;
      assert SignedValue(r) == value by {
        PrependZero(retBuf);
      }
      assert |r| - 1 == i && !FitsSigned(value, i);
    } else {
      assert SignedValue(retBuf) == value;
      assert i == 1 || !FitsSigned(value, i - 1);
    }
  }

  lemma NextSignWeight(i: nat)
    requires i >= 1
    ensures Pow2(8 * (i + 1) - 1) == Pow2(8 * i - 1) * 256
  {
    ByteWeights();
    Pow2Add(8 * i - 1, 8);
  }

  /** The widening step of utilEncodeTC: copy the bytes one place to the right
      into a buffer one byte longer and put 0x00 in front. */
  method WithLeadingZero(tempBuf: seq<byte>) returns (r: seq<byte>)
    ensures r == [0] + tempBuf
  {
    var retView := new byte[|tempBuf| + 1];
    for k := 0 to |tempBuf|
      invariant retView[1..k + 1] == tempBuf[..k]
    {
      retView[k + 1] := tempBuf[k];
    }
    retView[0] := 0x00;
    r := retView[..];
    assert r[1..] == tempBuf;
  }

  /** utilEncodeTC: for widths i = 1..7 compare |value| with 2^(8·i−1); at the
      first that holds, write 2^(8·i−1) − |value| with the sign bit set for a
      negative value, or |value| (with a zero byte in front when its own sign
      bit would be set) for a non-negative one. */
  method EncodeTC(value: int) returns (r: seq<byte>)
    ensures IsEncodeTCResult(value, r)
  {
    var modValue: nat := if value < 0 then value * -1 else value;
    var bigInt: nat := 128;
    ByteWeights();
    for i := 1 to 8
      invariant bigInt == Pow2(8 * i - 1)
      invariant i > 1 ==> modValue > Pow2(8 * (i - 1) - 1)
    {
      if modValue <= bigInt {
        if value < 0 {
          var smallInt: nat := bigInt - modValue;
          var retBuf := ToBase(smallInt, 8, i);
          ToBaseBytes(smallInt, i, retBuf);
          NegativeBranch(value, i, retBuf);
          r := retBuf[0 := SetTopBit(retBuf[0])];
          return;
        }

        var retBuf := ToBase(modValue, 8, i);
        ToBaseBytes(modValue, i, retBuf);
        NonNegativeBranch(modValue, i, retBuf);
        if TopBit(retBuf[0]) != 0 {
          r := WithLeadingZero(retBuf);
          return;
        }
        r := retBuf;
        return;
      }
      NextSignWeight(i);
      bigInt := bigInt * 256;
    }
    return [];
  }

  /** utilEncodeTC is a function of its argument: its contract admits one result. */
  lemma EncodeTCDeterministic(value: int, r1: seq<byte>, r2: seq<byte>)
    requires IsEncodeTCResult(value, r1) && IsEncodeTCResult(value, r2)
    ensures r1 == r2
  {
    if r1 != [] && r2 != [] {
      SignedValueRange(r1);
      SignedValueRange(r2);
      if |r1| < |r2| {
        FitsSignedMonotone(value, |r1|, |r2| - 1);
      } else if |r2| < |r1| {
        FitsSignedMonotone(value, |r2|, |r1| - 1);
      }
      SignedInjective(r1, r2);
    }
  }

  /** Every 1..7-byte string without a redundant leading byte is what
      utilEncodeTC returns for the value utilDecodeTC reads from it. */
  lemma DecodeEncode(b: seq<byte>)
    requires 1 <= |b| <= 7 && !NeedlesslyLong(b)
    ensures IsEncodeTCResult(SignedValue(b), b)
  {
    var v := SignedValue(b);
    assert FitsSigned(v, |b|) by {
      SignedValueRange(b);
    }
    assert -(Pow2(55) as int) <= v <= Pow2(55) by {
      Pow2Monotone(8 * |b| - 1, 55);
    }
    if |b| >= 2 {
      NeedlesslyLongIff(b);
    }
  }

  /** utilEncodeTC never produces what utilDecodeTC would warn about, and the
      sign bit of its first byte is the sign of the value. */
  lemma EncodeTCCanonical(value: int, r: seq<byte>)
    requires IsEncodeTCResult(value, r) && r != []
    ensures !NeedlesslyLong(r)
    ensures r[0] >= 0x80 <==> value < 0
  {
    SignedValueRange(r);
    if |r| >= 2 {
      NeedlesslyLongIff(r);
    }
  }
}
