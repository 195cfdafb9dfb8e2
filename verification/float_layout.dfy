/**
 * The integer and text side of the `Float` bit type (bytemaker/bittypes/float.py, copied in
 * bytemaker/bittypes_new.py): the declared width, the special patterns, normalisation of the
 * integral and fractional bit strings, the exponent bias, the assembly of the '0'/'1' text, and
 * the reading of the sign, exponent and mantissa fields back out of the bits.
 *
 * A finite value enters as its sign, its integral part and the bits `frac_to_bin` produced for
 * its fractional part; the float arithmetic that computes those is not part of this model.
 */
module FloatLayout {
  import opened BitSeq
  import opened Wrappers
  import BitStrings
  import Search

  /** The declared width of a float with `e` exponent and `m` mantissa bits: `1 + e + m`. */
  function NumBits(e: nat, m: nat): nat
  {
    1 + e + m
  }

  /** The fixed-width subclasses: Float16, Float32, Float64, BFloat16, TF19 and FP24. */
  lemma SubclassWidths()
    ensures NumBits(5, 10) == 16 && NumBits(8, 23) == 32 && NumBits(11, 52) == 64
    ensures NumBits(8, 7) == 16 && NumBits(8, 10) == 19 && NumBits(7, 16) == 24
  {
  }

  /** What the value setter is given: a float, reduced to the parts the bit layout needs. */
  datatype FloatInput =
    | Zero(negative: bool)
    | PosInf
    | NegInf
    | Finite(negative: bool, integral: nat, fraction: seq<Bit>)

  function Chars(c: char, n: nat): (r: string)
    ensures |r| == n && forall i :: 0 <= i < n ==> r[i] == c
  {
    seq(n, _ => c)
  }

  // ---------------------------------------------------------------------------
  // normalize
  // ---------------------------------------------------------------------------

  /** The position of the first 1, as `str.index("1")`; `None` where that raises. */
  function FirstOne(s: seq<Bit>): (r: Option<nat>)
    ensures r.None? <==> forall i :: 0 <= i < |s| ==> s[i] == 0
    ensures r.Some? ==> r.value < |s| && s[r.value] == 1 && forall j :: 0 <= j < r.value ==> s[j] == 0
  {
    if s == [] then None
    else if s[0] == 1 then Some(0)
    else
      var r := FirstOne(s[1..]);
      if r.None? then None else Some(r.value + 1)
  }

  /**
   * `normalize(binary_int, binary_frac)`: the bits after the first 1 of the two strings together,
   * and the exponent `len(binary_int) - first_one - 1`; `ValueError` when there is no 1.
   */
  function Normalize(intBits: seq<Bit>, fracBits: seq<Bit>): (r: Result<(seq<Bit>, int)>)
    ensures r.Err? ==> r.error == ValueError
    ensures r.Ok? ==> |r.value.0| < |intBits| + |fracBits| && r.value.1 + |fracBits| == |r.value.0|
  {
    var combined := intBits + fracBits;
    match FirstOne(combined)
    case None => Err(ValueError)
    case Some(k) => Ok((combined[k + 1..], |intBits| - k - 1))
  }

  /**
   * Normalisation is exact: `int.frac` equals `1.mantissa` times 2 to the exponent, that is the
   * integer read from all the bits equals the integer read from 1 and the mantissa, with
   * exponent + `len(frac)` mantissa bits. It fails exactly when every bit is 0.
   */
  lemma NormalizeExact(intBits: seq<Bit>, fracBits: seq<Bit>)
    ensures Normalize(intBits, fracBits).Err? <==>
      forall i :: 0 <= i < |intBits + fracBits| ==> (intBits + fracBits)[i] == 0
    ensures Normalize(intBits, fracBits).Ok? ==>
      var (mant, exp) := Normalize(intBits, fracBits).value;
      Unsigned([1] + mant) == Unsigned(intBits + fracBits) && exp + |fracBits| == |mant|
  {
    var combined := intBits + fracBits;
    var k := FirstOne(combined);
    if k.Some? {
      var mant := combined[k.value + 1..];
      assert combined[..k.value] == Repeat(0, k.value);
      assert combined == Repeat(0, k.value) + ([1] + mant);
      UnsignedLeadingZeros(k.value, [1] + mant);
    }
  }

  // ---------------------------------------------------------------------------
  // Bias and assembly
  // ---------------------------------------------------------------------------

  /** `get_exponent_bias(e)`: 2^(e-1) - 1. */
  function Bias(e: nat): (r: int)
    requires e >= 1
    ensures r >= 0 && 2 * r + 2 == Pow2(e)
  {
    Pow2(e - 1) - 1
  }

  /** The biases of the fixed-width subclasses, and that the bias is just under half the exponent range. */
  lemma BiasValues(e: nat)
    requires e >= 1
    ensures 2 * Bias(e) == Pow2(e) - 2
    ensures Bias(5) == 15 && Bias(7) == 63 && Bias(8) == 127 && Bias(11) == 1023
  {
  }

  /**
   * `int_to_binary(integer, bits)`: `bin(integer)` without "0b", then `zfill(bits)`, which puts
   * the zeros after a leading '-' (the sign counting towards the width).
   */
  function IntToBinary(integer: int, width: nat): string
  {
    var digits := BitsToStr(BinDigits(Abs(integer)));
    var sign := if integer < 0 then "-" else "";
    var fill := width - |sign| - |digits|;
    sign + Chars('0', if fill > 0 then fill else 0) + digits
  }

  /** `mantissa[:m].ljust(m, '0')`: cut or right-padded to exactly `m` bits. */
  function MantissaField(mant: seq<Bit>, m: nat): (r: seq<Bit>)
    ensures |r| == m
    ensures |mant| >= m ==> r == mant[..m]
    ensures |mant| < m ==> r == mant + Repeat(0, m - |mant|)
  {
    if |mant| >= m then mant[..m] else mant + Repeat(0, m - |mant|)
  }

  /** `assemble_bits`: the sign digit, the exponent text, the mantissa field. */
  function AssembleBits(sign: Bit, biased: int, mant: seq<Bit>, e: nat, m: nat): string
  {
    [BitChar(sign)] + IntToBinary(biased, e) + BitsToStr(MantissaField(mant, m))
  }

  /**
   * The exponent bits that survive once the text is read as bits: the string constructor deletes
   * '-' as a separator, leaving the zero fill and the digits of the magnitude.
   */
  function ParsedExponent(biased: int, e: nat): seq<Bit>
  {
    var d := BinDigits(Abs(biased));
    var fill := e - (if biased < 0 then 1 else 0) - |d|;
    Repeat(0, if fill > 0 then fill else 0) + d
  }

  /** The '-' that `bin` puts in front of a negative integer. */
  function SignText(integer: int): string
  {
    if integer < 0 then "-" else ""
  }

  /** `int_to_binary` is the '-' of a negative integer followed by the digits of the surviving exponent bits. */
  lemma IntToBinaryText(integer: int, width: nat)
    ensures IntToBinary(integer, width) == SignText(integer) + BitsToStr(ParsedExponent(integer, width))
  {
    var d := BinDigits(Abs(integer));
    var sign, digits := SignText(integer), BitsToStr(d);
    var fill := width - |sign| - |digits|;
    var z := if fill > 0 then fill else 0;
    assert IntToBinary(integer, width) == sign + Chars('0', z) + digits;
    assert ParsedExponent(integer, width) == Repeat(0, z) + d;
    SignedFillText(sign, d, z);
  }

  lemma SignedFillText(sign: string, d: seq<Bit>, z: nat)
    ensures sign + Chars('0', z) + BitsToStr(d) == sign + BitsToStr(Repeat(0, z) + d)
  {
    ZerosText(z);
    Search.BitsToStrAppend(Repeat(0, z), d);
    assert sign + Chars('0', z) + BitsToStr(d) == sign + (Chars('0', z) + BitsToStr(d));
  }

  lemma ZerosText(z: nat)
    ensures Chars('0', z) == BitsToStr(Repeat(0, z))
  {
    forall i | 0 <= i < z
      ensures Chars('0', z)[i] == BitsToStr(Repeat(0, z))[i]
    {
    }
  }

  /** The assembled text is the sign digit, possibly a '-', and the digits of the surviving bits. */
  lemma AssembledShape(sign: Bit, biased: int, mant: seq<Bit>, e: nat, m: nat)
    ensures AssembleBits(sign, biased, mant, e, m)
      == BitsToStr([sign]) + SignText(biased) + BitsToStr(ParsedExponent(biased, e) + MantissaField(mant, m))
  {
    var a, b := [BitChar(sign)], SignText(biased);
    var c, d := BitsToStr(ParsedExponent(biased, e)), BitsToStr(MantissaField(mant, m));
    IntToBinaryText(biased, e);
    Search.BitsToStrAppend(ParsedExponent(biased, e), MantissaField(mant, m));
    assert a == BitsToStr([sign]);
    assert a + (b + c) + d == a + b + (c + d);
  }

  /** Text made of one bit, possibly a '-', and more bits is read as those bits by the string constructor. */
  lemma FromStringSigned(a: seq<Bit>, signText: string, b: seq<Bit>)
    requires |a| == 1 && (signText == "" || signText == "-")
    ensures BitStrings.FromString(BitsToStr(a) + signText + BitsToStr(b)) == Ok(a + b)
  {
    var t := BitsToStr(a) + signText + BitsToStr(b);
    StripBitText(a, signText, b);
    assert !BitStrings.HasPrefix(t, "0b") && !BitStrings.HasPrefix(t, "0o") && !BitStrings.HasPrefix(t, "0x") by {
      if |t| >= 2 {
        assert t[..2][1] == t[1];
        if signText == "" {
          assert t[1] == BitsToStr(b)[0];
        }
      }
    }
    BitStrings.BitsDigits(a + b);
  }

  /** Read as bits, the assembled text is the sign bit, the surviving exponent bits and the mantissa field. */
  lemma ParseAssembled(sign: Bit, biased: int, mant: seq<Bit>, e: nat, m: nat)
    ensures BitStrings.FromString(AssembleBits(sign, biased, mant, e, m))
      == Ok([sign] + ParsedExponent(biased, e) + MantissaField(mant, m))
  {
    AssembledShape(sign, biased, mant, e, m);
    FromStringSigned([sign], SignText(biased), ParsedExponent(biased, e) + MantissaField(mant, m));
    assert [sign] + (ParsedExponent(biased, e) + MantissaField(mant, m))
      == [sign] + ParsedExponent(biased, e) + MantissaField(mant, m);
  }

  /** Deleting separators from bit text with at most a '-' in between leaves the bit text of both parts. */
  lemma StripBitText(a: seq<Bit>, signText: string, b: seq<Bit>)
    requires signText == "" || signText == "-"
    ensures BitStrings.StripSeparators(BitsToStr(a) + signText + BitsToStr(b)) == BitsToStr(a + b)
  {
    var ta, tb := BitsToStr(a), BitsToStr(b);
    if signText == "" {
      assert ta + signText + tb == ta + tb;
    } else {
      assert signText == ['-'];
      BitStrings.StripSeparatorsDrop(ta, '-', tb);
    }
    BitStrings.StripSeparatorsAppend(ta, tb);
    BitsTextClean(a);
    BitsTextClean(b);
    Search.BitsToStrAppend(a, b);
  }

  lemma BitsTextClean(a: seq<Bit>)
    ensures BitStrings.StripSeparators(BitsToStr(a)) == BitsToStr(a)
  {
    BitStrings.StripSeparatorsNone(BitsToStr(a));
  }

  /** A biased exponent in `0 .. 2^e - 1` comes out as exactly its `e` low bits. */
  lemma ParsedExponentInRange(biased: int, e: nat)
    requires e >= 1 && 0 <= biased < Pow2(e)
    ensures ParsedExponent(biased, e) == NatToBits(biased, e)
  {
    ZeroFillDigits(biased, e);
    var d := BinDigits(biased);
    if |d| >= e {
      assert ZeroFill(d, e) == d;
      assert e - |d| <= 0;
      assert Repeat(0, 0) + d == d;
    }
  }

  // ---------------------------------------------------------------------------
  // to_binstring and the value setter
  // ---------------------------------------------------------------------------

  function SignBit(negative: bool): Bit
  {
    if negative then 1 else 0
  }

  /**
   * `to_binstring(num, e, m)`: zero (of either sign) is all zeros, an infinity is its sign, `e`
   * ones and `m` zeros; otherwise the normalised mantissa and the biased exponent are assembled.
   */
  function ToBinstring(v: FloatInput, e: nat, m: nat): (r: Result<string>)
    requires e >= 1
    ensures r.Err? ==> v.Finite? && r.error == ValueError
  {
    match v
    case Zero(_) => Ok("0" + Chars('0', e + m))
    case PosInf => Ok("0" + Chars('1', e) + Chars('0', m))
    case NegInf => Ok("1" + Chars('1', e) + Chars('0', m))
    case Finite(negative, integral, fraction) => FiniteBinstring(negative, integral, fraction, e, m)
  }

  /** The finite case of `to_binstring`: normalise, then assemble with the biased exponent. */
  function FiniteBinstring(negative: bool, integral: nat, fraction: seq<Bit>, e: nat, m: nat): (r: Result<string>)
    requires e >= 1
    ensures r.Err? ==> r.error == ValueError
  {
    var n := Normalize(BinDigits(integral), fraction);
    if n.Err? then Err(n.error)
    else Ok(AssembleBits(SignBit(negative), n.value.1 + Bias(e), n.value.0, e, m))
  }

  /** Every special pattern has exactly `1 + e + m` digits, and -0.0 gives the pattern of 0.0. */
  lemma SpecialPatterns(e: nat, m: nat)
    requires e >= 1
    ensures ToBinstring(Zero(true), e, m) == ToBinstring(Zero(false), e, m)
    ensures ToBinstring(Zero(true), e, m) == Ok(BitsToStr(Repeat(0, NumBits(e, m))))
    ensures ToBinstring(PosInf, e, m) == Ok(BitsToStr([0] + Repeat(1, e) + Repeat(0, m)))
    ensures ToBinstring(NegInf, e, m) == Ok(BitsToStr([1] + Repeat(1, e) + Repeat(0, m)))
  {
    assert "0" + Chars('0', e + m) == BitsToStr(Repeat(0, NumBits(e, m)));
    assert "0" + Chars('1', e) + Chars('0', m) == BitsToStr([0] + Repeat(1, e) + Repeat(0, m));
    assert "1" + Chars('1', e) + Chars('0', m) == BitsToStr([1] + Repeat(1, e) + Repeat(0, m));
  }

  /** The `bits` setter's width check. */
  function CheckWidth(bits: seq<Bit>, e: nat, m: nat): Result<seq<Bit>>
  {
    if |bits| != NumBits(e, m) then Err(ValueError) else Ok(bits)
  }

  /**
   * The value setter as written: a value that is not a float (`None` here) raises `ValueError`;
   * otherwise the text of `to_binstring` goes through the string constructor and the
   * width-checked `bits` setter.
   */
  function EncodeAsWritten(v: Option<FloatInput>, e: nat, m: nat): (r: Result<seq<Bit>>)
    requires e >= 1
    ensures v.None? ==> r == Err(ValueError)
    ensures r.Ok? ==> |r.value| == NumBits(e, m)
  {
    if v.None? then Err(ValueError)
    else
      match ToBinstring(v.value, e, m)
      case Err(err) => Err(err)
      case Ok(text) =>
        match BitStrings.FromString(text)
        case Err(err) => Err(err)
        case Ok(bits) => CheckWidth(bits, e, m)
  }

  /** The biased exponent a finite input would be stored with, when it normalises. */
  function BiasedExponent(v: FloatInput, e: nat): Option<int>
    requires e >= 1
  {
    if !v.Finite? then None
    else
      var n := Normalize(BinDigits(v.integral), v.fraction);
      if n.Err? then None else Some(n.value.1 + Bias(e))
  }

  /**
   * The value setter with the evident intent: a biased exponent outside `0 .. 2^e - 1` cannot be
   * stored in `e` bits and raises `ValueError` instead of being written as text with a '-'.
   */
  function Encode(v: Option<FloatInput>, e: nat, m: nat): (r: Result<seq<Bit>>)
    requires e >= 1
    ensures v.None? ==> r == Err(ValueError)
    ensures r.Ok? ==> |r.value| == NumBits(e, m)
  {
    var biased := if v.None? then None else BiasedExponent(v.value, e);
    if biased.Some? && !(0 <= biased.value < Pow2(e)) then Err(ValueError)
    else EncodeAsWritten(v, e, m)
  }

  /** The two setters differ only where the biased exponent is out of range. */
  lemma EncodeAgrees(v: Option<FloatInput>, e: nat, m: nat)
    requires e >= 1
    requires v.Some? && BiasedExponent(v.value, e).Some? ==> 0 <= BiasedExponent(v.value, e).value < Pow2(e)
    ensures Encode(v, e, m) == EncodeAsWritten(v, e, m)
  {
  }

  /** A finite input that normalises, with its exponent in range, is stored as sign, `e` exponent bits, mantissa field. */
  lemma EncodeFinite(negative: bool, integral: nat, fraction: seq<Bit>, e: nat, m: nat, mant: seq<Bit>, exp: int)
    requires e >= 1 && Normalize(BinDigits(integral), fraction) == Ok((mant, exp))
    requires 0 <= exp + Bias(e) < Pow2(e)
    ensures Encode(Some(Finite(negative, integral, fraction)), e, m)
      == Ok([SignBit(negative)] + NatToBits(exp + Bias(e), e) + MantissaField(mant, m))
  {
    var biased := exp + Bias(e);
    var text := AssembleBits(SignBit(negative), biased, mant, e, m);
    ToBinstringFinite(negative, integral, fraction, e, m, mant, exp);
    ParseAssembled(SignBit(negative), biased, mant, e, m);
    ParsedExponentInRange(biased, e);
    EncodeOfText(Finite(negative, integral, fraction), e, m, text,
      [SignBit(negative)] + NatToBits(biased, e) + MantissaField(mant, m));
  }

  lemma ToBinstringFinite(negative: bool, integral: nat, fraction: seq<Bit>, e: nat, m: nat, mant: seq<Bit>, exp: int)
    requires e >= 1 && Normalize(BinDigits(integral), fraction) == Ok((mant, exp))
    ensures ToBinstring(Finite(negative, integral, fraction), e, m) == Ok(AssembleBits(SignBit(negative), exp + Bias(e), mant, e, m))
    ensures BiasedExponent(Finite(negative, integral, fraction), e) == Some(exp + Bias(e))
  {
    FiniteBinstringOf(negative, integral, fraction, e, m, mant, exp);
  }

  lemma FiniteBinstringOf(negative: bool, integral: nat, fraction: seq<Bit>, e: nat, m: nat, mant: seq<Bit>, exp: int)
    requires e >= 1 && Normalize(BinDigits(integral), fraction) == Ok((mant, exp))
    ensures FiniteBinstring(negative, integral, fraction, e, m) == Ok(AssembleBits(SignBit(negative), exp + Bias(e), mant, e, m))
    ensures BiasedExponent(Finite(negative, integral, fraction), e) == Some(exp + Bias(e))
  {
  }

  lemma EncodeOfText(v: FloatInput, e: nat, m: nat, text: string, bits: seq<Bit>)
    requires e >= 1 && ToBinstring(v, e, m) == Ok(text) && BitStrings.FromString(text) == Ok(bits)
    requires |bits| == NumBits(e, m)
    requires BiasedExponent(v, e).Some? ==> 0 <= BiasedExponent(v, e).value < Pow2(e)
    ensures Encode(Some(v), e, m) == Ok(bits)
  {
    EncodeAgrees(Some(v), e, m);
    EncodeAsWrittenOfText(v, e, m, text, bits);
  }

  // ---------------------------------------------------------------------------
  // The value getter: reading the fields back
  // ---------------------------------------------------------------------------

  /** The sum of `bit_i * 2^(len - i - 1)`, most significant first, as the getter writes it. */
  function WeightedSum(s: seq<Bit>): nat
  {
    if s == [] then 0 else s[0] * Pow2(|s| - 1) + WeightedSum(s[1..])
  }

  /** The getter's weighted sum is the unsigned value of the bits. */
  lemma {:induction false} WeightedSumIsUnsigned(s: seq<Bit>)
    ensures WeightedSum(s) == Unsigned(s)
  {
    if s != [] {
      WeightedSumIsUnsigned(s[1..]);
      UnsignedHead(s);
    }
  }

  /**
   * The value denoted by the fields: `sign * 2^exponent * (1 + mantissa / 2^m)`; the getter's sum
   * of `bit_i * 2^-(i+1)` over the mantissa bits is `mantissa / 2^m`.
   */
  datatype Fields = Fields(sign: int, exponent: int, mantissa: nat)

  /** The `value` getter's reading of the bits: the sign, the unbiased exponent and the mantissa numerator. */
  function Decode(bits: seq<Bit>, e: nat, m: nat): (r: Result<Fields>)
    requires e >= 1
    ensures r.Err? <==> |bits| < NumBits(e, m)
  {
    if |bits| < NumBits(e, m) then Err(IndexError)
    else Ok(Fields(if bits[0] == 1 then -1 else 1, WeightedSum(bits[1..1 + e]) - Bias(e), WeightedSum(bits[1 + e..1 + e + m])))
  }

  lemma FieldSlices(s: Bit, x: seq<Bit>, y: seq<Bit>, e: nat, m: nat)
    requires |x| == e && |y| == m
    ensures var b := [s] + x + y; b[0] == s && b[1..1 + e] == x && b[1 + e..1 + e + m] == y
  {
  }

  /** The getter reads stored sign, exponent and mantissa fields back as the sign, the unbiased exponent and the mantissa. */
  lemma DecodeFields(sign: Bit, biased: nat, y: seq<Bit>, e: nat, m: nat)
    requires e >= 1 && biased < Pow2(e) && |y| == m
    ensures Decode([sign] + NatToBits(biased, e) + y, e, m)
      == Ok(Fields(if sign == 1 then -1 else 1, biased - Bias(e), Unsigned(y)))
  {
    var x := NatToBits(biased, e);
    var b := [sign] + x + y;
    FieldSlices(sign, x, y, e, m);
    DecodeParts(b, e, m, x, y);
    WeightedSumInRange(biased, e);
    WeightedSumIsUnsigned(y);
  }

  lemma DecodeParts(b: seq<Bit>, e: nat, m: nat, x: seq<Bit>, y: seq<Bit>)
    requires e >= 1 && |b| >= NumBits(e, m) && b[1..1 + e] == x && b[1 + e..1 + e + m] == y
    ensures Decode(b, e, m) == Ok(Fields(if b[0] == 1 then -1 else 1, WeightedSum(x) - Bias(e), WeightedSum(y)))
  {
  }

  lemma WeightedSumInRange(n: nat, w: nat)
    requires n < Pow2(w)
    ensures WeightedSum(NatToBits(n, w)) == n
  {
    WeightedSumIsUnsigned(NatToBits(n, w));
    UnsignedNatToBits(n, w);
    DivModUnique(n, Pow2(w), 0, n);
  }

  /**
   * Round trip: reading back what the corrected setter stored gives the input's sign, its
   * normalised exponent and its mantissa field.
   */
  lemma DecodeEncode(negative: bool, integral: nat, fraction: seq<Bit>, e: nat, m: nat, mant: seq<Bit>, exp: int, stored: seq<Bit>)
    requires e >= 1 && Normalize(BinDigits(integral), fraction) == Ok((mant, exp))
    requires Encode(Some(Finite(negative, integral, fraction)), e, m) == Ok(stored)
    ensures Decode(stored, e, m) == Ok(Fields(if negative then -1 else 1, exp, Unsigned(MantissaField(mant, m))))
  {
    StoredFinite(negative, integral, fraction, e, m, mant, exp, stored);
    DecodeStored(negative, exp, mant, e, m, stored);
  }

  lemma DecodeStored(negative: bool, exp: int, mant: seq<Bit>, e: nat, m: nat, stored: seq<Bit>)
    requires e >= 1 && 0 <= exp + Bias(e) < Pow2(e)
    requires stored == [SignBit(negative)] + NatToBits(exp + Bias(e), e) + MantissaField(mant, m)
    ensures Decode(stored, e, m) == Ok(Fields(if negative then -1 else 1, exp, Unsigned(MantissaField(mant, m))))
  {
    var biased: nat := exp + Bias(e);
    DecodeFields(SignBit(negative), biased, MantissaField(mant, m), e, m);
    assert (if SignBit(negative) == 1 then -1 else 1) == (if negative then -1 else 1);
  }

  lemma StoredFinite(negative: bool, integral: nat, fraction: seq<Bit>, e: nat, m: nat, mant: seq<Bit>, exp: int, stored: seq<Bit>)
    requires e >= 1 && Normalize(BinDigits(integral), fraction) == Ok((mant, exp))
    requires Encode(Some(Finite(negative, integral, fraction)), e, m) == Ok(stored)
    ensures 0 <= exp + Bias(e) < Pow2(e)
    ensures stored == [SignBit(negative)] + NatToBits(exp + Bias(e), e) + MantissaField(mant, m)
  {
    EncodeFiniteFails(negative, integral, fraction, e, m);
    ToBinstringFinite(negative, integral, fraction, e, m, mant, exp);
    EncodeFinite(negative, integral, fraction, e, m, mant, exp);
  }

  /**
   * The corrected setter fails on a finite input exactly when it has no 1 bit to normalise on
   * (`normalize` raises) or when its biased exponent does not fit in `e` bits.
   */
  lemma EncodeFiniteFails(negative: bool, integral: nat, fraction: seq<Bit>, e: nat, m: nat)
    requires e >= 1
    ensures var biased := BiasedExponent(Finite(negative, integral, fraction), e);
      Encode(Some(Finite(negative, integral, fraction)), e, m).Err? <==> biased.None? || !(0 <= biased.value < Pow2(e))
  {
    var v := Finite(negative, integral, fraction);
    var n := Normalize(BinDigits(integral), fraction);
    if n.Err? {
      assert BiasedExponent(v, e).None?;
      assert ToBinstring(v, e, m) == Err(n.error);
      assert Encode(Some(v), e, m) == EncodeAsWritten(Some(v), e, m);
    } else {
      var (mant, exp) := n.value;
      ToBinstringFinite(negative, integral, fraction, e, m, mant, exp);
      if 0 <= exp + Bias(e) < Pow2(e) {
        EncodeFinite(negative, integral, fraction, e, m, mant, exp);
      }
    }
  }

  /** No pattern is special-cased when reading: all zeros reads as 2^-bias, not as zero. */
  lemma AllZeroDecodes(e: nat, m: nat)
    requires e >= 1
    ensures Decode(Repeat(0, NumBits(e, m)), e, m) == Ok(Fields(1, -Bias(e), 0))
  {
    var z := Repeat(0, NumBits(e, m));
    assert z[1..1 + e] == Repeat(0, e) && z[1 + e..1 + e + m] == Repeat(0, m);
    WeightedSumIsUnsigned(Repeat(0, e));
    WeightedSumIsUnsigned(Repeat(0, m));
    UnsignedRepeat(0, e);
    UnsignedRepeat(0, m);
  }

  /**
   * The float the getter computes from its fields, `sign * 2^exponent * (1 + mantissa / 2^m)`,
   * taken exactly: the digits `1` and the mantissa bits `y`, with the binary point moved by the
   * exponent, split into the integral part and the fraction bits.
   */
  function FieldsValue(sign: int, exponent: int, y: seq<Bit>): FloatInput
  {
    var digits := [1] + y;
    if exponent >= |y| then Finite(sign < 0, Unsigned(digits) * Pow2(exponent - |y|), [])
    else if exponent >= 0 then Finite(sign < 0, Unsigned(digits[..exponent + 1]), digits[exponent + 1..])
    else Finite(sign < 0, 0, Repeat(0, -exponent - 1) + digits)
  }

  /**
   * The float is exact: with `m` mantissa bits worth `u`, an exponent of at least `m` gives the
   * integer `(2^m + u) * 2^(exponent - m)`, and a smaller one a number with `m - exponent` fraction
   * bits whose scaled value is `2^m + u`; the sign is the sign field's.
   */
  lemma FieldsValueExact(sign: int, exponent: int, y: seq<Bit>, m: nat, u: nat)
    requires |y| == m && Unsigned(y) == u
    ensures var r := FieldsValue(sign, exponent, y);
      r.Finite? && (r.negative <==> sign < 0) &&
      (exponent >= m ==> r.fraction == [] && r.integral == (Pow2(m) + u) * Pow2(exponent - m)) &&
      (exponent < m ==> |r.fraction| == m - exponent && r.integral * Pow2(|r.fraction|) + Unsigned(r.fraction) == Pow2(m) + u)
  {
    var digits := [1] + y;
    UnsignedAppend([1], y);
    UnsignedSingle(1);
    assert Unsigned(digits) == Pow2(m) + u;
    if 0 <= exponent < m {
      var k := exponent + 1;
      assert digits == digits[..k] + digits[k..];
      UnsignedAppend(digits[..k], digits[k..]);
    } else if exponent < 0 {
      UnsignedLeadingZeros(-exponent - 1, digits);
    }
  }

  /** The float read from stored bits is the exact value of the fields `Decode` reads from them. */
  lemma DecodedValue(bits: seq<Bit>, e: nat, m: nat)
    requires e >= 1 && Decode(bits, e, m).Ok?
    ensures var f := Decode(bits, e, m).value;
      var r := FieldsValue(f.sign, f.exponent, bits[1 + e..1 + e + m]);
      r.Finite? && (r.negative <==> f.sign < 0) &&
      (f.exponent >= m ==> r.fraction == [] && r.integral == (Pow2(m) + f.mantissa) * Pow2(f.exponent - m)) &&
      (f.exponent < m ==> |r.fraction| == m - f.exponent && r.integral * Pow2(|r.fraction|) + Unsigned(r.fraction) == Pow2(m) + f.mantissa)
  {
    var y := bits[1 + e..1 + e + m];
    var f := Decode(bits, e, m).value;
    WeightedSumIsUnsigned(y);
    FieldsValueExact(f.sign, f.exponent, y, m, f.mantissa);
  }

  /** 1.0 as a Float32: integral bits "1", no fraction, exponent 0, biased exponent 127, zero mantissa. */
  lemma OneAsFloat32()
    ensures Normalize([1], []) == Ok(([], 0))
    ensures Encode(Some(Finite(false, 1, [])), 8, 23) == Ok([0] + NatToBits(127, 8) + Repeat(0, 23))
  {
    assert BinDigits(1) == [1] by {
      assert NatToBits(1, 1) == [1];
    }
    assert ([1] + [])[1..] == [];
    assert Bias(8) == 127;
    EncodeFinite(false, 1, [], 8, 23, [], 0);
    assert MantissaField([], 23) == Repeat(0, 23);
  }

  /**
   * As written, with 2 exponent and 10 mantissa bits, 0.125 (no integral bits, fraction bits 001)
   * has exponent -3 and biased exponent -2: `int_to_binary` gives "-10", the '-' is deleted as a
   * separator, and the stored exponent field 10 reads back as exponent 1, the value 2.0.
   */
  lemma NegativeExponentMisread()
    ensures EncodeAsWritten(Some(Finite(false, 0, [0, 0, 1])), 2, 10) == Ok([0, 1, 0] + Repeat(0, 10))
    ensures Decode([0, 1, 0] + Repeat(0, 10), 2, 10) == Ok(Fields(1, 1, 0))
    ensures Encode(Some(Finite(false, 0, [0, 0, 1])), 2, 10) == Err(ValueError)
  {
    MisreadEncoded();
    MisreadDecoded();
    EighthRejected();
  }

  /** The as-written setter stores 0.125 as the bits of "0-10" with the '-' dropped. */
  lemma MisreadEncoded()
    ensures EncodeAsWritten(Some(Finite(false, 0, [0, 0, 1])), 2, 10) == Ok([0, 1, 0] + Repeat(0, 10))
  {
    EighthNormalizes();
    var v := Finite(false, 0, [0, 0, 1]);
    ToBinstringFinite(false, 0, [0, 0, 1], 2, 10, [], -3);
    MisreadText();
    EncodeAsWrittenOfText(v, 2, 10, AssembleBits(0, -2, [], 2, 10), [0, 1, 0] + Repeat(0, 10));
  }

  /** The corrected setter rejects 0.125 with 2 exponent bits: its biased exponent -2 is below 0. */
  lemma EighthRejected()
    ensures Encode(Some(Finite(false, 0, [0, 0, 1])), 2, 10) == Err(ValueError)
  {
    EighthNormalizes();
    ToBinstringFinite(false, 0, [0, 0, 1], 2, 10, [], -3);
    assert Bias(2) == 1;
  }

  /** 0.125 has no integral bits and fraction bits 001: it normalises to an empty mantissa and exponent -3. */
  lemma EighthNormalizes()
    ensures Normalize(BinDigits(0), [0, 0, 1]) == Ok(([], -3))
  {
    assert BinDigits(0) == [0];
    var combined: seq<Bit> := [0, 0, 0, 1];
    assert [0] + [0, 0, 1] == combined;
    assert FirstOne(combined) == Some(3) by {
      assert combined[1..] == [0, 0, 1] && [0, 0, 1][1..] == [0, 1] && [0, 1][1..] == [1];
    }
    assert combined[4..] == [];
  }

  /** With 2 exponent bits the bias is 1, the biased exponent of 0.125 is -2, and its text "0-10" plus zeros reads as 0, 1, 0 and zeros. */
  lemma MisreadText()
    ensures Bias(2) == 1
    ensures BitStrings.FromString(AssembleBits(0, -2, [], 2, 10)) == Ok([0, 1, 0] + Repeat(0, 10))
  {
    TwoExponentBits();
    ParseAssembled(0, -2, [], 2, 10);
    var z: seq<Bit> := [];
    assert MantissaField(z, 10) == z + Repeat(0, 10) == Repeat(0, 10);
    assert [0] + [1, 0] + Repeat(0, 10) == [0, 1, 0] + Repeat(0, 10);
  }

  /** The biased exponent -2 leaves the bits 10 once its '-' is deleted. */
  lemma TwoExponentBits()
    ensures ParsedExponent(-2, 2) == [1, 0]
  {
    assert BitLength(2) == 2 by {
      assert BitLength(1) == 1;
    }
    assert NatToBits(2, 2) == [1, 0] by {
      assert NatToBits(1, 1) == [1];
    }
    assert BinDigits(2) == [1, 0];
    assert Repeat(0, 0) + [1, 0] == [1, 0];
  }

  lemma EncodeAsWrittenOfText(v: FloatInput, e: nat, m: nat, text: string, bits: seq<Bit>)
    requires e >= 1 && ToBinstring(v, e, m) == Ok(text) && BitStrings.FromString(text) == Ok(bits)
    requires |bits| == NumBits(e, m)
    ensures EncodeAsWritten(Some(v), e, m) == Ok(bits)
  {
    assert EncodeAsWritten(Some(v), e, m) == CheckWidth(bits, e, m);
  }

  /** The stored bits 0, 10, zeros read back as sign +1, exponent 2 - 1 = 1 and mantissa 0. */
  lemma MisreadDecoded()
    ensures Decode([0, 1, 0] + Repeat(0, 10), 2, 10) == Ok(Fields(1, 1, 0))
  {
    var x: seq<Bit>, y := [1, 0], Repeat(0, 10);
    FieldSlices(0, x, y, 2, 10);
    assert [0] + x + y == [0, 1, 0] + Repeat(0, 10);
    DecodeParts([0] + x + y, 2, 10, x, y);
    WeightedSumIsUnsigned(y);
    UnsignedRepeat(0, 10);
    assert WeightedSum(x) == 2 by {
      assert x[1..] == [0] && x[1..][1..] == [];
    }
    assert Bias(2) == 1;
  }
}
