/**
 * The integer codec of `Int` (`bytemaker/bittypes/int.py`, repeated verbatim in
 * `bytemaker/bittypes_new.py`): decoding a bit string as unsigned, two's-complement,
 * sign-magnitude or one's-complement, the minimum width of a value, and range-checked encoding.
 * The bit strings the source builds from '0'/'1' characters are bit sequences here.
 */
module IntCodec {
  import opened BitSeq
  import opened Wrappers
  import Utils

  /**
   * The representation names the codec accepts; both "signed_magnitude" and "sign_magnitude"
   * select `SignMagnitude`, and `Unsupported` stands for any other name.
   */
  datatype IntFormat = TwosComplement | SignMagnitude | OnesComplement | Unsupported

  /** The values an `L`-bit field holds in the given signedness and format. */
  predicate InRange(v: int, L: nat, signed: bool, format: IntFormat)
  {
    if !signed then 0 <= v < Pow2(L)
    else if L == 0 then false
    else match format
      case TwosComplement => -(Pow2(L - 1) as int) <= v < Pow2(L - 1)
      case SignMagnitude => Abs(v) <= Pow2(L - 1) - 1
      case OnesComplement => Abs(v) <= Pow2(L - 1) - 1
      case Unsupported => false
  }

  // ---------------------------------------------------------------------------
  // Decoding
  // ---------------------------------------------------------------------------

  /**
   * `Int.to_pyint`: an empty string and an unknown signed format raise; a one-bit string raises
   * where the formula reads the (then empty) magnitude after the sign bit.
   */
  function ToPyint(bits: seq<Bit>, signed: bool, format: IntFormat): (r: Result<int>)
    ensures r.Err? <==> (|bits| == 0 || (signed && (format.Unsupported?
      || (|bits| == 1 && (format.SignMagnitude? || (format.OnesComplement? && bits[0] == 1))))))
    ensures r.Ok? ==> InRange(r.value, |bits|, signed, format)
    ensures r.Ok? && !signed ==> r.value == Unsigned(bits)
    ensures r.Ok? && signed && format.TwosComplement? ==> r.value == TwosValue(bits)
    ensures r.Ok? && signed && format.SignMagnitude? ==>
      r.value == (if bits[0] == 1 then -(Unsigned(bits[1..]) as int) else Unsigned(bits[1..]))
    ensures r.Ok? && signed && format.OnesComplement? ==>
      r.value == (if bits[0] == 1 then -(Unsigned(Complement(bits[1..])) as int) else Unsigned(bits[1..]))
  {
    if |bits| == 0 then Err(ValueError)
    else if !signed then Ok(Unsigned(bits))
    else
      var n := |bits|;
      SignedParts(bits);
      match format
      case TwosComplement =>
        if bits[0] == 1 then Ok(-(Pow2(n) as int) + Unsigned(bits)) else Ok(Unsigned(bits))
      case SignMagnitude =>
        if n == 1 then Err(ValueError)
        else if bits[0] == 1 then Ok(-(Unsigned(bits[1..]) as int)) else Ok(Unsigned(bits[1..]))
      case OnesComplement =>
        if bits[0] == 1 then
          if n == 1 then Err(ValueError)
          else Ok(-(Pow2(n - 1) - Unsigned(bits[1..]) - 1))
        else Ok(Unsigned(bits))
      case Unsupported => Err(ValueError)
  }

  /** The sign bit's weight, the value of the bits after it and of their complement. */
  lemma SignedParts(bits: seq<Bit>)
    requires |bits| >= 1
    ensures var h, t := Pow2(|bits| - 1), Unsigned(bits[1..]);
      Pow2(|bits|) == 2 * h && t < h
      && Unsigned(bits) == (if bits[0] == 1 then h + t else t)
      && Unsigned(Complement(bits[1..])) == h - 1 - t
  {
    var h := Pow2(|bits| - 1);
    assert Pow2(|bits|) == 2 * h;
    UnsignedHead(bits);
    BitTimes(bits[0], h);
    UnsignedComplement(bits[1..]);
  }

  lemma BitTimes(b: Bit, h: int)
    ensures b * h == if b == 1 then h else 0
  {
    if b == 0 {
      assert b * h == 0 * h;
    }
  }

  // ---------------------------------------------------------------------------
  // Minimum width
  // ---------------------------------------------------------------------------

  /**
   * `Int.min_bit_length`. Unsigned: 1 for zero, a math error for a negative value (log of a
   * non-positive number). Signed: two's complement (also when no format is given) as in
   * `twos_complement_bit_length`; the other formats need one bit more than the magnitude.
   * An unknown format gives `None`. Each `ceil(log2(...))` is taken as the exact bit length.
   */
  function MinBitLength(value: int, signed: bool, format: Option<IntFormat>): (r: Result<Option<nat>>)
    ensures r.Err? <==> !signed && value < 0
    ensures r.Err? ==> r.error == ValueError
    ensures r.Ok? ==> (r.value.None? <==> signed && format == Some(Unsupported))
    ensures r.Ok? && r.value.Some? ==> r.value.value >= 1
  {
    if !signed then
      if value == 0 then Ok(Some(1))
      else if value < 0 then Err(ValueError)
      else Ok(Some(BitLength(value)))
    else
      match (if format.None? then TwosComplement else format.value)
      case TwosComplement => Ok(Some(Utils.TwosComplementBitLength(value)))
      case SignMagnitude => if value == 0 then Ok(Some(1)) else Ok(Some(BitLength(Abs(value)) + 1))
      case OnesComplement => if value == 0 then Ok(Some(1)) else Ok(Some(BitLength(Abs(value)) + 1))
      case Unsupported => Ok(None)
  }

  /** The exact minimum width admits the value, and no smaller positive width does. */
  lemma MinBitLengthIsLeast(value: int, signed: bool, format: Option<IntFormat>)
    requires MinBitLength(value, signed, format).Ok? && MinBitLength(value, signed, format).value.Some?
    ensures var k := MinBitLength(value, signed, format).value.value;
      var f := if format.None? then TwosComplement else format.value;
      k >= 1 && InRange(value, k, signed, f)
      && forall k': nat :: 1 <= k' < k ==> !InRange(value, k', signed, f)
  {
    var k := MinBitLength(value, signed, format).value.value;
    var f := if format.None? then TwosComplement else format.value;
    if !signed {
      forall k': nat | 1 <= k' < k
        ensures !InRange(value, k', signed, f)
      {
        Pow2Monotone(k', k - 1);
      }
    } else if f.TwosComplement? {
      Utils.TwosComplementBitLengthLeast(value);
      forall k': nat | 1 <= k'
        ensures InRange(value, k', signed, f) <==> Utils.FitsTwos(value, k')
      {
      }
    } else if value != 0 {
      var a := Abs(value);
      forall k': nat | 1 <= k' < k
        ensures !InRange(value, k', signed, f)
      {
        Pow2Monotone(k' - 1, BitLength(a) - 1);
      }
    }
  }

  // ---------------------------------------------------------------------------
  // Encoding
  // ---------------------------------------------------------------------------

  /**
   * The inner `unsigned_int_to_bitstring`: range check, then the binary digits zero-filled to
   * `L`. Within `0 <= n < 2^L` the digits are the `L` low bits of `n`, except that a zero
   * width still yields the single digit of `bin(0)`.
   */
  function UnsignedToBits(n: int, L: nat): (r: Result<seq<Bit>>)
    ensures r.Ok? <==> 0 <= n < Pow2(L)
    ensures r.Ok? && L >= 1 ==> r.value == NatToBits(n, L)
    ensures r.Ok? && L == 0 ==> r.value == [0]
  {
    if n < 0 || n >= Pow2(L) then Err(ValueError)
    else
      ZeroFilledDigits(n, L);
      Ok(ZeroFill(BinDigits(n), L))
  }

  lemma ZeroFilledDigits(n: nat, L: nat)
    requires n < Pow2(L)
    ensures L >= 1 ==> ZeroFill(BinDigits(n), L) == NatToBits(n, L)
    ensures L == 0 ==> ZeroFill(BinDigits(n), L) == [0]
  {
    if L >= 1 {
      ZeroFillDigits(n, L);
    }
  }

  /** The inner `int_to_twos_complement`: a negative `n` is written as 2^L + n. */
  function TwosComplementToBits(n: int, L: nat): (r: Result<seq<Bit>>)
    requires L >= 1
    ensures r.Ok? <==> InRange(n, L, true, TwosComplement)
    ensures r.Ok? ==> |r.value| == L && Unsigned(r.value) == n % Pow2(L)
  {
    if n < -(Pow2(L - 1) as int) || n >= Pow2(L - 1) then Err(ValueError)
    else
      var x := if n < 0 then Pow2(L) + n else n;
      ZeroFillDigits(x, L);
      UnsignedNatToBits(x, L);
      DivModUnique(n, Pow2(L), if n < 0 then -1 else 0, x);
      DivModUnique(x, Pow2(L), 0, x);
      Ok(ZeroFill(BinDigits(x), L))
  }

  /** The inner `int_to_ones_complement`: the `L`-bit magnitude, every bit flipped for a negative `n`. */
  function OnesComplementToBits(n: int, L: nat): (r: Result<seq<Bit>>)
    requires L >= 1
    ensures r.Ok? <==> InRange(n, L, true, OnesComplement)
    ensures r.Ok? ==> |r.value| == L
    ensures r.Ok? ==> Unsigned(r.value) == if n >= 0 then n else Pow2(L) - 1 + n
  {
    if Abs(n) > Pow2(L - 1) - 1 then Err(ValueError)
    else
      Pow2Monotone(L - 1, L);
      var magnitude := UnsignedToBits(Abs(n), L).value;
      UnsignedNatToBits(Abs(n), L);
      DivModUnique(Abs(n), Pow2(L), 0, Abs(n));
      if n >= 0 then Ok(magnitude)
      else
        UnsignedComplement(magnitude);
        Ok(Complement(magnitude))
  }

  /**
   * The inner `int_to_signed_magnitude` as written: a sign bit followed by
   * `unsigned_int_to_bitstring(|n|, L - 1)`. For `L == 1` that call still returns one digit.
   */
  function SignMagnitudeToBitsAsWritten(n: int, L: nat): (r: Result<seq<Bit>>)
    requires L >= 1
    ensures r.Ok? <==> InRange(n, L, true, SignMagnitude)
  {
    if Abs(n) > Pow2(L - 1) - 1 then Err(ValueError)
    else
      var magnitude := UnsignedToBits(Abs(n), L - 1).value;
      Ok((if n >= 0 then [0] else [1]) + magnitude)
  }

  /** The one-bit sign-magnitude encoding of zero comes out two bits wide. */
  lemma SignMagnitudeOneBitZeroIsTwoBits()
    ensures SignMagnitudeToBitsAsWritten(0, 1) == Ok([0, 0])
  {
    assert Pow2(0) == 1 && Abs(0) == 0;
    var magnitude := UnsignedToBits(0, 0).value;
    assert magnitude == [0];
    assert SignMagnitudeToBitsAsWritten(0, 1) == Ok([0] + magnitude);
    assert [0] + magnitude == [0, 0];
  }

  /** The intended sign-magnitude encoding: a sign bit followed by exactly `L - 1` magnitude bits. */
  function SignMagnitudeToBits(n: int, L: nat): (r: Result<seq<Bit>>)
    requires L >= 1
    ensures r.Ok? <==> InRange(n, L, true, SignMagnitude)
    ensures r.Ok? ==> |r.value| == L && r.value[0] == (if n < 0 then 1 else 0)
    ensures r.Ok? ==> Unsigned(r.value[1..]) == Abs(n)
  {
    if Abs(n) > Pow2(L - 1) - 1 then Err(ValueError)
    else
      UnsignedNatToBits(Abs(n), L - 1);
      DivModUnique(Abs(n), Pow2(L - 1), 0, Abs(n));
      var r := (if n >= 0 then [0] else [1]) + NatToBits(Abs(n), L - 1);
      assert r[1..] == NatToBits(Abs(n), L - 1);
      Ok(r)
  }

  /** The format actually used: a signed call without a format uses two's complement. */
  function EffectiveFormat(signed: bool, format: Option<IntFormat>): Option<IntFormat>
  {
    if signed && format.None? then Some(TwosComplement) else format
  }

  /** The width actually used: the given one, or the minimum width (a missing one raises at the `<= 0` test). */
  function EffectiveWidth(value: int, signed: bool, bitLength: Option<int>, format: Option<IntFormat>): Result<int>
  {
    if bitLength.Some? then Ok(bitLength.value)
    else
      var m :- MinBitLength(value, signed, EffectiveFormat(signed, format));
      if m.None? then Err(TypeError) else Ok(m.value)
  }

  /**
   * `Int.to_bitstring` with the sign-magnitude width corrected: resolve format and width, reject
   * a non-positive width, then dispatch on signedness and format (an unknown format raises).
   */
  function ToBitstring(value: int, signed: bool, bitLength: Option<int>, format: Option<IntFormat>): (r: Result<seq<Bit>>)
    ensures r.Ok? ==> (EffectiveWidth(value, signed, bitLength, format).Ok?
      && |r.value| == EffectiveWidth(value, signed, bitLength, format).value)
  {
    var fmt := EffectiveFormat(signed, format);
    var L :- EffectiveWidth(value, signed, bitLength, format);
    if L <= 0 then Err(ValueError)
    else if !signed then UnsignedToBits(value, L)
    else match fmt.value
      case TwosComplement => TwosComplementToBits(value, L)
      case SignMagnitude => SignMagnitudeToBits(value, L)
      case OnesComplement => OnesComplementToBits(value, L)
      case Unsupported => Err(ValueError)
  }

  /** With a positive width, encoding succeeds exactly for the values that width holds. */
  lemma ToBitstringSucceedsIffInRange(value: int, signed: bool, L: int, format: Option<IntFormat>)
    requires L >= 1
    ensures var f := if signed && format.None? then TwosComplement
                     else if format.None? then Unsupported else format.value;
      ToBitstring(value, signed, Some(L), format).Ok? <==> InRange(value, L, signed, f)
  {
  }

  /** A width that is not positive always raises. */
  lemma ToBitstringRejectsNonPositiveWidth(value: int, signed: bool, L: int, format: Option<IntFormat>)
    requires L <= 0
    ensures ToBitstring(value, signed, Some(L), format) == Err(ValueError)
  {
  }

  /** Without a width the exact minimum width is used, and it always admits the value. */
  lemma ToBitstringDefaultWidth(value: int, signed: bool, format: Option<IntFormat>)
    requires MinBitLength(value, signed, EffectiveFormat(signed, format)).Ok?
    requires MinBitLength(value, signed, EffectiveFormat(signed, format)).value.Some?
    ensures var k := MinBitLength(value, signed, EffectiveFormat(signed, format)).value.value;
      ToBitstring(value, signed, None, format).Ok? && |ToBitstring(value, signed, None, format).value| == k
  {
    var f := EffectiveFormat(signed, format);
    MinBitLengthIsLeast(value, signed, f);
    var k := MinBitLength(value, signed, f).value.value;
    ToBitstringSucceedsIffInRange(value, signed, k, format);
    if signed {
      assert f == Some(if format.None? then TwosComplement else format.value);
    } else {
      assert 0 <= value < Pow2(k);
    }
  }

  /**
   * Round trip: decoding an encoding gives the value back, for every format (a one-bit
   * sign-magnitude string cannot be decoded at all, so that width is excluded).
   */
  lemma RoundTrip(value: int, signed: bool, L: int, format: IntFormat)
    requires ToBitstring(value, signed, Some(L), Some(format)).Ok?
    requires format.SignMagnitude? ==> L >= 2 || !signed
    ensures ToPyint(ToBitstring(value, signed, Some(L), Some(format)).value, signed, format) == Ok(value)
  {
    if !signed {
      RoundTripUnsigned(value, L, format);
    } else {
      match format
      case TwosComplement => RoundTripTwos(value, L);
      case SignMagnitude => RoundTripSignMagnitude(value, L);
      case OnesComplement => RoundTripOnes(value, L);
    }
  }

  lemma RoundTripUnsigned(value: int, L: nat, format: IntFormat)
    requires L >= 1 && UnsignedToBits(value, L).Ok?
    ensures ToPyint(UnsignedToBits(value, L).value, false, format) == Ok(value)
  {
    UnsignedNatToBits(value, L);
    DivModUnique(value, Pow2(L), 0, value);
  }

  lemma RoundTripTwos(value: int, L: nat)
    requires L >= 1 && TwosComplementToBits(value, L).Ok?
    ensures ToPyint(TwosComplementToBits(value, L).value, true, TwosComplement) == Ok(value)
  {
    var s := TwosComplementToBits(value, L).value;
    var x := if value < 0 then Pow2(L) + value else value;
    DivModUnique(value, Pow2(L), if value < 0 then -1 else 0, x);
    assert Unsigned(s) == x;
    UnsignedHead(s);
    assert Pow2(L) == 2 * Pow2(L - 1);
  }

  /** The leading bit of a bit string is set exactly when its unsigned value reaches the top half. */
  lemma SignBit(s: seq<Bit>)
    requires |s| >= 1
    ensures s[0] == 1 <==> Unsigned(s) >= Pow2(|s| - 1)
    ensures Unsigned(s[1..]) == if s[0] == 1 then Unsigned(s) - Pow2(|s| - 1) else Unsigned(s)
  {
    UnsignedHead(s);
    HeadArith(s[0], Pow2(|s| - 1), Unsigned(s[1..]), Unsigned(s));
  }

  lemma HeadArith(b: int, h: int, rest: int, u: int)
    requires 0 <= b <= 1 && 0 <= rest < h && u == b * h + rest
    ensures b == 1 <==> u >= h
    ensures rest == if b == 1 then u - h else u
  {
  }

  lemma RoundTripSignMagnitude(value: int, L: nat)
    requires L >= 2 && SignMagnitudeToBits(value, L).Ok?
    ensures ToPyint(SignMagnitudeToBits(value, L).value, true, SignMagnitude) == Ok(value)
  {
  }

  lemma RoundTripOnes(value: int, L: nat)
    requires L >= 1 && OnesComplementToBits(value, L).Ok?
    ensures ToPyint(OnesComplementToBits(value, L).value, true, OnesComplement) == Ok(value)
  {
    var s := OnesComplementToBits(value, L).value;
    OnesComplementShape(value, L);
    OnesComplementDecoded(s, value);
  }

  /** A string with the sign bit and magnitude bits of `value`'s one's-complement encoding reads back as `value`. */
  lemma OnesComplementDecoded(s: seq<Bit>, value: int)
    requires |s| >= 1 && s[0] == (if value < 0 then 1 else 0)
    requires Unsigned(s[1..]) == (if value >= 0 then value else Pow2(|s| - 1) - 1 + value)
    requires Unsigned(s) == (if value >= 0 then value else Pow2(|s|) - 1 + value)
    ensures ToPyint(s, true, OnesComplement) == Ok(value)
  {
    if value < 0 {
      assert Pow2(|s| - 1) >= 2;
      assert |s| >= 2;
    }
  }

  /** The sign bit and the magnitude bits of a one's-complement encoding. */
  lemma OnesComplementShape(value: int, L: nat)
    requires L >= 1 && OnesComplementToBits(value, L).Ok?
    ensures var s := OnesComplementToBits(value, L).value;
      s[0] == (if value < 0 then 1 else 0)
      && Unsigned(s[1..]) == (if value >= 0 then value else Pow2(L - 1) - 1 + value)
      && Unsigned(s) == (if value >= 0 then value else Pow2(L) - 1 + value)
  {
    var s := OnesComplementToBits(value, L).value;
    OnesComplementSplit(s, value);
  }

  lemma OnesComplementSplit(s: seq<Bit>, value: int)
    requires |s| >= 1 && Abs(value) <= Pow2(|s| - 1) - 1
    requires Unsigned(s) == (if value >= 0 then value else Pow2(|s|) - 1 + value)
    ensures s[0] == (if value < 0 then 1 else 0)
    ensures Unsigned(s[1..]) == (if value >= 0 then value else Pow2(|s| - 1) - 1 + value)
  {
    var h, u := Pow2(|s| - 1), Unsigned(s);
    assert Pow2(|s|) == 2 * h;
    SignBit(s);
    if value >= 0 {
      assert u == value < h;
    } else {
      assert u == 2 * h - 1 + value >= h;
    }
  }

  /**
   * Unsigned and two's-complement strings are decoded one to one: encoding a decoded
   * string at its own width gives the string back.
   */
  lemma DecodeThenEncode(bits: seq<Bit>, signed: bool)
    requires ToPyint(bits, signed, TwosComplement).Ok?
    ensures ToBitstring(ToPyint(bits, signed, TwosComplement).value, signed, Some(|bits|), Some(TwosComplement)) == Ok(bits)
  {
    var v := ToPyint(bits, signed, TwosComplement).value;
    var L := |bits|;
    NatToBitsOfUnsigned(bits);
    if !signed {
    } else {
      UnsignedHead(bits);
      var s := ToBitstring(v, signed, Some(L), Some(TwosComplement)).value;
      var x := if v < 0 then Pow2(L) + v else v;
      assert x == Unsigned(bits);
      ZeroFillDigits(x, L);
    }
  }

  /**
   * The negative zeros: a sign bit followed by zeros in sign-magnitude, and all ones in one's
   * complement, both read as 0, the same value as the all-zero pattern.
   */
  lemma NegativeZeros(k: nat)
    requires k >= 1
    ensures ToPyint([1] + Repeat(0, k), true, SignMagnitude) == Ok(0)
    ensures ToPyint(Repeat(1, k + 1), true, OnesComplement) == Ok(0)
    ensures ToPyint(Repeat(0, k + 1), true, SignMagnitude) == Ok(0)
    ensures ToPyint(Repeat(0, k + 1), true, OnesComplement) == Ok(0)
  {
    var sm := [1] + Repeat(0, k);
    assert sm[1..] == Repeat(0, k);
    UnsignedRepeat(0, k);
    var oc := Repeat(1, k + 1);
    assert oc[1..] == Repeat(1, k);
    assert Complement(Repeat(1, k)) == Repeat(0, k);
    var z := Repeat(0, k + 1);
    assert z[1..] == Repeat(0, k);
  }

  /** The documented decodings: 0101 is 5 in every format, 101 is -3, -1 and -2 in the three signed formats. */
  lemma DecodeExamples()
    ensures ToPyint([0, 1, 0, 1], true, TwosComplement) == Ok(5)
    ensures ToPyint([1, 0, 1], true, TwosComplement) == Ok(-3)
    ensures ToPyint([1, 0, 1], true, SignMagnitude) == Ok(-1)
    ensures ToPyint([1, 0, 1], true, OnesComplement) == Ok(-2)
    ensures ToPyint([1, 0, 1], false, Unsupported) == Ok(5)
  {
    assert [1, 0, 1][1..] == [0, 1];
    assert [0, 1, 0, 1][..3] == [0, 1, 0] && [0, 1, 0][..2] == [0, 1] && [0, 1][..1] == [0];
    assert [1, 0, 1][..2] == [1, 0] && [1, 0][..1] == [1];
    assert Unsigned([0, 1]) == 1 by { assert [0, 1][..1] == [0]; assert [0][..0] == []; }
    assert Unsigned([1]) == 1 by { assert [1][..0] == []; }
  }
}
