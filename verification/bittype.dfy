/**
 * The typed bit value (bytemaker/bittypes/bittype.py, buffer.py and the `SInt`/`UInt` classes
 * of int.py; copied in bytemaker/bittypes_new.py): an object holding `_bits`, which the `bits`
 * setter only accepts at the class's declared width, and `_endianness`, which decides whether
 * `__bytes__` reverses the whole byte buffer.
 *
 * Classes are closed here: a `BitTypeClass` names the kind (`UInt`, `SInt`, `Float`, `Buffer`)
 * and its widths, as `specialize` and the fixed-width subclasses fix them.
 */
module BitTypes {
  import opened BitSeq
  import opened Wrappers
  import IntCodec
  import FloatLayout
  import BitStrings
  import BitVectors
  import LegacyBits

  /** A float class needs at least one exponent bit: its bias is 2^(e-1) - 1. */
  type ExponentWidth = e: nat | e >= 1 witness 1

  /** The class of a bit value: its kind and its declared widths. */
  datatype BitTypeClass =
    | UIntClass(n: nat)
    | SIntClass(n: nat)
    | FloatClass(e: ExponentWidth, m: nat)
    | BufferClass(n: nat)

  /** `num_bits`: the declared width; a float's is `1 + e + m`. */
  function NumBits(c: BitTypeClass): nat
  {
    match c
    case UIntClass(n) => n
    case SIntClass(n) => n
    case FloatClass(e, m) => FloatLayout.NumBits(e, m)
    case BufferClass(n) => n
  }

  /** Widths of some fixed subclasses: `Buffer4`, `UInt8`, `SInt32`, `Float32`, `BFloat16`. */
  lemma FixedWidths()
    ensures NumBits(BufferClass(4)) == 4 && NumBits(UIntClass(8)) == 8 && NumBits(SIntClass(32)) == 32
    ensures NumBits(FloatClass(8, 23)) == 32 && NumBits(FloatClass(8, 7)) == 16
  {
  }

  datatype Endianness = Big | Little

  /** The constructor's `endianness` argument. */
  datatype EndiannessArg = BigArg | LittleArg | SourceElseBig

  /** A Python value handed to the `value` setter. */
  datatype Value = IntVal(i: int) | FloatVal(f: FloatLayout.FloatInput) | BitsVal(b: seq<Bit>)

  /** What the `value` getter returns: an integer, the fields of a float, or the bits of a buffer. */
  datatype Reading = IntReading(i: int) | FloatReading(fields: FloatLayout.Fields) | BitsReading(b: seq<Bit>)

  // ---------------------------------------------------------------------------
  // The two setters and the getter, as functions of the class and the input
  // ---------------------------------------------------------------------------

  /** The `bits` setter: `ValueError` unless the length is `num_bits`, otherwise the bits are stored. */
  function CheckBits(c: BitTypeClass, b: seq<Bit>): (r: Result<seq<Bit>>)
    ensures r.Ok? <==> |b| == NumBits(c)
    ensures r.Ok? ==> r.value == b
    ensures r.Err? ==> r.error == ValueError
  {
    if |b| != NumBits(c) then Err(ValueError) else Ok(b)
  }

  /**
   * The `UInt.value` setter as written, which the classes without a struct letter use (`UInt1` to
   * `UInt7`, `UInt9` to `UInt15`, `UInt128`, `UInt256`, `specialize(n)` without a letter):
   * `BitVector(bin(value)[2:])` stored straight into `_bits`, unpadded and unchecked. A negative value leaves "b..." after the slice, which the string
   * constructor rejects; `bin` of a non-integer raises `TypeError`.
   */
  function UIntStoredAsWritten(v: Value): (r: Result<seq<Bit>>)
    ensures r.Ok? <==> v.IntVal? && v.i >= 0
    ensures r.Err? ==> r.error == (if v.IntVal? then ValueError else TypeError)
    ensures r.Ok? ==> |r.value| >= 1 && Unsigned(r.value) == v.i
  {
    match v
    case IntVal(i) => if i < 0 then Err(ValueError) else Ok(BinDigits(i))
    case _ => Err(TypeError)
  }

  /**
   * What the `value` setter stores. `SInt` encodes with `to_bitstring` at `num_bits` in the
   * instance's format and stores through the width-checked setter; `UInt` does the same unsigned,
   * which corrects the setter as written (`UIntStoredAsWritten`); `Float` stores the float layout (with the
   * exponent range check); `Buffer` stores `BitVector(value)` unchecked: a bit list as is, an
   * integer as that many zeros, and anything else raises.
   */
  function StoredByValue(c: BitTypeClass, fmt: IntCodec.IntFormat, v: Value): (r: Result<seq<Bit>>)
    ensures c.UIntClass? && !v.IntVal? ==> r == Err(TypeError)
    ensures c.FloatClass? && !v.FloatVal? ==> r == Err(ValueError)
    ensures c.BufferClass? ==> (r.Ok? <==> !v.FloatVal?)
    ensures c.BufferClass? && v.IntVal? ==> r.Ok? && |r.value| == (if v.i < 0 then 0 else v.i)
  {
    match c
    case UIntClass(n) =>
      if !v.IntVal? then Err(TypeError)
      else
        var s :- IntCodec.ToBitstring(v.i, false, Some(n), None);
        CheckBits(c, s)
    case SIntClass(n) =>
      if !v.IntVal? then NonIntSigned(n, fmt)
      else
        var s :- IntCodec.ToBitstring(v.i, true, Some(n), Some(fmt));
        CheckBits(c, s)
    case FloatClass(e, m) =>
      FloatLayout.Encode(if v.FloatVal? then Some(v.f) else None, e, m)
    case BufferClass(_) =>
      match v
      case BitsVal(b) => Ok(b)
      case IntVal(k) => Ok(BitStrings.FromSize(k))
      case FloatVal(_) => Err(ValueError)
  }

  /**
   * `to_bitstring` handed something that is neither an `Int` nor an `int`: `value` is never
   * assigned, so after the width check and the format dispatch reading it raises
   * `UnboundLocalError`.
   */
  function NonIntSigned(n: nat, fmt: IntCodec.IntFormat): (r: Result<seq<Bit>>)
    ensures r.Err?
    ensures r.error == UnboundLocalError <==> n >= 1 && !fmt.Unsupported?
    ensures r.error != UnboundLocalError ==> r.error == ValueError
  {
    if n == 0 || fmt.Unsupported? then Err(ValueError) else Err(UnboundLocalError)
  }

  /**
   * The value setter of an `SInt` given a float or a bit list: `ValueError` for a zero width or
   * an unsupported format, `UnboundLocalError` otherwise; the integer setter never sees it.
   */
  lemma SIntNonIntValue(n: nat, fmt: IntCodec.IntFormat, v: Value)
    requires !v.IntVal?
    ensures StoredByValue(SIntClass(n), fmt, v).Err?
    ensures StoredByValue(SIntClass(n), fmt, v).error == (if n >= 1 && !fmt.Unsupported? then UnboundLocalError else ValueError)
  {
  }

  /**
   * The `value` getter. `UInt`: `int(to01, 2)`, which raises on no bits; `SInt`: `to_pyint` in the
   * instance's format; `Float`: the sign, exponent and mantissa fields; `Buffer`: the bits.
   */
  function ReadValue(c: BitTypeClass, fmt: IntCodec.IntFormat, bits: seq<Bit>): (r: Result<Reading>)
    ensures r.Ok? ==> (r.value.IntReading? <==> c.UIntClass? || c.SIntClass?)
    ensures r.Ok? ==> (r.value.BitsReading? <==> c.BufferClass?)
    ensures c.UIntClass? ==> (r.Ok? <==> bits != [])
    ensures c.UIntClass? && r.Ok? ==> 0 <= r.value.i < Pow2(|bits|)
    ensures c.BufferClass? ==> r == Ok(BitsReading(bits))
  {
    match c
    case UIntClass(_) => if bits == [] then Err(ValueError) else Ok(IntReading(Unsigned(bits)))
    case SIntClass(_) =>
      var i :- IntCodec.ToPyint(bits, true, fmt);
      Ok(IntReading(i))
    case FloatClass(e, m) =>
      var f :- FloatLayout.Decode(bits, e, m);
      Ok(FloatReading(f))
    case BufferClass(_) => Ok(BitsReading(bits))
  }

  /**
   * `source.value` as the Python object a constructor goes on to convert: the integer of a `UInt`
   * or `SInt`, the float a `Float` computes from its fields, the bit list of a `Buffer`. The
   * getter raises where `ReadValue` does.
   */
  function GetterValue(c: BitTypeClass, fmt: IntCodec.IntFormat, bits: seq<Bit>): (r: Result<Value>)
    ensures r.Ok? <==> ReadValue(c, fmt, bits).Ok?
    ensures r.Ok? && (c.UIntClass? || c.SIntClass?) ==> r.value == IntVal(ReadValue(c, fmt, bits).value.i)
    ensures c.BufferClass? ==> r == Ok(BitsVal(bits))
  {
    match c
    case FloatClass(e, m) =>
      var f :- FloatLayout.Decode(bits, e, m);
      Ok(FloatVal(FloatLayout.FieldsValue(f.sign, f.exponent, bits[1 + e..1 + e + m])))
    case _ =>
      var reading :- ReadValue(c, fmt, bits);
      Ok(if reading.IntReading? then IntVal(reading.i) else BitsVal(bits))
  }

  /**
   * The float read from a `Float` is the value of its fields: the sign field's sign, and
   * `2^exponent * (1 + mantissa / 2^m)` exactly, as an integer when the exponent is at least `m`
   * and otherwise as `m - exponent` fraction bits whose scaled value is `2^m + mantissa`.
   */
  lemma FloatGetterValue(e: ExponentWidth, m: nat, fmt: IntCodec.IntFormat, bits: seq<Bit>)
    requires ReadValue(FloatClass(e, m), fmt, bits).Ok?
    ensures var f := ReadValue(FloatClass(e, m), fmt, bits).value.fields;
      var v := GetterValue(FloatClass(e, m), fmt, bits).value;
      v.FloatVal? && v.f.Finite? && (v.f.negative <==> f.sign < 0) &&
      (f.exponent >= m ==> v.f.fraction == [] && v.f.integral == (Pow2(m) + f.mantissa) * Pow2(f.exponent - m)) &&
      (f.exponent < m ==>
        |v.f.fraction| == m - f.exponent && v.f.integral * Pow2(|v.f.fraction|) + Unsigned(v.f.fraction) == Pow2(m) + f.mantissa)
  {
    var f := FloatLayout.Decode(bits, e, m).value;
    FloatLayout.DecodedValue(bits, e, m);
    assert ReadValue(FloatClass(e, m), fmt, bits) == Ok(FloatReading(f));
    assert GetterValue(FloatClass(e, m), fmt, bits) == Ok(FloatVal(FloatLayout.FieldsValue(f.sign, f.exponent, bits[1 + e..1 + e + m])));
  }

  /** Every value the setters accept for a `UInt`, `SInt` or `Float` is stored at exactly `num_bits`. */
  lemma StoredWidth(c: BitTypeClass, fmt: IntCodec.IntFormat, v: Value)
    requires !c.BufferClass? && StoredByValue(c, fmt, v).Ok?
    ensures |StoredByValue(c, fmt, v).value| == NumBits(c)
  {
  }

  /** `UInt`: the setter accepts exactly `0 <= value < 2^n` (for `n >= 1`), and the getter gives the value back. */
  lemma UIntRoundTrip(n: nat, fmt: IntCodec.IntFormat, i: int)
    ensures StoredByValue(UIntClass(n), fmt, IntVal(i)).Ok? <==> n >= 1 && 0 <= i < Pow2(n)
    ensures StoredByValue(UIntClass(n), fmt, IntVal(i)).Ok? ==>
      ReadValue(UIntClass(n), fmt, StoredByValue(UIntClass(n), fmt, IntVal(i)).value) == Ok(IntReading(i))
  {
    if n == 0 {
      IntCodec.ToBitstringRejectsNonPositiveWidth(i, false, 0, None);
    } else {
      UIntStored(n, fmt, i);
      if 0 <= i < Pow2(n) {
        UnsignedNatToBits(i, n);
        DivModUnique(i, Pow2(n), 0, i);
      }
    }
  }

  /** For `n >= 1` the `UInt` setter is the codec's unsigned encoding at width `n`. */
  lemma UIntStored(n: nat, fmt: IntCodec.IntFormat, i: int)
    requires n >= 1
    ensures StoredByValue(UIntClass(n), fmt, IntVal(i)) == IntCodec.UnsignedToBits(i, n)
  {
    assert IntCodec.ToBitstring(i, false, Some(n), None) == IntCodec.UnsignedToBits(i, n);
  }

  /**
   * `SInt`: the setter accepts exactly the values `n` bits hold in the instance's format, and the
   * getter gives the value back (a one-bit sign-magnitude field cannot be read at all).
   */
  lemma SIntRoundTrip(n: nat, fmt: IntCodec.IntFormat, i: int)
    ensures StoredByValue(SIntClass(n), fmt, IntVal(i)).Ok? <==> n >= 1 && IntCodec.InRange(i, n, true, fmt)
    ensures StoredByValue(SIntClass(n), fmt, IntVal(i)).Ok? && (fmt.SignMagnitude? ==> n >= 2) ==>
      ReadValue(SIntClass(n), fmt, StoredByValue(SIntClass(n), fmt, IntVal(i)).value) == Ok(IntReading(i))
  {
    if n >= 1 {
      IntCodec.ToBitstringSucceedsIffInRange(i, true, n, Some(fmt));
      if IntCodec.InRange(i, n, true, fmt) && (fmt.SignMagnitude? ==> n >= 2) {
        IntCodec.RoundTrip(i, true, n, fmt);
      }
    }
  }

  /** `Float`: what the setter stores reads back as the input's sign, normalised exponent and mantissa field. */
  lemma FloatRoundTrip(e: ExponentWidth, m: nat, fmt: IntCodec.IntFormat, f: FloatLayout.FloatInput, mant: seq<Bit>, exp: int)
    requires f.Finite? && FloatLayout.Normalize(BinDigits(f.integral), f.fraction) == Ok((mant, exp))
    requires StoredByValue(FloatClass(e, m), fmt, FloatVal(f)).Ok?
    ensures ReadValue(FloatClass(e, m), fmt, StoredByValue(FloatClass(e, m), fmt, FloatVal(f)).value)
      == Ok(FloatReading(FloatLayout.Fields(if f.negative then -1 else 1, exp, Unsigned(FloatLayout.MantissaField(mant, m)))))
  {
    var stored := StoredByValue(FloatClass(e, m), fmt, FloatVal(f)).value;
    FloatLayout.DecodeEncode(f.negative, f.integral, f.fraction, e, m, mant, exp, stored);
  }

  /** `Buffer`: the getter returns the bits themselves, and the value setter stores any bit list unchecked. */
  lemma BufferRoundTrip(n: nat, fmt: IntCodec.IntFormat, b: seq<Bit>)
    ensures StoredByValue(BufferClass(n), fmt, BitsVal(b)) == Ok(b)
    ensures ReadValue(BufferClass(n), fmt, b) == Ok(BitsReading(b))
  {
  }

  /**
   * As written, `UInt12(5)` (a `UInt` class without a struct letter) stores the three bits 101,
   * which the width-checked setter would refuse; the corrected setter stores the twelve bits
   * 000000000101.
   */
  lemma UIntSetterUnpadded()
    ensures UIntStoredAsWritten(IntVal(5)) == Ok([1, 0, 1])
    ensures CheckBits(UIntClass(12), [1, 0, 1]).Err?
    ensures StoredByValue(UIntClass(12), IntCodec.TwosComplement, IntVal(5)) == Ok(NatToBits(5, 12))
  {
    BinDigitsFive();
    IntCodec.ToBitstringSucceedsIffInRange(5, false, 12, None);
    assert Pow2(12) == 4096 by {
      assert Pow2(8) == 256;
      Pow2Add(8, 4);
    }
  }

  lemma BinDigitsFive()
    ensures BinDigits(5) == [1, 0, 1]
  {
    assert BitLength(5) == 3;
    assert NatToBits(5, 3) == [1, 0, 1] by {
      assert NatToBits(2, 2) == [1, 0] by {
        assert NatToBits(1, 1) == [1];
      }
    }
  }

  // ---------------------------------------------------------------------------
  // Construction
  // ---------------------------------------------------------------------------

  /** A value that already is of the class's `py_type`: `int`, `float` or a bit list (`BitVector`). */
  predicate IsPyType(c: BitTypeClass, v: Value)
  {
    match c
    case UIntClass(_) => v.IntVal?
    case SIntClass(_) => v.IntVal?
    case FloatClass(_, _) => v.FloatVal?
    case BufferClass(_) => v.BitsVal?
  }

  /**
   * `py_type(obj)`, the conversion the constructor applies to a source: `int` truncates a
   * float toward zero and raises on an infinity or a list; `float` takes an integer exactly and
   * raises on a list; `BitVector` takes a bit list as is, an integer as that many zeros, and
   * raises on a float. `None` stands for the raised exception.
   */
  function PyType(c: BitTypeClass, v: Value): (r: Option<Value>)
    ensures r.Some? ==> IsPyType(c, r.value)
    ensures IsPyType(c, v) ==> r == Some(v)
    ensures r.None? <==>
      (v.BitsVal? && !c.BufferClass?) || (v.FloatVal? && c.BufferClass?) ||
      (v.FloatVal? && (c.UIntClass? || c.SIntClass?) && (v.f.PosInf? || v.f.NegInf?))
  {
    match c
    case UIntClass(_) => IntOf(v)
    case SIntClass(_) => IntOf(v)
    case FloatClass(_, _) =>
      (match v
       case IntVal(i) => Some(FloatVal(if i == 0 then FloatLayout.Zero(false) else FloatLayout.Finite(i < 0, Abs(i), [])))
       case FloatVal(_) => Some(v)
       case BitsVal(_) => None)
    case BufferClass(_) =>
      (match v
       case IntVal(k) => Some(BitsVal(BitStrings.FromSize(k)))
       case FloatVal(_) => None
       case BitsVal(_) => Some(v))
  }

  /** `int(obj)`. */
  function IntOf(v: Value): Option<Value>
  {
    match v
    case IntVal(_) => Some(v)
    case FloatVal(f) =>
      (match f
       case Zero(_) => Some(IntVal(0))
       case Finite(negative, integral, _) =>
         var magnitude: int := integral;
         Some(IntVal(if negative then -magnitude else magnitude))
       case _ => None)
    case BitsVal(_) => None
  }

  /**
   * `int` keeps the integral part of a finite float and drops its fraction: the result has the
   * float's sign (or is zero) and the magnitude of its integral part.
   */
  lemma IntTruncates(c: BitTypeClass, negative: bool, integral: nat, fraction: seq<Bit>)
    requires c.UIntClass? || c.SIntClass?
    ensures var r := PyType(c, FloatVal(FloatLayout.Finite(negative, integral, fraction)));
      r.Some? && Abs(r.value.i) == integral && (r.value.i < 0 <==> negative && integral > 0)
  {
  }

  /** `float(n)` followed by `int(...)` gives `n` back. */
  lemma IntOfFloatOfInt(e: ExponentWidth, m: nat, n: nat, i: int)
    requires PyType(FloatClass(e, m), IntVal(i)).Some?
    ensures PyType(UIntClass(n), PyType(FloatClass(e, m), IntVal(i)).value) == Some(IntVal(i))
  {
  }

  /** Converting twice is converting once. */
  lemma PyTypeIdempotent(c: BitTypeClass, v: Value)
    requires PyType(c, v).Some?
    ensures PyType(c, PyType(c, v).value) == PyType(c, v)
  {
  }

  /**
   * The constructor's `source`: another bit value (its value, to be converted with this class's
   * `py_type`, and its endianness), a `BitVector`, or any other object (again converted with
   * `py_type`).
   */
  datatype Source =
    | BitTypeSource(obj: Value, sourceEndianness: Endianness)
    | BitVectorSource(bits: seq<Bit>)
    | PlainSource(obj: Value)

  /**
   * Resolving `source`: a bit value or plain object is converted with `py_type` and replaces
   * `value` (a failed conversion raises `ValueError`), a `BitVector` replaces `bits`; a bit-value
   * source lends its endianness under "source_else_big", and what is still "source_else_big"
   * becomes big.
   */
  function Resolve(c: BitTypeClass, source: Option<Source>, value: Option<Value>, bits: Option<seq<Bit>>, arg: EndiannessArg)
    : (r: Result<(Option<Value>, Option<seq<Bit>>, Endianness)>)
    ensures r.Err? <==> source.Some? && !source.value.BitVectorSource? && PyType(c, source.value.obj).None?
    ensures r.Err? ==> r.error == ValueError
    ensures r.Ok? && source.Some? && !source.value.BitVectorSource? ==> r.value.0 == PyType(c, source.value.obj)
    ensures r.Ok? && arg == BigArg ==> r.value.2 == Big
    ensures r.Ok? && arg == LittleArg ==> r.value.2 == Little
    ensures r.Ok? && arg == SourceElseBig ==>
      r.value.2 == (if source.Some? && source.value.BitTypeSource? then source.value.sourceEndianness else Big)
  {
    var fixedEnd := if arg == LittleArg then Little else Big;
    match source
    case None => Ok((value, bits, fixedEnd))
    case Some(BitTypeSource(obj, end)) =>
      var converted := PyType(c, obj);
      if converted.None? then Err(ValueError)
      else Ok((converted, bits, if arg == SourceElseBig then end else fixedEnd))
    case Some(BitVectorSource(b)) => Ok((value, Some(b), fixedEnd))
    case Some(PlainSource(obj)) =>
      var converted := PyType(c, obj);
      if converted.None? then Err(ValueError) else Ok((converted, bits, fixedEnd))
  }

  /**
   * `__init__`: resolve the source, demand exactly one of value and bits (`ValueError`
   * otherwise), then store through the value setter or the width-checked bits setter. The result
   * is the stored bits and the endianness.
   */
  function Construct(c: BitTypeClass, fmt: IntCodec.IntFormat, source: Option<Source>, value: Option<Value>,
                     bits: Option<seq<Bit>>, arg: EndiannessArg): (r: Result<(seq<Bit>, Endianness)>)
    ensures value.Some? && bits.Some? ==> r == Err(ValueError)
    ensures source.None? && value.None? && bits.None? ==> r == Err(ValueError)
    ensures r.Ok? && !c.BufferClass? ==> |r.value.0| == NumBits(c)
    ensures r.Ok? && arg == LittleArg ==> r.value.1 == Little
  {
    var (v, b, end) :- Resolve(c, source, value, bits, arg);
    if v.None? && b.None? then Err(ValueError)
    else if v.Some? && b.Some? then Err(ValueError)
    else
      var stored :- Populate(c, fmt, v, b);
      Ok((stored, end))
  }

  /** The last step of `__init__`: the value setter when there is a value, otherwise the bits setter. */
  function Populate(c: BitTypeClass, fmt: IntCodec.IntFormat, v: Option<Value>, b: Option<seq<Bit>>): Result<seq<Bit>>
    requires v.Some? || b.Some?
  {
    if v.Some? then StoredByValue(c, fmt, v.value) else CheckBits(c, b.value)
  }

  /** Exactly one of value and bits: with neither, or with both after resolving the source, construction raises `ValueError`. */
  lemma ConstructExactlyOne(c: BitTypeClass, fmt: IntCodec.IntFormat, source: Option<Source>, value: Option<Value>,
                            bits: Option<seq<Bit>>, arg: EndiannessArg)
    requires Resolve(c, source, value, bits, arg).Ok?
    ensures var (v, b, _) := Resolve(c, source, value, bits, arg).value;
      v.Some? != b.Some? || Construct(c, fmt, source, value, bits, arg) == Err(ValueError)
  {
  }

  /** A `BitVector` source takes the width-checked path: it is stored as is exactly when it has `num_bits` bits; the default endianness is big. */
  lemma ConstructFromBitVector(c: BitTypeClass, fmt: IntCodec.IntFormat, b: seq<Bit>, arg: EndiannessArg)
    ensures Construct(c, fmt, Some(BitVectorSource(b)), None, None, arg).Ok? <==> |b| == NumBits(c)
    ensures Construct(c, fmt, Some(BitVectorSource(b)), None, None, arg).Ok? ==>
      Construct(c, fmt, Some(BitVectorSource(b)), None, None, arg).value == (b, if arg == LittleArg then Little else Big)
  {
  }

  /** A bit-value source passes its converted value to the value setter and, under "source_else_big", its endianness. */
  lemma ConstructFromBitType(c: BitTypeClass, fmt: IntCodec.IntFormat, v: Value, end: Endianness)
    ensures var r := Construct(c, fmt, Some(BitTypeSource(v, end)), None, None, SourceElseBig);
      (r.Ok? <==> PyType(c, v).Some? && StoredByValue(c, fmt, PyType(c, v).value).Ok?) &&
      (r.Ok? ==> r.value == (StoredByValue(c, fmt, PyType(c, v).value).value, end))
  {
  }

  /**
   * A list source for a buffer goes through the unchecked value setter: a bit list of any length
   * is stored as is, whereas the same bits as a `BitVector` source are refused unless they have
   * `num_bits` bits.
   */
  lemma BufferListSourceUnchecked(n: nat, fmt: IntCodec.IntFormat, b: seq<Bit>)
    ensures Construct(BufferClass(n), fmt, Some(PlainSource(BitsVal(b))), None, None, SourceElseBig) == Ok((b, Big))
    ensures Construct(BufferClass(n), fmt, Some(BitVectorSource(b)), None, None, SourceElseBig).Ok? <==> |b| == n
  {
  }

  /** `from_bits(b)` is `cls(bits=b)`, and `to_bits` returns the stored bits: the round trip holds exactly at `num_bits` bits. */
  lemma FromBitsToBits(c: BitTypeClass, fmt: IntCodec.IntFormat, b: seq<Bit>)
    ensures Construct(c, fmt, None, None, Some(b), SourceElseBig).Ok? <==> |b| == NumBits(c)
    ensures Construct(c, fmt, None, None, Some(b), SourceElseBig).Ok? ==>
      Construct(c, fmt, None, None, Some(b), SourceElseBig).value.0 == b
  {
  }

  /** `SInt`'s `int_format`: the one asked for, else the configured global format. */
  function InstanceFormat(requested: Option<IntCodec.IntFormat>, configured: IntCodec.IntFormat): IntCodec.IntFormat
  {
    if requested.Some? then requested.value else configured
  }

  // ---------------------------------------------------------------------------
  // The object
  // ---------------------------------------------------------------------------

  /** A bit value: its class, its integer format (used by `SInt`), its bits and its endianness. */
  class BitType {
    const cls: BitTypeClass
    const intFormat: IntCodec.IntFormat
    var bits: seq<Bit>
    var endianness: Endianness

    /** The object before either setter has run; only `New` creates one. */
    constructor Init(c: BitTypeClass, fmt: IntCodec.IntFormat, end: Endianness)
      ensures cls == c && intFormat == fmt && endianness == end && bits == []
    {
      cls := c;
      intFormat := fmt;
      endianness := end;
      bits := [];
    }

    /** The `bits` setter. */
    method SetBits(b: seq<Bit>) returns (r: Result<()>)
      modifies this
      ensures r.Ok? <==> |b| == NumBits(cls)
      ensures r.Ok? ==> bits == b
      ensures r.Err? ==> r.error == ValueError && bits == old(bits)
      ensures endianness == old(endianness)
    {
      if |b| != NumBits(cls) {
        return Err(ValueError);
      }
      bits := b;
      return Ok(());
    }

    /** The `value` setter: `UInt` and `SInt` encode at `num_bits`, `Float` lays out the float, `Buffer` stores unchecked. */
    method SetValue(v: Value) returns (r: Result<()>)
      modifies this
      ensures r.Ok? <==> StoredByValue(cls, intFormat, v).Ok?
      ensures r.Ok? ==> bits == StoredByValue(cls, intFormat, v).value
      ensures r.Err? ==> r.error == StoredByValue(cls, intFormat, v).error && bits == old(bits)
      ensures endianness == old(endianness)
    {
      match cls {
        case UIntClass(n) =>
          if !v.IntVal? {
            return Err(TypeError);
          }
          var s := IntCodec.ToBitstring(v.i, false, Some(n), None);
          if s.Err? {
            return Err(s.error);
          }
          r := SetBits(s.value);
        case SIntClass(n) =>
          if !v.IntVal? {
            return Err(NonIntSigned(n, intFormat).error);
          }
          var s := IntCodec.ToBitstring(v.i, true, Some(n), Some(intFormat));
          if s.Err? {
            return Err(s.error);
          }
          r := SetBits(s.value);
        case FloatClass(e, m) =>
          var s := FloatLayout.Encode(if v.FloatVal? then Some(v.f) else None, e, m);
          if s.Err? {
            return Err(s.error);
          }
          r := SetBits(s.value);
        case BufferClass(_) =>
          match v {
            case BitsVal(b) => bits := b;
            case IntVal(k) => bits := BitStrings.FromSize(k);
            case FloatVal(_) => return Err(ValueError);
          }
          r := Ok(());
      }
    }

    /** The `value` getter. */
    function Value(): Result<Reading>
      reads this
    {
      ReadValue(cls, intFormat, bits)
    }

    /** `__bytes__`. */
    function Bytes(): seq<Byte>
      reads this
    {
      ToBytes(bits, endianness)
    }
  }

  /** `__init__`, for a class, an integer format, a source, a value, bits and an endianness argument. */
  method New(c: BitTypeClass, fmt: IntCodec.IntFormat, source: Option<Source>, value: Option<Value>,
             bits: Option<seq<Bit>>, arg: EndiannessArg) returns (r: Result<BitType>)
    ensures r.Ok? <==> Construct(c, fmt, source, value, bits, arg).Ok?
    ensures r.Err? ==> r.error == Construct(c, fmt, source, value, bits, arg).error
    ensures r.Ok? ==> fresh(r.value) && r.value.cls == c && r.value.intFormat == fmt
    ensures r.Ok? ==> (r.value.bits, r.value.endianness) == Construct(c, fmt, source, value, bits, arg).value
  {
    var resolved := Resolve(c, source, value, bits, arg);
    if resolved.Err? {
      return Err(resolved.error);
    }
    var (v, b, end) := resolved.value;
    if v.None? && b.None? {
      return Err(ValueError);
    } else if v.Some? && b.Some? {
      return Err(ValueError);
    }
    r := Populated(c, fmt, v, b, end);
  }

  /** A fresh object with the given endianness, filled in by the value setter or the bits setter. */
  method Populated(c: BitTypeClass, fmt: IntCodec.IntFormat, v: Option<Value>, b: Option<seq<Bit>>, end: Endianness)
    returns (r: Result<BitType>)
    requires v.Some? || b.Some?
    ensures r.Ok? <==> Populate(c, fmt, v, b).Ok?
    ensures r.Err? ==> r.error == Populate(c, fmt, v, b).error
    ensures r.Ok? ==> fresh(r.value) && r.value.cls == c && r.value.intFormat == fmt
    ensures r.Ok? ==> r.value.bits == Populate(c, fmt, v, b).value && r.value.endianness == end
  {
    var o := new BitType.Init(c, fmt, end);
    var outcome: Result<()>;
    if v.Some? {
      outcome := o.SetValue(v.value);
    } else {
      outcome := o.SetBits(b.value);
    }
    if outcome.Err? {
      return Err(outcome.error);
    }
    return Ok(o);
  }

  /** `bytes_to_bittype(bs, T)`: `T(bits=BitVector(bs))`, eight bits per byte. */
  method BytesToBitType(bs: seq<Byte>, c: BitTypeClass, fmt: IntCodec.IntFormat) returns (r: Result<BitType>)
    ensures r.Ok? <==> 8 * |bs| == NumBits(c)
    ensures r.Err? ==> r.error == ValueError
    ensures r.Ok? ==> fresh(r.value) && r.value.bits == LegacyBits.BytesToBits(bs) && r.value.endianness == Big
  {
    r := New(c, fmt, None, None, Some(LegacyBits.BytesToBits(bs)), SourceElseBig);
  }

  // ---------------------------------------------------------------------------
  // __bytes__, equality, packing format
  // ---------------------------------------------------------------------------

  /** `__bytes__`: `bytes(bits)` (zero-padded on the right to whole bytes), the whole buffer reversed for little endian. */
  function ToBytes(bits: seq<Bit>, end: Endianness): (r: seq<Byte>)
    ensures |r| == (|bits| + 7) / 8
  {
    if end == Big then BitVectors.ToBytesPadded(bits) else BitVectors.ReverseBytes(BitVectors.ToBytesPadded(bits))
  }

  /** The little-endian bytes are the big-endian bytes in reverse order, and the other way round. */
  lemma LittleIsReversedBig(bits: seq<Bit>)
    ensures ToBytes(bits, Little) == BitVectors.ReverseBytes(ToBytes(bits, Big))
    ensures ToBytes(bits, Big) == BitVectors.ReverseBytes(ToBytes(bits, Little))
  {
    var big := ToBytes(bits, Big);
    assert BitVectors.ReverseBytes(BitVectors.ReverseBytes(big)) == big;
  }

  /** Whole bytes read back as bits give the bits they were packed from. */
  lemma {:induction false} BitsOfPackedBytes(s: seq<Bit>)
    requires |s| % 8 == 0
    ensures LegacyBits.BytesToBits(BitVectors.PackBytes(s)) == s
    decreases |s|
  {
    if s != [] {
      var head, tail := s[..8], s[8..];
      BitVectors.PackBytesUnfold(s, 8, head, tail);
      var packed := BitVectors.PackBytes(s);
      assert packed[0] == Unsigned(head) && packed[1..] == BitVectors.PackBytes(tail);
      BitsOfPackedBytes(tail);
      NatToBitsOfUnsigned(head);
      assert s == head + tail;
    }
  }

  /**
   * A value of whole bytes survives `bytes_to_bittype(bytes(x), T)`: big endian directly, little
   * endian once the bytes are put back in big-endian order.
   */
  lemma BytesRoundTrip(bits: seq<Bit>)
    requires |bits| % 8 == 0
    ensures LegacyBits.BytesToBits(ToBytes(bits, Big)) == bits
    ensures LegacyBits.BytesToBits(BitVectors.ReverseBytes(ToBytes(bits, Little))) == bits
  {
    BitVectors.ToBytesPaddedAligned(bits);
    BitsOfPackedBytes(bits);
    LittleIsReversedBig(bits);
  }

  /** The other operand of `==`: another object of the same class (its value, or the error reading it), or any other value. */
  datatype Other = SameClass(otherValue: Result<Reading>) | OtherValue(v: Reading)

  /** `__eq__`: the same class compares values; anything else is compared with this object's value. */
  function Equals(selfValue: Result<Reading>, other: Other): (r: Result<bool>)
    ensures r.Err? <==> selfValue.Err? || (other.SameClass? && other.otherValue.Err?)
    ensures r.Ok? && other.SameClass? ==> (r.value <==> selfValue.value == other.otherValue.value)
    ensures r.Ok? && other.OtherValue? ==> (r.value <==> selfValue.value == other.v)
  {
    if selfValue.Err? then Err(selfValue.error)
    else match other
      case SameClass(ov) => if ov.Err? then Err(ov.error) else Ok(selfValue.value == ov.value)
      case OtherValue(v) => Ok(selfValue.value == v)
  }

  /** `__ne__`: the negation of `__eq__`. */
  function NotEquals(selfValue: Result<Reading>, other: Other): (r: Result<bool>)
    ensures r.Ok? <==> Equals(selfValue, other).Ok?
    ensures r.Ok? ==> r.value == !Equals(selfValue, other).value
  {
    var eq :- Equals(selfValue, other);
    Ok(!eq)
  }

  /** Equality between objects of one class is symmetric. */
  lemma EqualsSymmetric(a: Result<Reading>, b: Result<Reading>)
    requires a.Ok? && b.Ok?
    ensures Equals(a, SameClass(b)) == Equals(b, SameClass(a))
  {
  }

  /**
   * Equality compares values, not bits: sign-magnitude `SInt4` +0 (0000) and -0 (1000) differ in
   * their bits and are equal.
   */
  lemma SignedZerosEqual()
    ensures var f := IntCodec.SignMagnitude;
      Equals(ReadValue(SIntClass(4), f, [0, 0, 0, 0]), SameClass(ReadValue(SIntClass(4), f, [1, 0, 0, 0]))) == Ok(true)
  {
    var z: seq<Bit> := [0, 0, 0, 0];
    var nz: seq<Bit> := [1, 0, 0, 0];
    assert z[1..] == nz[1..] == [0, 0, 0];
    UnsignedLeadingZeros(3, []);
    assert Repeat(0, 3) + [] == [0, 0, 0];
  }

  /** `packing_format`: '<' for little endian or '>' for big endian, then the class's struct letter. */
  function PackingFormat(letter: char, end: Endianness): (r: string)
    ensures |r| == 2 && r[1] == letter
    ensures r[0] == '<' <==> end == Little
    ensures r[0] == '>' <==> end == Big
  {
    (if end == Little then "<" else ">") + [letter]
  }

  // ---------------------------------------------------------------------------
  // skip_struct_packing
  // ---------------------------------------------------------------------------

  /**
   * `skip_struct_packing` of a struct-packed `SInt` as written: the fixed `SInt8`/`16`/`32`/`64`
   * consult the global configured format, the `specialize`d ones the instance's own format.
   */
  function SkipStructPackingAsWritten(fixedSubclass: bool, instanceFormat: IntCodec.IntFormat, configured: IntCodec.IntFormat): (r: bool)
    ensures !fixedSubclass ==> r == SkipStructPacking(instanceFormat)
    ensures r != SkipStructPacking(instanceFormat) ==>
      fixedSubclass && (configured == IntCodec.TwosComplement) != (instanceFormat == IntCodec.TwosComplement)
  {
    if fixedSubclass then configured != IntCodec.TwosComplement else instanceFormat != IntCodec.TwosComplement
  }

  /** The evident intent: struct packing (two's complement only) is skipped whenever the instance's format is not two's complement. */
  function SkipStructPacking(instanceFormat: IntCodec.IntFormat): (r: bool)
    ensures !r ==> instanceFormat == IntCodec.TwosComplement
  {
    instanceFormat != IntCodec.TwosComplement
  }

  /** The two agree for the specialised classes, and for the fixed ones whenever the instance uses the configured format. */
  lemma SkipStructPackingAgrees(fixedSubclass: bool, instanceFormat: IntCodec.IntFormat, configured: IntCodec.IntFormat)
    ensures !fixedSubclass || instanceFormat == configured ==>
      SkipStructPackingAsWritten(fixedSubclass, instanceFormat, configured) == SkipStructPacking(instanceFormat)
  {
  }

  /** `struct.pack('b', v)` read back as bits: the 8-bit two's complement of `v`; out of range it raises. */
  function StructPackSignedByte(v: int): Result<seq<Bit>>
  {
    IntCodec.TwosComplementToBits(v, 8)
  }

  /**
   * As written, an `SInt8` whose own format is one's complement, under the default two's
   * complement configuration, does not skip struct packing, so -1 is stored as 11111111 (two's
   * complement) rather than its one's-complement form 11111110; the corrected rule skips.
   */
  lemma SInt8IgnoresInstanceFormat()
    ensures !SkipStructPackingAsWritten(true, IntCodec.OnesComplement, IntCodec.TwosComplement)
    ensures StructPackSignedByte(-1) == Ok(Repeat(1, 8))
    ensures StoredByValue(SIntClass(8), IntCodec.OnesComplement, IntVal(-1)) == Ok(Repeat(1, 7) + [0])
    ensures SkipStructPacking(IntCodec.OnesComplement)
  {
    assert Pow2(8) == 256 && Pow2(7) == 128;
    var t := IntCodec.TwosComplementToBits(-1, 8).value;
    assert Unsigned(t) == 255;
    NatToBitsOfUnsigned(t);
    AllOnes(8);
    UnsignedRepeat(1, 8);
    NatToBitsOfUnsigned(Repeat(1, 8));
    var o := StoredByValue(SIntClass(8), IntCodec.OnesComplement, IntVal(-1));
    IntCodec.ToBitstringSucceedsIffInRange(-1, true, 8, Some(IntCodec.OnesComplement));
    var ones := o.value;
    assert Unsigned(ones) == 254;
    NatToBitsOfUnsigned(ones);
    OnesMinusOne();
  }

  lemma AllOnes(n: nat)
    ensures Unsigned(Repeat(1, n)) == Pow2(n) - 1
  {
    UnsignedRepeat(1, n);
  }

  lemma OnesMinusOne()
    ensures NatToBits(254, 8) == Repeat(1, 7) + [0]
  {
    UnsignedAppend(Repeat(1, 7), [0]);
    UnsignedRepeat(1, 7);
    UnsignedSingle(0);
    assert Pow2(7) == 128 && Pow2(1) == 2;
    NatToBitsOfUnsigned(Repeat(1, 7) + [0]);
  }
}
