/**
 * The structural (de)serialiser. A dataclass record whose fields are declared with unit types
 * (BitType classes, native Python or ctypes types) or with nested records is written out as the
 * concatenation of its fields' bits in declaration order, and read back by checking the total
 * length and slicing field by field. A unit value is held as the bits of its own conversion,
 * which has exactly the unit's width; the conversion itself is not part of this module.
 */
module Aggregate {
  import opened BitSeq
  import opened Wrappers
  import IntCodec
  import BitTypes
  import Search
  import LegacyBitsObject
  import FloatLayout

  // ---------------------------------------------------------------------------
  // Declared types and their widths
  // ---------------------------------------------------------------------------

  /** A unit type: a BitType class, or a native (Python or ctypes) type, named by a tag, of a fixed width. */
  datatype UnitType = BitTypeUnit(cls: BitTypes.BitTypeClass) | NativeUnit(tag: nat, width: nat)

  /** The declared type of a field: a unit type, or a dataclass with its fields' types in declaration order. */
  datatype FieldType = UnitField(unit: UnitType) | RecordType(fields: seq<FieldType>)

  /** A BitType's `num_bits`, or a native type's configured width. */
  function UnitWidth(u: UnitType): nat
  {
    match u
    case BitTypeUnit(c) => BitTypes.NumBits(c)
    case NativeUnit(_, w) => w
  }

  /** The number of bits of a type: a unit's width, a record's the sum of its fields' widths. */
  function Width(t: FieldType): nat
    decreases t
  {
    match t
    case UnitField(u) => UnitWidth(u)
    case RecordType(fs) => SumWidths(fs)
  }

  function SumWidths(fs: seq<FieldType>): nat
    decreases fs
  {
    if fs == [] then 0 else Width(fs[0]) + SumWidths(fs[1..])
  }

  /** Widths add up over consecutive runs of fields. */
  lemma {:induction false} SumWidthsAppend(a: seq<FieldType>, b: seq<FieldType>)
    ensures SumWidths(a + b) == SumWidths(a) + SumWidths(b)
  {
    if a == [] {
      assert a + b == b;
    } else {
      assert (a + b)[1..] == a[1..] + b;
      SumWidthsAppend(a[1..], b);
    }
  }

  lemma SumWidthsSnoc(fs: seq<FieldType>, i: nat)
    requires i < |fs|
    ensures SumWidths(fs[..i + 1]) == SumWidths(fs[..i]) + Width(fs[i])
  {
    assert fs[..i + 1] == fs[..i] + [fs[i]];
    SumWidthsAppend(fs[..i], [fs[i]]);
    assert [fs[i]][1..] == [];
  }

  /** The unit types at the leaves of a type, nested records flattened, in declaration order. */
  function Leaves(t: FieldType): seq<UnitType>
    decreases t
  {
    match t
    case UnitField(u) => [u]
    case RecordType(fs) => LeavesOf(fs)
  }

  function LeavesOf(fs: seq<FieldType>): seq<UnitType>
    decreases fs
  {
    if fs == [] then [] else Leaves(fs[0]) + LeavesOf(fs[1..])
  }

  /** The widths of a run of unit types, added up. */
  function UnitsWidth(us: seq<UnitType>): nat
  {
    if us == [] then 0 else UnitWidth(us[0]) + UnitsWidth(us[1..])
  }

  lemma {:induction false} UnitsWidthAppend(a: seq<UnitType>, b: seq<UnitType>)
    ensures UnitsWidth(a + b) == UnitsWidth(a) + UnitsWidth(b)
  {
    if a == [] {
      assert a + b == b;
    } else {
      assert (a + b)[1..] == a[1..] + b;
      UnitsWidthAppend(a[1..], b);
    }
  }

  /** A type's width is the sum of the widths of the unit types at its leaves, however deeply the records nest. */
  lemma {:induction false} WidthIsLeafSum(t: FieldType)
    ensures Width(t) == UnitsWidth(Leaves(t))
    decreases t
  {
    match t
    case UnitField(u) =>
      assert [u][1..] == [];
    case RecordType(fs) =>
      SumWidthsIsLeafSum(fs);
  }

  lemma {:induction false} SumWidthsIsLeafSum(fs: seq<FieldType>)
    ensures SumWidths(fs) == UnitsWidth(LeavesOf(fs))
    decreases fs
  {
    if fs != [] {
      WidthIsLeafSum(fs[0]);
      SumWidthsIsLeafSum(fs[1..]);
      UnitsWidthAppend(Leaves(fs[0]), LeavesOf(fs[1..]));
    }
  }

  /**
   * `count_bits_in_unit_type`: a unit's width, or for a dataclass the sum accumulated field by
   * field, recursing into nested dataclasses.
   */
  method CountBitsInUnitType(t: FieldType) returns (n: nat)
    ensures n == Width(t)
    decreases t
  {
    match t
    case UnitField(u) =>
      n := UnitWidth(u);
    case RecordType(fs) =>
      n := 0;
      for i := 0 to |fs|
        invariant n == SumWidths(fs[..i])
      {
        assert fs[i] in fs;
        var w := CountBitsInUnitType(fs[i]);
        SumWidthsSnoc(fs, i);
        n := n + w;
      }
      assert fs[..|fs|] == fs;
  }

  /** `count_bits_in_aggregate_type`: a unit type is counted directly, a record field by field. */
  method CountBitsInAggregateType(t: FieldType) returns (n: nat)
    ensures n == Width(t)
  {
    if t.UnitField? {
      n := CountBitsInUnitType(t);
      return;
    }
    var fs := t.fields;
    n := 0;
    for i := 0 to |fs|
      invariant n == SumWidths(fs[..i])
    {
      var w := CountBitsInUnitType(fs[i]);
      SumWidthsSnoc(fs, i);
      n := n + w;
    }
    assert fs[..|fs|] == fs;
  }

  // ---------------------------------------------------------------------------
  // Values
  // ---------------------------------------------------------------------------

  /** A value handed to the serialiser. */
  datatype Datum =
    | Instance(unit: UnitType, bits: seq<Bit>)  // an instance of a unit type, held as the bits of its conversion
    | Record(fields: seq<Field>)                // a dataclass instance
    | Items(items: seq<Datum>)                  // any other iterable
    | Plain(v: BitTypes.Value)                  // a plain Python value stored where a BitType is declared
    | Unconvertible                             // an object matching no branch

  /** A dataclass field: its declared type and the value the instance holds. */
  datatype Field = Field(declared: FieldType, value: Datum)

  /**
   * What the aggregate code calls but does not define: the configured signed-integer format that
   * BitType constructors use, and `pytype_to_bits` for a plain value.
   */
  datatype Env = Env(config: IntCodec.IntFormat, native: BitTypes.Value -> seq<Bit>)

  /** The declared types of a dataclass's fields, in order. */
  function Declared(fields: seq<Field>): (r: seq<FieldType>)
    ensures |r| == |fields|
    ensures forall i :: 0 <= i < |fields| ==> r[i] == fields[i].declared
  {
    seq(|fields|, i requires 0 <= i < |fields| => fields[i].declared)
  }

  /** The values a dataclass instance holds, in field order. */
  function Values(fields: seq<Field>): (r: seq<Datum>)
    ensures |r| == |fields|
    ensures forall i :: 0 <= i < |fields| ==> r[i] == fields[i].value
  {
    seq(|fields|, i requires 0 <= i < |fields| => fields[i].value)
  }

  /** `aggregate_type(*read_fields)`: a dataclass instance built from values in field order. */
  function Rebuilt(fs: seq<FieldType>, values: seq<Datum>): (r: seq<Field>)
    requires |values| == |fs|
    ensures |r| == |fs|
    ensures forall i :: 0 <= i < |fs| ==> r[i] == Field(fs[i], values[i])
  {
    seq(|fs|, i requires 0 <= i < |fs| => Field(fs[i], values[i]))
  }

  /** `isinstance(value, declared)`: an instance of the same unit type, or a record of the same field types. */
  predicate IsInstance(d: Datum, t: FieldType)
  {
    match t
    case UnitField(u) => d.Instance? && d.unit == u
    case RecordType(fs) => d.Record? && Declared(d.fields) == fs
  }

  /**
   * What a BitType constructor receives as `source` when a value is cast: a plain object as it is,
   * or another BitType instance with its `value` (the getter raising is caught and re-raised as
   * `ValueError`, here `None`). Anything else (a record, an iterable of items, a native instance, an
   * unconvertible object) makes `py_type(source)` raise, again reported as `ValueError`.
   */
  function SourceOf(env: Env, d: Datum): (r: Option<BitTypes.Source>)
    ensures d.Plain? ==> r == Some(BitTypes.PlainSource(d.v))
    ensures d.Instance? && d.unit.BitTypeUnit? ==>
      (r.Some? <==> BitTypes.ReadValue(d.unit.cls, env.config, d.bits).Ok?)
    ensures r.Some? ==> !r.value.BitVectorSource?
    ensures r.Some? ==> d.Plain? || (d.Instance? && d.unit.BitTypeUnit?)
  {
    match d
    case Plain(v) => Some(BitTypes.PlainSource(v))
    case Instance(BitTypeUnit(c), bits) =>
      (match BitTypes.GetterValue(c, env.config, bits)
       case Ok(v) => Some(BitTypes.BitTypeSource(v, BitTypes.Big))
       case Err(_) => None)
    case _ => None
  }

  /** `py_type(source)` or `py_type(source.value)` for the class `c`; `None` where the constructor raises `ValueError`. */
  function Converted(env: Env, d: Datum, c: BitTypes.BitTypeClass): Option<BitTypes.Value>
  {
    match SourceOf(env, d)
    case Some(source) => BitTypes.PyType(c, source.obj)
    case None => None
  }

  /**
   * `type_(obj)` for a value that is not an instance of the declared type. A BitType class's
   * constructor is called with `source=obj`: a plain object, or the value of another BitType
   * instance, is converted with the class's `py_type` and stored by the value setter; a failed
   * conversion, and any other object, raises `ValueError`. A native type or a record is not
   * constructed here and raises `TypeError`.
   */
  function Cast(env: Env, d: Datum, t: FieldType): (r: Result<Datum>)
    ensures r.Ok? ==> t.UnitField? && t.unit.BitTypeUnit? && r.value.Instance? && r.value.unit == t.unit
    ensures !(t.UnitField? && t.unit.BitTypeUnit?) ==> r == Err(TypeError)
    ensures t.UnitField? && t.unit.BitTypeUnit? && Converted(env, d, t.unit.cls).None? ==> r == Err(ValueError)
    ensures t.UnitField? && t.unit.BitTypeUnit? && Converted(env, d, t.unit.cls).Some? ==>
      var stored := BitTypes.StoredByValue(t.unit.cls, env.config, Converted(env, d, t.unit.cls).value);
      (r.Ok? <==> stored.Ok?) && (r.Ok? ==> r.value.bits == stored.value) && (r.Err? ==> r.error == stored.error)
  {
    if t.UnitField? && t.unit.BitTypeUnit? then
      match SourceOf(env, d)
      case None => Err(ValueError)
      case Some(source) =>
        var made :- BitTypes.Construct(t.unit.cls, env.config, Some(source), None, None, BitTypes.SourceElseBig);
        Ok(Instance(t.unit, made.0))
    else
      Err(TypeError)
  }

  /** `trycast` in the current serialiser: an instance is kept, anything else is cast, and a failed cast raises. */
  function TryCast(env: Env, d: Datum, t: FieldType): (r: Result<Datum>)
    ensures IsInstance(d, t) ==> r == Ok(d)
    ensures r.Ok? ==> IsInstance(r.value, t)
  {
    if IsInstance(d, t) then Ok(d) else Cast(env, d, t)
  }

  /**
   * `type_(obj)` in the legacy serialiser, whose unit classes are YTypes, for a plain value that
   * reaches the constructor's last step: it is converted with the class's value type (`TypeError`
   * when that fails) and stored as the BitType class of the same width stores it. The branches the
   * constructor tries first (another YType, `Bits`, bytes, an integer or iterable handed to
   * `from_bits`, a byte-convertible object) are not modelled: every non-plain value raises
   * `TypeError` here, and a plain value is always converted with the value type.
   */
  function LegacyCast(env: Env, d: Datum, t: FieldType): (r: Result<Datum>)
    ensures r.Ok? ==> t.UnitField? && r.value.Instance? && r.value.unit == t.unit
  {
    if t.UnitField? && t.unit.BitTypeUnit? && d.Plain? then
      var converted := BitTypes.PyType(t.unit.cls, d.v);
      if converted.None? then Err(TypeError)
      else
        var made :- BitTypes.Construct(t.unit.cls, env.config, None, converted, None, BitTypes.SourceElseBig);
        Ok(Instance(t.unit, made.0))
    else
      Err(TypeError)
  }

  /**
   * On plain values the two casts differ only in the error of a failed conversion: the BitType
   * constructor raises `ValueError`, the YType constructor `TypeError`. Any other value the legacy
   * cast refuses with `TypeError`, whereas the current one converts another BitType instance's value.
   */
  lemma LegacyCastAgrees(env: Env, d: Datum, t: FieldType)
    ensures d.Plain? && t.UnitField? && t.unit.BitTypeUnit? && BitTypes.PyType(t.unit.cls, d.v).None? ==>
      Cast(env, d, t) == Err(ValueError) && LegacyCast(env, d, t) == Err(TypeError)
    ensures d.Plain? && !(t.UnitField? && t.unit.BitTypeUnit? && BitTypes.PyType(t.unit.cls, d.v).None?) ==>
      LegacyCast(env, d, t) == Cast(env, d, t)
    ensures !d.Plain? ==> LegacyCast(env, d, t) == Err(TypeError)
  {
  }

  /**
   * `trycast` in the legacy serialiser: a cast that raises `TypeError` leaves the value as it was.
   * A value that is already an instance of its declared type is taken to cast to itself.
   */
  function LegacyTryCast(env: Env, d: Datum, t: FieldType): (r: Result<Datum>)
    ensures !IsInstance(d, t) && LegacyCast(env, d, t) == Err(TypeError) ==> r == Ok(d)
    ensures r.Err? ==> r.error != TypeError && r == LegacyCast(env, d, t)
  {
    if IsInstance(d, t) then Ok(d)
    else
      match LegacyCast(env, d, t)
      case Err(TypeError) => Ok(d)
      case other => other
  }

  /** A value and a type match exactly: an instance of it with every unit at its exact width. */
  predicate Conforms(d: Datum, t: FieldType)
    decreases t
  {
    match t
    case UnitField(u) => d.Instance? && d.unit == u && |d.bits| == UnitWidth(u)
    case RecordType(fs) =>
      d.Record? && Declared(d.fields) == fs &&
      forall i :: 0 <= i < |fs| ==> Conforms(d.fields[i].value, fs[i])
  }

  /** `Ok(p + rest)` when `r` is `Ok(rest)`, the error otherwise. */
  function Prepend<T>(p: seq<T>, r: Result<seq<T>>): Result<seq<T>>
  {
    if r.Ok? then Ok(p + r.value) else r
  }

  lemma PrependNil<T>(r: Result<seq<T>>)
    ensures Prepend([], r) == r
  {
    if r.Ok? {
      assert [] + r.value == r.value;
    }
  }

  lemma PrependEnd<T>(p: seq<T>)
    ensures Prepend(p, Ok([])) == Ok(p)
  {
    assert p + [] == p;
  }

  lemma PrependPrepend<T>(p: seq<T>, x: seq<T>, r: Result<seq<T>>)
    ensures Prepend(p, Prepend(x, r)) == Prepend(p + x, r)
  {
    if r.Ok? {
      assert p + (x + r.value) == (p + x) + r.value;
    }
  }

  // ---------------------------------------------------------------------------
  // Serialising (to_bits_aggregate)
  // ---------------------------------------------------------------------------

  /**
   * `to_bits_aggregate`: a unit instance gives its own bits; a dataclass casts every field to its
   * declared type, then joins the fields' bits with an empty separator; any other iterable gives
   * its items' bits one after another; anything else raises.
   */
  function Serialised(env: Env, d: Datum): (r: Result<seq<Bit>>)
    ensures d.Record? && CastFailure(env, d.fields).Some? ==> r == Err(CastFailure(env, d.fields).value)
    ensures d.Items? && d.items == [] ==> r == Ok([])
    ensures d.Unconvertible? ==> r == Err(Raised)
    decreases d
  {
    match d
    case Instance(_, bits) => Ok(bits)
    case Plain(v) => Ok(env.native(v))
    case Record(fields) =>
      var failure := CastFailure(env, fields);
      if failure.Some? then Err(failure.value)
      else
        var parts :- FieldsSerialised(env, fields);
        Ok(Search.JoinBits([], parts))
    case Items(items) => ItemsSerialised(env, items)
    case Unconvertible => Err(Raised)
  }

  /** The error of the first field whose `trycast` raises, in declaration order. */
  function CastFailure(env: Env, fields: seq<Field>): Option<Error>
  {
    if fields == [] then None
    else
      match TryCast(env, fields[0].value, fields[0].declared)
      case Err(e) => Some(e)
      case Ok(_) => CastFailure(env, fields[1..])
  }

  /** The bits of one field: an instance of its declared type is serialised, a cast value is a unit instance. */
  function FieldSerialised(env: Env, f: Field): Result<seq<Bit>>
    decreases f
  {
    if IsInstance(f.value, f.declared) then Serialised(env, f.value)
    else
      var c :- Cast(env, f.value, f.declared);
      Ok(c.bits)
  }

  function FieldsSerialised(env: Env, fields: seq<Field>): (r: Result<seq<seq<Bit>>>)
    ensures r.Ok? ==> |r.value| == |fields|
    decreases fields
  {
    if fields == [] then Ok([])
    else
      var b :- FieldSerialised(env, fields[0]);
      var rest :- FieldsSerialised(env, fields[1..]);
      Ok([b] + rest)
  }

  function ItemsSerialised(env: Env, items: seq<Datum>): Result<seq<Bit>>
    decreases items
  {
    if items == [] then Ok([])
    else
      var b :- Serialised(env, items[0]);
      var rest :- ItemsSerialised(env, items[1..]);
      Ok(b + rest)
  }

  /** A field's bits are the serialisation of its value after `trycast`. */
  lemma FieldIsCastValue(env: Env, f: Field)
    requires TryCast(env, f.value, f.declared).Ok?
    ensures FieldSerialised(env, f) == Serialised(env, TryCast(env, f.value, f.declared).value)
  {
  }

  /** Serialising an iterable is compositional: the items of `a + b` give `a`'s bits followed by `b`'s. */
  lemma {:induction false} ItemsAppend(env: Env, a: seq<Datum>, b: seq<Datum>)
    requires ItemsSerialised(env, a).Ok? && ItemsSerialised(env, b).Ok?
    ensures ItemsSerialised(env, a + b) == Ok(ItemsSerialised(env, a).value + ItemsSerialised(env, b).value)
  {
    if a != [] {
      var x := Serialised(env, a[0]).value;
      assert ItemsSerialised(env, a) == Ok(x + ItemsSerialised(env, a[1..]).value);
      ItemsAppend(env, a[1..], b);
      assert a + b == [a[0]] + (a[1..] + b);
      ItemsCons(env, a[0], a[1..] + b);
      assert x + (ItemsSerialised(env, a[1..]).value + ItemsSerialised(env, b).value)
          == (x + ItemsSerialised(env, a[1..]).value) + ItemsSerialised(env, b).value;
    } else {
      assert a + b == b;
      assert [] + ItemsSerialised(env, b).value == ItemsSerialised(env, b).value;
    }
  }

  lemma ItemsCons(env: Env, x: Datum, rest: seq<Datum>)
    requires Serialised(env, x).Ok? && ItemsSerialised(env, rest).Ok?
    ensures ItemsSerialised(env, [x] + rest) == Ok(Serialised(env, x).value + ItemsSerialised(env, rest).value)
  {
    assert ([x] + rest)[0] == x && ([x] + rest)[1..] == rest;
  }

  /** The method form of `to_bits_aggregate`, extending the result item by item and field by field. */
  method ToBitsAggregate(env: Env, d: Datum) returns (r: Result<seq<Bit>>)
    ensures r == Serialised(env, d)
    decreases d, 1
  {
    match d
    case Instance(_, bits) =>
      r := Ok(bits);
    case Plain(v) =>
      r := Ok(env.native(v));
    case Record(fields) =>
      var failure := CastFailure(env, fields);
      if failure.Some? {
        return Err(failure.value);
      }
      var parts := SerialiseFields(env, d, fields);
      if parts.Err? {
        return Err(parts.error);
      }
      r := Ok(Search.JoinBits([], parts.value));
    case Items(items) =>
      r := SerialiseItems(env, d, items);
    case Unconvertible =>
      r := Err(Raised);
  }

  /** The field loop of `to_bits_aggregate`: one bit sequence per field, in declaration order. */
  method SerialiseFields(env: Env, ghost whole: Datum, fields: seq<Field>) returns (r: Result<seq<seq<Bit>>>)
    requires whole == Record(fields)
    ensures r == FieldsSerialised(env, fields)
    decreases whole, 0
  {
    var parts: seq<seq<Bit>> := [];
    assert fields[0..] == fields;
    PrependNil(FieldsSerialised(env, fields));
    for i := 0 to |fields|
      invariant FieldsSerialised(env, fields) == Prepend(parts, FieldsSerialised(env, fields[i..]))
    {
      var f := fields[i];
      assert fields[i..][0] == f && fields[i..][1..] == fields[i + 1..];
      var b: Result<seq<Bit>>;
      if IsInstance(f.value, f.declared) {
        assert f in fields;
        b := ToBitsAggregate(env, f.value);
      } else {
        b := FieldSerialised(env, f);
      }
      if b.Err? {
        return Err(b.error);
      }
      PrependPrepend(parts, [b.value], FieldsSerialised(env, fields[i + 1..]));
      parts := parts + [b.value];
    }
    assert fields[|fields|..] == [];
    PrependEnd(parts);
    r := Ok(parts);
  }

  /** The item loop of `to_bits_aggregate` on an iterable: the items' bits concatenated. */
  method SerialiseItems(env: Env, ghost whole: Datum, items: seq<Datum>) returns (r: Result<seq<Bit>>)
    requires whole == Items(items)
    ensures r == ItemsSerialised(env, items)
    decreases whole, 0
  {
    var retBits: seq<Bit> := [];
    assert items[0..] == items;
    PrependNil(ItemsSerialised(env, items));
    for i := 0 to |items|
      invariant ItemsSerialised(env, items) == Prepend(retBits, ItemsSerialised(env, items[i..]))
    {
      assert items[i..][0] == items[i] && items[i..][1..] == items[i + 1..];
      assert items[i] in items;
      var b := ToBitsAggregate(env, items[i]);
      if b.Err? {
        return b;
      }
      PrependPrepend(retBits, b.value, ItemsSerialised(env, items[i + 1..]));
      retBits := retBits + b.value;
    }
    assert items[|items|..] == [];
    PrependEnd(retBits);
    r := Ok(retBits);
  }

  // ---------------------------------------------------------------------------
  // Deserialising (from_bits_individual, from_bits_aggregate)
  // ---------------------------------------------------------------------------

  /**
   * `from_bits_individual`: bits of exactly the unit's width become an instance of it (a BitType
   * through `cls(bits=...)`); any other length raises.
   */
  function FromBitsIndividual(env: Env, bits: seq<Bit>, u: UnitType): (r: Result<Datum>)
    ensures r.Ok? <==> |bits| == UnitWidth(u)
    ensures r.Ok? ==> r.value == Instance(u, bits)
    ensures r.Err? ==> r.error == Raised
  {
    if |bits| != UnitWidth(u) then Err(Raised)
    else
      match u
      case BitTypeUnit(c) =>
        (match BitTypes.Construct(c, env.config, None, None, Some(bits), BitTypes.SourceElseBig)
         case Ok(made) => Ok(Instance(u, made.0))
         case Err(e) => Err(e))
      case NativeUnit(_, _) =>
        Ok(Instance(u, bits))
  }

  /**
   * `from_bits_aggregate`: a unit type is read by `from_bits_individual`; a record first checks the
   * total length, then reads each field from the next slice of its width (Python slicing, which
   * clamps at the end) and builds the record from the values in order.
   */
  function Deserialised(env: Env, bits: seq<Bit>, t: FieldType): (r: Result<Datum>)
    ensures r.Ok? ==> |bits| == Width(t) && IsInstance(r.value, t)
    ensures r.Err? ==> r.error == Raised
    decreases t
  {
    match t
    case UnitField(u) => FromBitsIndividual(env, bits, u)
    case RecordType(fs) =>
      if |bits| != Width(t) then Err(Raised)
      else
        var values :- FieldsRead(env, bits, fs);
        Ok(Record(Rebuilt(fs, values)))
  }

  function FieldsRead(env: Env, bits: seq<Bit>, fs: seq<FieldType>): (r: Result<seq<Datum>>)
    ensures r.Ok? ==> |r.value| == |fs|
    ensures r.Err? ==> r.error == Raised
    decreases fs
  {
    if fs == [] then Ok([])
    else
      var cut := if Width(fs[0]) < |bits| then Width(fs[0]) else |bits|;
      var v :- Deserialised(env, bits[..cut], fs[0]);
      var rest :- FieldsRead(env, bits[cut..], fs[1..]);
      Ok([v] + rest)
  }

  /** Reading a record of the wrong total length raises, whatever its fields. */
  lemma LengthMismatchRaises(env: Env, bits: seq<Bit>, fs: seq<FieldType>)
    requires |bits| != SumWidths(fs)
    ensures Deserialised(env, bits, RecordType(fs)) == Err(Raised)
  {
  }

  /** The method form of `from_bits_aggregate`: count, check, then consume the bits field by field. */
  method FromBitsAggregate(env: Env, bits: seq<Bit>, t: FieldType) returns (r: Result<Datum>)
    ensures r == Deserialised(env, bits, t)
    decreases t
  {
    match t
    case UnitField(u) =>
      r := FromBitsIndividual(env, bits, u);
    case RecordType(fs) =>
      var sizeInBits := CountBitsInAggregateType(t);
      if |bits| != sizeInBits {
        return Err(Raised);
      }
      var readFields: seq<Datum> := [];
      var unitbits := bits;
      assert fs[0..] == fs;
      PrependNil(FieldsRead(env, bits, fs));
      for i := 0 to |fs|
        invariant |readFields| == i
        invariant FieldsRead(env, bits, fs) == Prepend(readFields, FieldsRead(env, unitbits, fs[i..]))
      {
        assert fs[i..][0] == fs[i] && fs[i..][1..] == fs[i + 1..];
        assert fs[i] in fs;
        var fieldSize := CountBitsInUnitType(fs[i]);
        var cut := if fieldSize < |unitbits| then fieldSize else |unitbits|;
        var fieldValue := FromBitsAggregate(env, unitbits[..cut], fs[i]);
        if fieldValue.Err? {
          return Err(fieldValue.error);
        }
        PrependPrepend(readFields, [fieldValue.value], FieldsRead(env, unitbits[cut..], fs[i + 1..]));
        readFields := readFields + [fieldValue.value];
        unitbits := unitbits[cut..];
      }
      assert fs[|fs|..] == [];
      PrependEnd(readFields);
      r := Ok(Record(Rebuilt(fs, readFields)));
  }

  // ---------------------------------------------------------------------------
  // The round trip
  // ---------------------------------------------------------------------------

  /** A conforming value is an instance of its type, so `trycast` keeps it. */
  lemma ConformsIsInstance(d: Datum, t: FieldType)
    requires Conforms(d, t)
    ensures IsInstance(d, t)
  {
  }

  /** Bits of the right width followed by anything: the first slice is exactly those bits. */
  lemma SliceOfConcat(b: seq<Bit>, rest: seq<Bit>, w: nat)
    requires |b| == w
    ensures (if w < |b + rest| then w else |b + rest|) == w
    ensures (b + rest)[..w] == b && (b + rest)[w..] == rest
  {
  }

  lemma ConcatCons(b: seq<Bit>, rest: seq<seq<Bit>>)
    ensures LegacyBitsObject.Concat([b] + rest) == b + LegacyBitsObject.Concat(rest)
  {
    assert ([b] + rest)[1..] == rest;
  }

  lemma ValuesCons(fields: seq<Field>)
    requires fields != []
    ensures Values(fields) == [fields[0].value] + Values(fields[1..])
  {
  }

  lemma DeclaredTail(fields: seq<Field>, fs: seq<FieldType>)
    requires Declared(fields) == fs && fields != []
    ensures Declared(fields[1..]) == fs[1..]
  {
  }

  /** The first step of reading fields: a first field of the right width is read from its own bits. */
  lemma FieldsReadCons(env: Env, b: seq<Bit>, restBits: seq<Bit>, fs: seq<FieldType>, v: Datum, values: seq<Datum>)
    requires fs != [] && |b| == Width(fs[0])
    requires Deserialised(env, b, fs[0]) == Ok(v)
    requires FieldsRead(env, restBits, fs[1..]) == Ok(values)
    ensures FieldsRead(env, b + restBits, fs) == Ok([v] + values)
  {
    SliceOfConcat(b, restBits, Width(fs[0]));
  }

  /**
   * Every field of a conforming record survives: the casts succeed, the fields' bits add up to the
   * record's width, and reading them back gives the fields' values in order.
   */
  lemma {:induction false} FieldsRoundTrip(env: Env, fields: seq<Field>, fs: seq<FieldType>)
    requires Declared(fields) == fs
    requires forall i :: 0 <= i < |fs| ==> Conforms(fields[i].value, fs[i])
    ensures CastFailure(env, fields) == None
    ensures FieldsSerialised(env, fields).Ok?
    ensures |LegacyBitsObject.Concat(FieldsSerialised(env, fields).value)| == SumWidths(fs)
    ensures FieldsRead(env, LegacyBitsObject.Concat(FieldsSerialised(env, fields).value), fs) == Ok(Values(fields))
    decreases fs
  {
    if fields != [] {
      var f := fields[0];
      RoundTrip(env, f.value, fs[0]);
      ConformsIsInstance(f.value, fs[0]);
      var b := Serialised(env, f.value).value;
      DeclaredTail(fields, fs);
      assert forall i :: 0 <= i < |fs[1..]| ==> Conforms(fields[1..][i].value, fs[1..][i]) by {
        forall i | 0 <= i < |fs[1..]|
          ensures Conforms(fields[1..][i].value, fs[1..][i])
        {
          assert fields[1..][i] == fields[i + 1] && fs[1..][i] == fs[i + 1];
        }
      }
      FieldsRoundTrip(env, fields[1..], fs[1..]);
      var rest := FieldsSerialised(env, fields[1..]).value;
      assert FieldsSerialised(env, fields) == Ok([b] + rest);
      ConcatCons(b, rest);
      FieldsReadCons(env, b, LegacyBitsObject.Concat(rest), fs, f.value, Values(fields[1..]));
      ValuesCons(fields);
    }
  }

  /**
   * Round trip: a value that conforms to its type serialises to exactly `Width(t)` bits, and
   * deserialising those bits as that type gives the value back, nested records included.
   */
  lemma {:induction false} RoundTrip(env: Env, d: Datum, t: FieldType)
    requires Conforms(d, t)
    ensures Serialised(env, d).Ok?
    ensures |Serialised(env, d).value| == Width(t)
    ensures Deserialised(env, Serialised(env, d).value, t) == Ok(d)
    decreases t
  {
    match t
    case UnitField(u) =>
    case RecordType(fs) =>
      var fields := d.fields;
      FieldsRoundTrip(env, fields, fs);
      var parts := FieldsSerialised(env, fields).value;
      LegacyBitsObject.ConcatIsJoin(parts);
      RecordReadBack(env, fields, fs, LegacyBitsObject.Concat(parts));
  }

  lemma RecordReadBack(env: Env, fields: seq<Field>, fs: seq<FieldType>, bits: seq<Bit>)
    requires Declared(fields) == fs
    requires |bits| == SumWidths(fs)
    requires FieldsRead(env, bits, fs) == Ok(Values(fields))
    ensures Deserialised(env, bits, RecordType(fs)) == Ok(Record(fields))
  {
    assert Rebuilt(fs, Values(fields)) == fields;
  }

  // ---------------------------------------------------------------------------
  // The legacy serialiser
  // ---------------------------------------------------------------------------

  /**
   * The legacy `to_bits_aggregate`: like the current one, but `trycast` keeps a value whose cast
   * raises `TypeError`, the fields are joined by `Bits().join`, an iterable fails on the missing
   * `Bits.extend` as soon as it has an item, and an object matching no branch gives no bits.
   */
  function LegacySerialised(env: Env, d: Datum): (r: Result<seq<Bit>>)
    ensures d.Items? ==> (r.Ok? <==> d.items == [])
    ensures d.Items? && d.items != [] ==> r == Err(AttributeError)
    ensures d.Unconvertible? ==> r == Ok([])
    decreases d
  {
    match d
    case Instance(_, bits) => Ok(bits)
    case Plain(v) => Ok(env.native(v))
    case Record(fields) =>
      var failure := LegacyCastFailure(env, fields);
      if failure.Some? then Err(failure.value)
      else
        var parts :- LegacyFieldsSerialised(env, fields);
        Ok(LegacyBitsObject.Concat(parts))
    case Items(items) => if items == [] then Ok([]) else Err(AttributeError)
    case Unconvertible => Ok([])
  }

  function LegacyCastFailure(env: Env, fields: seq<Field>): Option<Error>
  {
    if fields == [] then None
    else
      match LegacyTryCast(env, fields[0].value, fields[0].declared)
      case Err(e) => Some(e)
      case Ok(_) => LegacyCastFailure(env, fields[1..])
  }

  /** The bits of one field after the legacy `trycast`: a value left uncast is serialised as it is. */
  function LegacyFieldSerialised(env: Env, f: Field): Result<seq<Bit>>
    decreases f
  {
    if IsInstance(f.value, f.declared) then LegacySerialised(env, f.value)
    else
      match LegacyCast(env, f.value, f.declared)
      case Ok(c) => Ok(c.bits)
      case Err(e) => if e == TypeError then LegacySerialised(env, f.value) else Err(e)
  }

  function LegacyFieldsSerialised(env: Env, fields: seq<Field>): Result<seq<seq<Bit>>>
    decreases fields
  {
    if fields == [] then Ok([])
    else
      var b :- LegacyFieldSerialised(env, fields[0]);
      var rest :- LegacyFieldsSerialised(env, fields[1..]);
      Ok([b] + rest)
  }

  lemma {:induction false} LegacyFieldsAgree(env: Env, fields: seq<Field>, fs: seq<FieldType>)
    requires Declared(fields) == fs
    requires forall i :: 0 <= i < |fs| ==> Conforms(fields[i].value, fs[i])
    ensures LegacyCastFailure(env, fields) == None
    ensures LegacyFieldsSerialised(env, fields) == FieldsSerialised(env, fields)
    decreases fs
  {
    if fields != [] {
      var f := fields[0];
      LegacyAgrees(env, f.value, fs[0]);
      ConformsIsInstance(f.value, fs[0]);
      DeclaredTail(fields, fs);
      assert forall i :: 0 <= i < |fs[1..]| ==> Conforms(fields[1..][i].value, fs[1..][i]) by {
        forall i | 0 <= i < |fs[1..]|
          ensures Conforms(fields[1..][i].value, fs[1..][i])
        {
          assert fields[1..][i] == fields[i + 1] && fs[1..][i] == fs[i + 1];
        }
      }
      LegacyFieldsAgree(env, fields[1..], fs[1..]);
    }
  }

  /** On values that conform to their type, the legacy serialiser writes the same bits as the current one. */
  lemma {:induction false} LegacyAgrees(env: Env, d: Datum, t: FieldType)
    requires Conforms(d, t)
    ensures LegacySerialised(env, d) == Serialised(env, d)
    decreases t
  {
    match t
    case UnitField(u) =>
    case RecordType(fs) =>
      var fields := d.fields;
      LegacyFieldsAgree(env, fields, fs);
      FieldsRoundTrip(env, fields, fs);
      LegacyBitsObject.ConcatIsJoin(FieldsSerialised(env, fields).value);
  }

  /** The legacy round trip: its deserialiser (the same code) reads the legacy serialisation back. */
  lemma LegacyRoundTrip(env: Env, d: Datum, t: FieldType)
    requires Conforms(d, t)
    ensures LegacySerialised(env, d).Ok?
    ensures Deserialised(env, LegacySerialised(env, d).value, t) == Ok(d)
  {
    LegacyAgrees(env, d, t);
    RoundTrip(env, d, t);
  }

  /** A one-field record whose field is declared `UInt8` and holds the plain value `v`. */
  function UInt8Record(v: BitTypes.Value): Datum
  {
    Record([Field(UnitField(BitTypeUnit(BitTypes.UIntClass(8))), Plain(v))])
  }

  /**
   * A float stored where a `UInt8` is declared is converted with `int`: 2.5 becomes 2, and both
   * serialisers write 00000010.
   */
  lemma CastTruncatesFloat(env: Env)
    ensures var half := BitTypes.FloatVal(FloatLayout.Finite(false, 2, [1]));
      Serialised(env, UInt8Record(half)) == Ok(NatToBits(2, 8)) &&
      LegacySerialised(env, UInt8Record(half)) == Ok(NatToBits(2, 8))
  {
    var half := BitTypes.FloatVal(FloatLayout.Finite(false, 2, [1]));
    var t := UnitField(BitTypeUnit(BitTypes.UIntClass(8)));
    var d := Plain(half);
    assert BitTypes.PyType(BitTypes.UIntClass(8), half) == Some(BitTypes.IntVal(2));
    BitTypes.UIntStored(8, env.config, 2);
    IntCodec.ToBitstringSucceedsIffInRange(2, false, 8, None);
    assert Pow2(8) == 256;
    var bits := NatToBits(2, 8);
    assert Cast(env, d, t) == Ok(Instance(t.unit, bits));
    assert LegacyCast(env, d, t) == Ok(Instance(t.unit, bits));
    SingleFieldSerialised(env, t, d, bits);
  }

  /**
   * A value that the declared class cannot convert (an infinity where a `UInt8` is declared): the
   * current `trycast` raises the constructor's `ValueError`, the legacy one catches the YType
   * constructor's `TypeError`, keeps the value and serialises it as a plain value.
   */
  lemma LegacyKeepsUncastValue(env: Env)
    ensures Serialised(env, UInt8Record(BitTypes.FloatVal(FloatLayout.PosInf))) == Err(ValueError)
    ensures LegacySerialised(env, UInt8Record(BitTypes.FloatVal(FloatLayout.PosInf)))
      == Ok(env.native(BitTypes.FloatVal(FloatLayout.PosInf)))
  {
    var v := BitTypes.FloatVal(FloatLayout.PosInf);
    var t := UnitField(BitTypeUnit(BitTypes.UIntClass(8)));
    var d := Plain(v);
    assert Cast(env, d, t) == Err(ValueError);
    assert LegacyCast(env, d, t) == Err(TypeError);
    var fields := [Field(t, d)];
    assert fields[1..] == [];
    assert !IsInstance(d, t);
    assert CastFailure(env, fields) == Some(ValueError);
    assert LegacyTryCast(env, d, t) == Ok(d);
    assert LegacyCastFailure(env, fields) == None;
    assert LegacyFieldSerialised(env, fields[0]) == Ok(env.native(v));
    var n := env.native(v);
    assert LegacyFieldsSerialised(env, fields[1..]) == Ok([]);
    assert [n] + [] == [n];
    assert LegacyFieldsSerialised(env, fields) == Ok([n]);
    var none: seq<seq<Bit>> := [];
    assert [n][1..] == none;
    assert LegacyBitsObject.Concat([n]) == n;
  }

  /** A one-field record whose field casts to an instance holding `bits` serialises to `bits` in both serialisers. */
  lemma SingleFieldSerialised(env: Env, t: FieldType, d: Datum, bits: seq<Bit>)
    requires !IsInstance(d, t) && t.UnitField?
    requires Cast(env, d, t) == Ok(Instance(t.unit, bits)) && LegacyCast(env, d, t) == Ok(Instance(t.unit, bits))
    ensures Serialised(env, Record([Field(t, d)])) == Ok(bits)
    ensures LegacySerialised(env, Record([Field(t, d)])) == Ok(bits)
  {
    var fields := [Field(t, d)];
    assert fields[1..] == [];
    assert CastFailure(env, fields) == None;
    assert LegacyCastFailure(env, fields) == None;
    assert fields[0] == Field(t, d);
    assert FieldSerialised(env, fields[0]) == Ok(bits);
    assert LegacyFieldSerialised(env, fields[0]) == Ok(bits);
    assert FieldsSerialised(env, fields[1..]) == Ok([]);
    assert LegacyFieldsSerialised(env, fields[1..]) == Ok([]);
    assert [bits] + [] == [bits];
    assert FieldsSerialised(env, fields) == Ok([bits]);
    assert LegacyFieldsSerialised(env, fields) == Ok([bits]);
    var none: seq<seq<Bit>> := [];
    assert [bits][1..] == none;
    assert LegacyBitsObject.Concat([bits]) == bits;
  }

  /**
   * An instance of another BitType class is cast through its value: `UInt16(5)` in a field
   * declared `UInt8` becomes `UInt8(5)`, and the record serialises to the eight bits 00000101.
   */
  lemma CastsOtherClassByValue(env: Env)
    ensures var t := UnitField(BitTypeUnit(BitTypes.UIntClass(8)));
      var d := Instance(BitTypeUnit(BitTypes.UIntClass(16)), NatToBits(5, 16));
      Cast(env, d, t) == Ok(Instance(t.unit, [0, 0, 0, 0, 0, 1, 0, 1])) &&
      Serialised(env, Record([Field(t, d)])) == Ok([0, 0, 0, 0, 0, 1, 0, 1])
  {
    var t := UnitField(BitTypeUnit(BitTypes.UIntClass(8)));
    var d := Instance(BitTypeUnit(BitTypes.UIntClass(16)), NatToBits(5, 16));
    CastsUIntByValue(env, 16, 8, 5);
    FiveInEightBits();
    CurrentFieldSerialised(env, t, d, NatToBits(5, 8));
  }

  lemma FiveInEightBits()
    ensures NatToBits(5, 8) == [0, 0, 0, 0, 0, 1, 0, 1]
  {
    assert NatToBits(0, 1) == [0];
    assert NatToBits(0, 2) == [0, 0];
    assert NatToBits(0, 3) == [0, 0, 0];
    assert NatToBits(0, 4) == [0, 0, 0, 0];
    assert NatToBits(0, 5) == [0, 0, 0, 0, 0];
    assert NatToBits(1, 6) == NatToBits(0, 5) + [1];
    assert NatToBits(2, 7) == NatToBits(1, 6) + [0];
    assert NatToBits(5, 8) == NatToBits(2, 7) + [1];
  }

  /** `UIntN(i)` handed to a `UIntM` field, with `i` in range for both, is cast to `UIntM(i)`. */
  lemma CastsUIntByValue(env: Env, from: nat, to: nat, i: nat)
    requires from >= 3 && to >= 3 && i < 8
    ensures Cast(env, Instance(BitTypeUnit(BitTypes.UIntClass(from)), NatToBits(i, from)), UnitField(BitTypeUnit(BitTypes.UIntClass(to))))
      == Ok(Instance(BitTypeUnit(BitTypes.UIntClass(to)), NatToBits(i, to)))
  {
    assert Pow2(3) == 8;
    Pow2Monotone(3, from);
    Pow2Monotone(3, to);
    UIntGetter(env.config, from, i);
    var d := Instance(BitTypeUnit(BitTypes.UIntClass(from)), NatToBits(i, from));
    assert Converted(env, d, BitTypes.UIntClass(to)) == Some(BitTypes.IntVal(i));
    BitTypes.UIntStored(to, env.config, i);
  }

  /** The value of a `UInt` holding `i` in its `n` bits is the integer `i`. */
  lemma UIntGetter(fmt: IntCodec.IntFormat, n: nat, i: nat)
    requires n >= 1 && i < Pow2(n)
    ensures BitTypes.GetterValue(BitTypes.UIntClass(n), fmt, NatToBits(i, n)) == Ok(BitTypes.IntVal(i))
  {
    UnsignedNatToBits(i, n);
    DivModUnique(i, Pow2(n), 0, i);
  }

  /** A one-field record whose field the current serialiser casts to an instance holding `bits` serialises to `bits`. */
  lemma CurrentFieldSerialised(env: Env, t: FieldType, d: Datum, bits: seq<Bit>)
    requires !IsInstance(d, t) && t.UnitField? && Cast(env, d, t) == Ok(Instance(t.unit, bits))
    ensures Serialised(env, Record([Field(t, d)])) == Ok(bits)
  {
    var fields := [Field(t, d)];
    assert fields[1..] == [];
    assert CastFailure(env, fields) == None;
    assert FieldSerialised(env, fields[0]) == Ok(bits);
    assert FieldsSerialised(env, fields[1..]) == Ok([]);
    assert [bits] + [] == [bits];
    assert FieldsSerialised(env, fields) == Ok([bits]);
  }

  /**
   * The fields of the test record `SInt32(382)`, `Buffer4([0, 1, 0, 0])` (without its `Float32`):
   * in the two's complement format the constructors store 0x0000017E in 32 bits and the four bits
   * 0100.
   */
  lemma BitTypeFieldsExample()
    ensures BitTypes.Construct(BitTypes.SIntClass(32), IntCodec.TwosComplement, None, Some(BitTypes.IntVal(382)), None,
                               BitTypes.SourceElseBig) == Ok((NatToBits(0x17E, 32), BitTypes.Big))
    ensures BitTypes.Construct(BitTypes.BufferClass(4), IntCodec.TwosComplement, None, Some(BitTypes.BitsVal([0, 1, 0, 0])), None,
                               BitTypes.SourceElseBig) == Ok(([0, 1, 0, 0], BitTypes.Big))
  {
    assert Pow2(9) == 512;
    Pow2Monotone(9, 31);
    SIntStoresTwos(32, 382);
    BufferStoresList(4, [0, 1, 0, 0]);
  }

  /** A bit list handed to a `Buffer` as its value is stored as it is. */
  lemma BufferStoresList(n: nat, b: seq<Bit>)
    ensures BitTypes.Construct(BitTypes.BufferClass(n), IntCodec.TwosComplement, None, Some(BitTypes.BitsVal(b)), None,
                               BitTypes.SourceElseBig) == Ok((b, BitTypes.Big))
  {
  }

  /** The record holding those two instances serialises to 0x0000017E in 32 bits followed by 0100. */
  lemma BitTypeRecordExample(env: Env)
    ensures Serialised(env, Record([Field(UnitField(BitTypeUnit(BitTypes.SIntClass(32))),
                                          Instance(BitTypeUnit(BitTypes.SIntClass(32)), NatToBits(0x17E, 32))),
                                    Field(UnitField(BitTypeUnit(BitTypes.BufferClass(4))),
                                          Instance(BitTypeUnit(BitTypes.BufferClass(4)), [0, 1, 0, 0]))]))
      == Ok(NatToBits(0x17E, 32) + [0, 1, 0, 0])
  {
    TwoInstancesSerialised(env, UnitField(BitTypeUnit(BitTypes.SIntClass(32))), NatToBits(0x17E, 32),
                           UnitField(BitTypeUnit(BitTypes.BufferClass(4))), [0, 1, 0, 0]);
  }

  /** A non-negative value in range is stored by a two's complement `SInt` as its plain binary digits. */
  lemma SIntStoresTwos(n: nat, i: nat)
    requires n >= 1 && i < Pow2(n - 1)
    ensures BitTypes.Construct(BitTypes.SIntClass(n), IntCodec.TwosComplement, None, Some(BitTypes.IntVal(i)), None, BitTypes.SourceElseBig)
      == Ok((NatToBits(i, n), BitTypes.Big))
  {
    var stored := IntCodec.ToBitstring(i, true, Some(n), Some(IntCodec.TwosComplement));
    assert stored == IntCodec.TwosComplementToBits(i, n);
    assert Pow2(n) == 2 * Pow2(n - 1);
    DivModUnique(i, Pow2(n), 0, i);
    assert stored.Ok? && |stored.value| == n && Unsigned(stored.value) == i;
    NatToBitsOfUnsigned(stored.value);
    assert BitTypes.StoredByValue(BitTypes.SIntClass(n), IntCodec.TwosComplement, BitTypes.IntVal(i)) == Ok(stored.value);
  }

  /** A record of two fields holding instances of their declared unit types serialises to the two instances' bits in order. */
  lemma TwoInstancesSerialised(env: Env, t0: FieldType, a: seq<Bit>, t1: FieldType, b: seq<Bit>)
    requires t0.UnitField? && t1.UnitField?
    ensures Serialised(env, Record([Field(t0, Instance(t0.unit, a)), Field(t1, Instance(t1.unit, b))])) == Ok(a + b)
  {
    var fields := [Field(t0, Instance(t0.unit, a)), Field(t1, Instance(t1.unit, b))];
    assert fields[1..] == [fields[1]] && fields[1..][1..] == [];
    assert TryCast(env, fields[1].value, t1) == Ok(fields[1].value);
    assert CastFailure(env, fields[1..]) == None;
    assert TryCast(env, fields[0].value, t0) == Ok(fields[0].value);
    assert CastFailure(env, fields) == None;
    assert FieldSerialised(env, fields[1]) == Ok(b);
    assert FieldsSerialised(env, fields[1..][1..]) == Ok([]);
    assert [b] + [] == [b];
    assert FieldsSerialised(env, fields[1..]) == Ok([b]);
    assert FieldSerialised(env, fields[0]) == Ok(a);
    assert [a] + [b] == [a, b] && [a, b][1..] == [b];
    assert FieldsSerialised(env, fields) == Ok([a, b]);
    assert Search.JoinBits([], [a, b]) == a + [] + b;
    assert a + [] == a;
    assert Serialised(env, Record(fields)) == Ok(Search.JoinBits([], [a, b]));
  }

  // ---------------------------------------------------------------------------
  // Array mode of from_bytes_aggregate: the chunk arithmetic
  // ---------------------------------------------------------------------------

  /** The chunks `[i, min(i + size, n))` for `i = 0, size, 2 * size, ...` below `n`. */
  function Chunks(data: seq<Byte>, size: nat): (r: seq<seq<Byte>>)
    requires size > 0
    ensures r == [] <==> data == []
    ensures data != [] ==> r[0] == data[..if |data| <= size then |data| else size]
    decreases |data|
  {
    if data == [] then []
    else if |data| <= size then [data]
    else [data[..size]] + Chunks(data[size..], size)
  }

  function FlattenBytes(chunks: seq<seq<Byte>>): seq<Byte>
  {
    if chunks == [] then [] else chunks[0] + FlattenBytes(chunks[1..])
  }

  /** The chunks cover the input exactly, in order, with nothing dropped or repeated. */
  lemma {:induction false} ChunksCover(data: seq<Byte>, size: nat)
    requires size > 0
    ensures FlattenBytes(Chunks(data, size)) == data
    decreases |data|
  {
    if |data| > size {
      ChunksCover(data[size..], size);
      FlattenCons(data[..size], Chunks(data[size..], size));
      assert data[..size] + data[size..] == data;
    } else if data != [] {
      FlattenCons(data, []);
      assert data + [] == data;
    }
  }

  lemma FlattenCons(head: seq<Byte>, tail: seq<seq<Byte>>)
    ensures FlattenBytes([head] + tail) == head + FlattenBytes(tail)
  {
    assert ([head] + tail)[1..] == tail;
  }

  /** Every chunk is non-empty and at most `size` long; all but the last are exactly `size`. */
  lemma {:induction false} ChunkSizes(data: seq<Byte>, size: nat)
    requires size > 0
    ensures forall k :: 0 <= k < |Chunks(data, size)| ==> 0 < |Chunks(data, size)[k]| <= size
    ensures forall k :: 0 <= k < |Chunks(data, size)| - 1 ==> |Chunks(data, size)[k]| == size
    decreases |data|
  {
    if |data| > size {
      ChunkSizes(data[size..], size);
      var c := Chunks(data, size);
      var tail := Chunks(data[size..], size);
      assert c == [data[..size]] + tail;
      forall k | 1 <= k < |c|
        ensures c[k] == tail[k - 1]
      {
      }
    }
  }

  /** There are `ceil(n / size)` chunks, so a length that is not a multiple of the size still reads. */
  lemma {:induction false} ChunkCount(data: seq<Byte>, size: nat)
    requires size > 0
    ensures |Chunks(data, size)| == (|data| + size - 1) / size
    decreases |data|
  {
    if |data| > size {
      ChunkCount(data[size..], size);
      var m := |data| - size;
      assert (m + size - 1) + size == |data| + size - 1;
      DivStep(m + size - 1, size);
    } else if data != [] {
      assert size <= |data| + size - 1 < 2 * size;
      DivOne(|data| + size - 1, size);
    }
  }

  lemma DivStep(x: nat, size: nat)
    requires size > 0
    ensures (x + size) / size == x / size + 1
  {
    DivModUnique(x + size, size, x / size + 1, x % size);
  }

  lemma DivOne(x: nat, size: nat)
    requires size > 0 && size <= x < 2 * size
    ensures x / size == 1
  {
    DivModUnique(x, size, 1, x - size);
  }

  lemma ChunksFrom(data: seq<Byte>, size: nat, i: nat)
    requires size > 0 && i < |data|
    ensures Chunks(data[i..], size) ==
      [data[i..if i + size < |data| then i + size else |data|]]
      + Chunks(data[if i + size < |data| then i + size else |data|..], size)
  {
    var s := data[i..];
    if |s| <= size {
      assert data[i..|data|] == s;
      assert data[|data|..] == [];
      assert Chunks(s, size) == [s];
    } else {
      assert s[..size] == data[i..i + size];
      assert s[size..] == data[i + size..];
    }
  }

  /**
   * The `is_array` loop of `from_bytes_aggregate`: `range(0, n, size)` raises `ValueError` on a
   * zero step; otherwise it yields the chunks `[i, min(i + size, n))`.
   */
  method ArrayChunks(data: seq<Byte>, size: nat) returns (r: Result<seq<seq<Byte>>>)
    ensures size == 0 ==> r == Err(ValueError)
    ensures size > 0 ==> r == Ok(Chunks(data, size))
  {
    if size == 0 {
      return Err(ValueError);
    }
    var chunks: seq<seq<Byte>> := [];
    var i := 0;
    assert data[0..] == data;
    while i < |data|
      invariant chunks + Chunks(data[if i < |data| then i else |data|..], size) == Chunks(data, size)
      decreases |data| - i
    {
      var endIndex := if i + size < |data| then i + size else |data|;
      ChunksFrom(data, size, i);
      chunks := chunks + [data[i..endIndex]];
      i := i + size;
    }
    assert data[|data|..] == [];
    assert chunks + Chunks(data[|data|..], size) == chunks;
    r := Ok(chunks);
  }
}
