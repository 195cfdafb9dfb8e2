/**
 * The older pure-list `Bits` class (bytemaker/bits.py): a Python list of 0/1 integers that
 * several `Bits` objects may share, with every algorithm written out in Python.
 */
module LegacyBits {
  import opened BitSeq
  import opened Wrappers
  import BitStrings
  import Search
  import BitVectors

  // ---------------------------------------------------------------------------
  // Construction from bytes
  // ---------------------------------------------------------------------------

  /** A bytes source: each byte as its eight bits, most significant first (`format(byte, '08b')`). */
  function BytesToBits(bs: seq<Byte>): (r: seq<Bit>)
    ensures |r| == 8 * |bs|
  {
    if bs == [] then [] else NatToBits(bs[0], 8) + BytesToBits(bs[1..])
  }

  /** Packing the bits of a bytes source gives the bytes back: `Bits(b).to_bytes() == b`. */
  lemma {:induction false} BytesToBitsRoundTrip(bs: seq<Byte>)
    ensures BitVectors.PackBytes(BytesToBits(bs)) == bs
  {
    if bs != [] {
      var head, tail := NatToBits(bs[0], 8), BytesToBits(bs[1..]);
      BytesToBitsRoundTrip(bs[1..]);
      BitVectors.PackBytesConcat(head, tail);
      BitVectors.PackBytesShort(head);
      UnsignedNatToBits(bs[0], 8);
      assert Pow2(8) == 256;
      DivModUnique(bs[0], 256, 0, bs[0]);
      assert bs == [bs[0]] + bs[1..];
    }
  }

  /** Each byte's eight bits read back as the byte. */
  lemma BytesToBitsByte(bs: seq<Byte>, i: nat)
    requires i < |bs|
    ensures 8 * i + 8 <= 8 * |bs| && Unsigned(BytesToBits(bs)[8 * i..8 * i + 8]) == bs[i]
  {
    BytesToBitsRoundTrip(bs);
    PackedByte(BytesToBits(bs), bs, i);
  }

  /** Byte `i` of whole bytes that pack to `bs` is `bs[i]`. */
  lemma PackedByte(b: seq<Bit>, bs: seq<Byte>, i: nat)
    requires BitVectors.PackBytes(b) == bs && |b| == 8 * |bs| && i < |bs|
    ensures 8 * i + 8 <= |b| && Unsigned(b[8 * i..8 * i + 8]) == bs[i]
  {
    BitVectors.PackBytesChunk(b, i);
    assert BitVectors.Min(8 * i + 8, |b|) == 8 * i + 8;
  }

  /**
   * `from_bytes(byte_arr, reverse_endianness)`: without reversal the bytes source above. With it,
   * `reversed(byte_arr)` is an iterator, not bytes, so the constructor takes the iterable branch
   * and keeps each byte's value as one list element; the check that every element is 0 or 1
   * then fails for any byte above 1.
   */
  function FromBytesAsWritten(bs: seq<Byte>, reverseEndianness: bool): (r: Result<seq<Bit>>)
    ensures !reverseEndianness ==> r == Ok(BytesToBits(bs))
    ensures reverseEndianness ==> (r.Ok? <==> forall i :: 0 <= i < |bs| ==> bs[i] <= 1)
  {
    if !reverseEndianness then Ok(BytesToBits(bs))
    else if forall i :: 0 <= i < |bs| ==> bs[i] <= 1 then
      Ok(seq(|bs|, i requires 0 <= i < |bs| => bs[|bs| - 1 - i]))
    else Err(AssertionError)
  }

  /** The bytes `b'\x01\x02'` reversed raise instead of giving sixteen bits. */
  lemma FromBytesReversedRaises()
    ensures FromBytesAsWritten([1, 2], true) == Err(AssertionError)
  {
    var bs: seq<Byte> := [1, 2];
    assert bs[1] > 1;
  }

  /** `from_bytes` with the evident intent: the bytes in reverse order, then eight bits per byte. */
  function FromBytes(bs: seq<Byte>, reverseEndianness: bool): (r: seq<Bit>)
    ensures |r| == 8 * |bs|
  {
    BytesToBits(if reverseEndianness then BitVectors.ReverseBytes(bs) else bs)
  }

  /** Packing the corrected result gives back the bytes, reversed when asked. */
  lemma FromBytesRoundTrip(bs: seq<Byte>, reverseEndianness: bool)
    ensures BitVectors.PackBytes(FromBytes(bs, reverseEndianness))
      == if reverseEndianness then BitVectors.ReverseBytes(bs) else bs
  {
    BytesToBitsRoundTrip(if reverseEndianness then BitVectors.ReverseBytes(bs) else bs);
  }

  // ---------------------------------------------------------------------------
  // from_string
  // ---------------------------------------------------------------------------

  /** `string.replace("_", "")`. */
  function DropUnderscores(s: string): (r: string)
    ensures |r| <= |s| && forall i :: 0 <= i < |r| ==> r[i] != '_'
  {
    if s == [] then []
    else if s[0] == '_' then DropUnderscores(s[1..])
    else [s[0]] + DropUnderscores(s[1..])
  }

  /** `str.lstrip('0')`: what is left after the leading '0' characters. */
  function LStripZeros(s: string): (r: string)
    ensures |r| <= |s| && r == s[|s| - |r|..]
    ensures r != [] ==> r[0] != '0'
    ensures forall i :: 0 <= i < |s| - |r| ==> s[i] == '0'
  {
    if s == [] || s[0] != '0' then s else LStripZeros(s[1..])
  }

  predicate IsDecimalDigit(c: char)
  {
    '0' <= c <= '9'
  }

  /**
   * `[int(bit) for bit in binstring]` followed by the constructor's check: a character that is
   * not a decimal digit makes `int` raise `ValueError`; a digit above 1 fails the check.
   */
  function BinList(s: string): (r: Result<seq<Bit>>)
    ensures r.Ok? ==> BitsToStr(r.value) == s
  {
    if exists i :: 0 <= i < |s| && !IsDecimalDigit(s[i]) then Err(ValueError)
    else
      var r := BitStrings.DigitsToBits(s, BitStrings.Bin);
      if r.Ok? then
        BitStrings.Bin01(s, r.value);
        r
      else Err(AssertionError)
  }

  /**
   * The "0o"/"0x" branch of `from_string` as written: the digits lose their leading '0's, the
   * rest is read with `int(nonzeros, base)` (an empty rest is `int('')`, which raises) and its
   * `bin` digits are left-filled with zeros to 3 or 4 bits per original digit.
   */
  function PrefixedAsWritten(digits: string, radix: BitStrings.Radix): (r: Result<seq<Bit>>)
    ensures r.Err? ==> r.error == ValueError
    ensures (forall i :: 0 <= i < |digits| ==> digits[i] == '0') ==> r == Err(ValueError)
    ensures r.Ok? ==> |r.value| >= BitStrings.DigitWidth(radix) * |digits|
  {
    var nonzeros := LStripZeros(digits);
    if nonzeros == [] || !BitStrings.AllDigits(nonzeros, radix) then Err(ValueError)
    else Ok(ZeroFill(BinDigits(BitStrings.DigitsValue(nonzeros, radix)), BitStrings.DigitWidth(radix) * |digits|))
  }

  /** A string made only of '0' and '1', including the empty string. */
  predicate All01(s: string)
  {
    forall i :: 0 <= i < |s| ==> s[i] == '0' || s[i] == '1'
  }

  /**
   * `from_string` as written: underscores are deleted, then "0b", "0o" or "0x" selects the
   * branch. A string of only '0' and '1' passes the last test but never assigns `binstring`,
   * so reading it raises `UnboundLocalError`; anything else raises `ValueError`.
   */
  function FromStringAsWritten(s: string): (r: Result<seq<Bit>>)
    ensures r.Ok? ==> r == FromString(s)
  {
    var t := DropUnderscores(s);
    if BitStrings.HasPrefix(t, "0b") then BinList(t[2..])
    else if BitStrings.HasPrefix(t, "0o") then Prefixed(t[2..], BitStrings.Oct)
    else if BitStrings.HasPrefix(t, "0x") then Prefixed(t[2..], BitStrings.Hex)
    else if All01(t) then Err(UnboundLocalError)
    else Err(ValueError)
  }

  /** `PrefixedAsWritten`, with what it reads when it succeeds: the digits one by one. */
  function Prefixed(digits: string, radix: BitStrings.Radix): (r: Result<seq<Bit>>)
    ensures r == PrefixedAsWritten(digits, radix)
    ensures r.Ok? ==> r == BitStrings.DigitsToBits(digits, radix)
  {
    var r := PrefixedAsWritten(digits, radix);
    if r.Ok? then
      PrefixedKeepsZeroDigits(digits, radix);
      r
    else r
  }

  /** `from_string` with the evident intent: a bare '0'/'1' string is read bit by bit, and digits that are all zero give zero bits. */
  function FromString(s: string): (r: Result<seq<Bit>>)
    ensures r.Err? ==> r.error == ValueError || r.error == AssertionError
  {
    var t := DropUnderscores(s);
    if BitStrings.HasPrefix(t, "0b") then BinList(t[2..])
    else if BitStrings.HasPrefix(t, "0o") then BitStrings.DigitsToBits(t[2..], BitStrings.Oct)
    else if BitStrings.HasPrefix(t, "0x") then BitStrings.DigitsToBits(t[2..], BitStrings.Hex)
    else if All01(t) then BinList(t)
    else Err(ValueError)
  }

  /** Leading '0' digits add nothing to the value, and are digits of every radix. */
  lemma {:induction false} LeadingZeroDigits(s: string, radix: BitStrings.Radix)
    ensures BitStrings.DigitsValue(s, radix) == BitStrings.DigitsValue(LStripZeros(s), radix)
    ensures BitStrings.AllDigits(s, radix) <==> BitStrings.AllDigits(LStripZeros(s), radix)
    decreases |s|
  {
    if s != [] && s[0] == '0' {
      BitStrings.AllDigitsCons(s, radix);
      LeadingZeroDigits(s[1..], radix);
    }
  }

  /**
   * Wherever the as-written digit branch succeeds it gives exactly 3 or 4 bits per digit, the
   * leading zero digits included: the digit-by-digit reading.
   */
  lemma PrefixedKeepsZeroDigits(digits: string, radix: BitStrings.Radix)
    requires PrefixedAsWritten(digits, radix).Ok?
    ensures BitStrings.DigitsToBits(digits, radix) == PrefixedAsWritten(digits, radix)
  {
    var nonzeros := LStripZeros(digits);
    var w := BitStrings.DigitWidth(radix);
    LeadingZeroDigits(digits, radix);
    var b := BitStrings.DigitsToBits(digits, radix).value;
    BitStrings.DigitsToBitsValue(digits, radix);
    var n := BitStrings.DigitsValue(digits, radix);
    assert |b| == w * |digits|;
    assert |b| >= 1 by {
      assert |digits| >= 1 && w >= 1;
      BitVectors.MulMonotone(w, 1, |digits|);
    }
    ZeroFillDigits(n, |b|);
    NatToBitsOfUnsigned(b);
  }

  /** The '0'/'1' text of any bits: the as-written parser raises, the corrected one reads it back. */
  lemma BareBinaryString(b: seq<Bit>)
    ensures FromStringAsWritten(BitsToStr(b)) == Err(UnboundLocalError)
    ensures FromString(BitsToStr(b)) == Ok(b)
  {
    var t := BitsToStr(b);
    NoUnderscores(t);
    assert !BitStrings.HasPrefix(t, "0b") && !BitStrings.HasPrefix(t, "0o") && !BitStrings.HasPrefix(t, "0x") by {
      if |t| >= 2 {
        assert t[..2][1] == t[1];
      }
    }
    BitStrings.BitsDigits(b);
  }

  /** Text without underscores is left as it is. */
  lemma {:induction false} NoUnderscores(s: string)
    requires forall i :: 0 <= i < |s| ==> s[i] != '_'
    ensures DropUnderscores(s) == s
  {
    if s != [] {
      NoUnderscores(s[1..]);
    }
  }

  /** "0x00": the as-written parser reads `int('', 16)` and raises; the corrected one gives eight zero bits. */
  lemma AllZeroHexDigits()
    ensures FromStringAsWritten("0x00") == Err(ValueError)
    ensures FromString("0x00") == Ok(Repeat(0, 8))
  {
    var t := "0x00";
    NoUnderscores(t);
    assert t[..2] == "0x" && t[..2] != "0b" && t[..2] != "0o" && t[2..] == "00";
    assert LStripZeros("00") == [];
    assert FromString(t) == BitStrings.DigitsToBits("00", BitStrings.Hex);
    DigitsZeroZero();
  }

  lemma DigitsZeroZero()
    ensures BitStrings.DigitsToBits("00", BitStrings.Hex) == Ok(Repeat(0, 8))
  {
    var zero: seq<Bit> := [0, 0, 0, 0];
    assert NatToBits(0, 4) == zero;
    assert "0"[1..] == [] && "00"[1..] == "0";
    DigitCons("0", BitStrings.Hex, 0, []);
    DigitCons("00", BitStrings.Hex, 0, zero + []);
    assert zero + (zero + []) == Repeat(0, 8);
  }

  /** The binary string asserted in `test/bits_test.py`: "0b101" gives 101. */
  lemma FromStringBinaryExample()
    ensures FromStringAsWritten("0b101") == Ok([1, 0, 1])
  {
    NoUnderscores("0b101");
    var t := "0b101";
    assert t[..2] == "0b" && t[2..] == "101";
    BinList101();
  }

  /** Underscores are dropped first: "0b1_01" gives 101 too. */
  lemma FromStringUnderscoreExample()
    ensures FromStringAsWritten("0b1_01") == Ok([1, 0, 1])
  {
    UnderscoreDropped();
    FromStringBinaryExample();
  }

  lemma UnderscoreDropped()
    ensures DropUnderscores("0b1_01") == "0b101"
  {
    NoUnderscores("01");
    assert DropUnderscores("_01") == "01";
    assert DropUnderscores("1_01") == "101";
    assert DropUnderscores("b1_01") == "b101";
  }

  lemma BinList101()
    ensures BinList("101") == Ok([1, 0, 1])
  {
    assert BitsToStr([1, 0, 1]) == "101";
    BitStrings.BitsDigits([1, 0, 1]);
  }

  /** The hexadecimal string asserted in `test/bits_test.py`: "0xFE" gives 11111110. */
  lemma FromStringHexExample()
    ensures FromStringAsWritten("0xFE") == Ok([1, 1, 1, 1, 1, 1, 1, 0])
  {
    HexPrefixSelected();
    HexDigitsFE();
  }

  /** "0xFE" has no underscores and takes the hexadecimal branch with the digits "FE". */
  lemma HexPrefixSelected()
    ensures FromStringAsWritten("0xFE") == PrefixedAsWritten("FE", BitStrings.Hex)
  {
    var t := "0xFE";
    NoUnderscores(t);
    assert t[..2] == "0x" && t[..2] != "0b" && t[..2] != "0o" && t[2..] == "FE";
  }

  /** The hexadecimal digits "FE" read as seven ones and a final zero. */
  lemma HexDigitsFE()
    ensures PrefixedAsWritten("FE", BitStrings.Hex) == Ok([1, 1, 1, 1, 1, 1, 1, 0])
  {
    DigitsFE();
    assert LStripZeros("FE") == "FE";
    assert PrefixedAsWritten("FE", BitStrings.Hex).Ok?;
    PrefixedKeepsZeroDigits("FE", BitStrings.Hex);
  }

  lemma DigitsFE()
    ensures BitStrings.DigitsToBits("FE", BitStrings.Hex) == Ok([1, 1, 1, 1, 1, 1, 1, 0])
  {
    var f: seq<Bit>, e: seq<Bit> := [1, 1, 1, 1], [1, 1, 1, 0];
    assert NatToBits(15, 4) == f && NatToBits(14, 4) == e;
    assert "E"[1..] == [] && "FE"[1..] == "E";
    DigitCons("E", BitStrings.Hex, 14, []);
    DigitCons("FE", BitStrings.Hex, 15, e + []);
    assert f + (e + []) == [1, 1, 1, 1, 1, 1, 1, 0];
  }

  /** Reading one digit in front of already-read digits. */
  lemma DigitCons(s: string, radix: BitStrings.Radix, d: nat, rest: seq<Bit>)
    requires |s| > 0 && BitStrings.DigitValue(s[0], radix) == Some(d)
    requires BitStrings.DigitsToBits(s[1..], radix) == Ok(rest)
    ensures BitStrings.DigitsToBits(s, radix) == Ok(NatToBits(d, BitStrings.DigitWidth(radix)) + rest)
  {
  }

  // ---------------------------------------------------------------------------
  // binop, shifts, shrinkequals
  // ---------------------------------------------------------------------------

  /** The operators `binop` is called with: `operator.and_`, `operator.or_` and `operator.xor`. */
  datatype BitOp = And | Or | Xor

  function Apply(op: BitOp, a: Bit, b: Bit): Bit
  {
    match op
    case And => if a == 1 && b == 1 then 1 else 0
    case Or => if a == 1 || b == 1 then 1 else 0
    case Xor => if a != b then 1 else 0
  }

  /** The operator applied to the bits at equal positions of two equally long sequences. */
  function Pairwise(a: seq<Bit>, b: seq<Bit>, op: BitOp): (r: seq<Bit>)
    requires |a| == |b|
    ensures |r| == |a|
  {
    seq(|a|, i requires 0 <= i < |a| => Apply(op, a[i], b[i]))
  }

  lemma PairwiseAt(a: seq<Bit>, b: seq<Bit>, op: BitOp, i: nat)
    requires |a| == |b| && i < |a|
    ensures Pairwise(a, b, op)[i] == Apply(op, a[i], b[i])
  {
  }

  lemma PairwiseSnoc(a: seq<Bit>, b: seq<Bit>, x: Bit, y: Bit, op: BitOp)
    requires |a| == |b|
    ensures Pairwise(a + [x], b + [y], op) == Pairwise(a, b, op) + [Apply(op, x, y)]
  {
    var p, q := Pairwise(a + [x], b + [y], op), Pairwise(a, b, op) + [Apply(op, x, y)];
    forall i | 0 <= i < |p|
      ensures p[i] == q[i]
    {
      PairwiseAt(a + [x], b + [y], op, i);
      if i < |a| {
        PairwiseAt(a, b, op, i);
      }
    }
  }

  /**
   * `binop` as written. The first two loops count the longer operand down to the shorter one's
   * length, but advance its iterator only when `expand` is set (copying the excess bits out).
   * So with `expand` the operands are paired from the right, and without it from the left, the
   * longer operand's trailing bits being dropped.
   */
  function Combine(left: seq<Bit>, right: seq<Bit>, op: BitOp, expand: bool): (r: seq<Bit>)
    ensures |r| == if expand then Search.Max(|left|, |right|) else Search.Min(|left|, |right|)
  {
    var m := Search.Min(|left|, |right|);
    if expand then
      right[..|right| - m] + left[..|left| - m] + Pairwise(left[|left| - m..], right[|right| - m..], op)
    else Pairwise(left[..m], right[..m], op)
  }

  /**
   * `binop(other, op, expand)`: the three counting loops over two iterators, `li` and `ri`
   * being the positions the iterators have reached.
   */
  method Binop(left: seq<Bit>, right: seq<Bit>, op: BitOp, expand: bool) returns (r: seq<Bit>)
    ensures r == Combine(left, right, op, expand)
  {
    var ri, retbits := SkipExcess(right, |left|, expand, []);
    var li, excess := SkipExcess(left, |right|, expand, retbits);
    retbits := PairRest(left, right, op, li, ri, Search.Min(|left|, |right|), excess);
    BinopDone(left, right, op, expand, excess, li, ri, retbits);
    r := retbits;
  }

  /**
   * The first two loops of `binop`: the length of `s` is counted down to `otherLen`, and only with
   * `expand` does its iterator advance, its bits being copied out after `acc`.
   */
  method SkipExcess(s: seq<Bit>, otherLen: nat, expand: bool, acc: seq<Bit>) returns (i: nat, out: seq<Bit>)
    ensures i == (if expand then |s| - Search.Min(|s|, otherLen) else 0) && out == acc + s[..i]
  {
    var len := |s|;
    i, out := 0, acc;
    while otherLen < len
      invariant Search.Min(|s|, otherLen) <= len <= |s|
      invariant i == (if expand then |s| - len else 0) && out == acc + s[..i]
    {
      if expand {
        assert s[..i + 1] == s[..i] + [s[i]];
        out := out + [s[i]];
        i := i + 1;
      }
      len := len - 1;
    }
  }

  /** The third loop of `binop`: both iterators advance together for the `count` bits they share. */
  method PairRest(left: seq<Bit>, right: seq<Bit>, op: BitOp, li0: nat, ri0: nat, count: nat, excess: seq<Bit>)
    returns (retbits: seq<Bit>)
    requires li0 + count <= |left| && ri0 + count <= |right|
    ensures PairedUpTo(left, right, op, excess, li0, ri0, li0 + count, ri0 + count, retbits)
  {
    var li, ri, leftLen := li0, ri0, count;
    retbits := excess;
    while leftLen > 0
      invariant 0 <= leftLen <= count && li == li0 + (count - leftLen) && ri == ri0 + (count - leftLen)
      invariant PairedUpTo(left, right, op, excess, li0, ri0, li, ri, retbits)
    {
      PairStep(left, right, op, excess, li0, ri0, li, ri, retbits);
      retbits := retbits + [Apply(op, left[li], right[ri])];
      li, ri := li + 1, ri + 1;
      leftLen := leftLen - 1;
    }
  }

  /** After the excess bits, `retbits` holds the operator applied to the bits the iterators have passed together. */
  predicate PairedUpTo(left: seq<Bit>, right: seq<Bit>, op: BitOp, excess: seq<Bit>, li0: nat, ri0: nat, li: nat, ri: nat, retbits: seq<Bit>)
  {
    li0 <= li <= |left| && ri0 <= ri <= |right| && li - li0 == ri - ri0
    && retbits == excess + Pairwise(left[li0..li], right[ri0..ri], op)
  }

  lemma PairStep(left: seq<Bit>, right: seq<Bit>, op: BitOp, excess: seq<Bit>, li0: nat, ri0: nat, li: nat, ri: nat, retbits: seq<Bit>)
    requires PairedUpTo(left, right, op, excess, li0, ri0, li, ri, retbits) && li < |left| && ri < |right|
    ensures PairedUpTo(left, right, op, excess, li0, ri0, li + 1, ri + 1, retbits + [Apply(op, left[li], right[ri])])
  {
    var a, b, x, y := left[li0..li], right[ri0..ri], left[li], right[ri];
    PairwiseSnoc(a, b, x, y, op);
    SliceSnoc(left, li0, li);
    SliceSnoc(right, ri0, ri);
  }

  lemma SliceSnoc(s: seq<Bit>, lo: nat, hi: nat)
    requires lo <= hi < |s|
    ensures s[lo..hi + 1] == s[lo..hi] + [s[hi]]
  {
    assert |s[lo..hi + 1]| == |s[lo..hi] + [s[hi]]|;
    forall k | 0 <= k < hi + 1 - lo
      ensures s[lo..hi + 1][k] == (s[lo..hi] + [s[hi]])[k]
    {
    }
  }

  lemma BinopDone(left: seq<Bit>, right: seq<Bit>, op: BitOp, expand: bool, excess: seq<Bit>, li0: nat, ri0: nat, retbits: seq<Bit>)
    requires var m := Search.Min(|left|, |right|);
      li0 == (if expand then |left| - m else 0) && ri0 == (if expand then |right| - m else 0)
      && excess == right[..ri0] + left[..li0]
      && PairedUpTo(left, right, op, excess, li0, ri0, li0 + m, ri0 + m, retbits)
    ensures retbits == Combine(left, right, op, expand)
  {
    var m := Search.Min(|left|, |right|);
    var a, b := left[li0..li0 + m], right[ri0..ri0 + m];
    CombineUnfold(left, right, op, expand, m, li0, ri0, a, b);
  }

  /** The shape of `binop`'s result: with `expand` the longer operand's excess bits then the pairs from the right; without, the pairs from the left. */
  lemma CombineShape(left: seq<Bit>, right: seq<Bit>, op: BitOp, expand: bool)
    ensures var r, m := Combine(left, right, op, expand), Search.Min(|left|, |right|);
      |r| == (if expand then Search.Max(|left|, |right|) else m)
      && (expand ==> r[|r| - m..] == Pairwise(left[|left| - m..], right[|right| - m..], op))
      && (!expand ==> r == Pairwise(left[..m], right[..m], op))
  {
    var m := Search.Min(|left|, |right|);
    if expand {
      var r := Combine(left, right, op, true);
      var hl, hr := |left| - m, |right| - m;
      var x, y := left[hl..], right[hr..];
      var e, p := right[..hr] + left[..hl], Pairwise(x, y, op);
      assert r == e + p;
      ConcatSuffix(e, p);
      assert |r| - m == |e| == hl + hr;
      assert |r| == Search.Max(|left|, |right|);
    }
  }

  lemma ConcatSuffix(e: seq<Bit>, p: seq<Bit>)
    ensures |e + p| == |e| + |p| && (e + p)[|e|..] == p
  {
  }

  lemma CombineUnfold(left: seq<Bit>, right: seq<Bit>, op: BitOp, expand: bool, m: nat, hl: nat, hr: nat, a: seq<Bit>, b: seq<Bit>)
    requires m == Search.Min(|left|, |right|)
    requires hl == (if expand then |left| - m else 0) && hr == (if expand then |right| - m else 0)
    requires a == left[hl..hl + m] && b == right[hr..hr + m]
    ensures Combine(left, right, op, expand) == right[..hr] + left[..hl] + Pairwise(a, b, op)
  {
    if expand {
      assert a == left[|left| - m..] && b == right[|right| - m..];
    } else {
      assert a == left[..m] && b == right[..m];
      assert right[..hr] + left[..hl] == [];
    }
  }

  /** Without `expand` the bits are paired from the left: 10 & 1 is 1, although 10 ends in 0. */
  lemma CombineFromTheLeft()
    ensures Combine([1, 0], [1], And, false) == [1]
    ensures CombineAligned([1, 0], [1], And, false) == [0]
  {
    var a: seq<Bit> := [1, 0];
    assert a[..1] == [1] && a[1..] == [0];
  }

  /** `binop` with the evident intent: the operands are paired from the right whether or not `expand` is set. */
  function CombineAligned(left: seq<Bit>, right: seq<Bit>, op: BitOp, expand: bool): (r: seq<Bit>)
    ensures var m := Search.Min(|left|, |right|);
      |r| == (if expand then Search.Max(|left|, |right|) else m)
      && r[|r| - m..] == Pairwise(left[|left| - m..], right[|right| - m..], op)
      && r[..|r| - m] == (if !expand then [] else if |left| < |right| then right[..|right| - m] else left[..|left| - m])
  {
    var m := Search.Min(|left|, |right|);
    var excess := if !expand then [] else right[..|right| - m] + left[..|left| - m];
    var r := excess + Pairwise(left[|left| - m..], right[|right| - m..], op);
    assert r[|excess|..] == Pairwise(left[|left| - m..], right[|right| - m..], op);
    assert r[..|excess|] == excess;
    r
  }

  /** With `expand`, the as-written and the corrected `binop` agree. */
  lemma CombineExpandAgrees(left: seq<Bit>, right: seq<Bit>, op: BitOp)
    ensures Combine(left, right, op, true) == CombineAligned(left, right, op, true)
  {
  }

  /** `a | b == a & b` holds bit by bit exactly where the two bits are equal. */
  lemma OrEqualsAnd(a: Bit, b: Bit)
    ensures Apply(Or, a, b) == Apply(And, a, b) <==> a == b
  {
  }

  /** On equally long operands, `|` and `&` agree exactly when the operands are equal. */
  lemma PairwiseOrAnd(a: seq<Bit>, b: seq<Bit>)
    requires |a| == |b|
    ensures Pairwise(a, b, Or) == Pairwise(a, b, And) <==> a == b
  {
    var o, n := Pairwise(a, b, Or), Pairwise(a, b, And);
    if a == b {
      assert forall i :: 0 <= i < |a| ==> o[i] == n[i];
    } else {
      assert exists i :: 0 <= i < |a| && a[i] != b[i];
      var i :| 0 <= i < |a| && a[i] != b[i];
      OrEqualsAnd(a[i], b[i]);
      PairwiseAt(a, b, Or, i);
      PairwiseAt(a, b, And, i);
      assert o[i] != n[i];
    }
  }

  /**
   * `shrinkequals` as written: `self | other == self & other` with the as-written `binop`, which
   * compares only the leading bits the two share.
   */
  function ShrinkEqualsAsWritten(a: seq<Bit>, b: seq<Bit>): (r: bool)
    ensures a == b ==> r
  {
    var m := Search.Min(|a|, |b|);
    PairwiseOrAnd(a[..m], b[..m]);
    Combine(a, b, Or, false) == Combine(a, b, And, false)
  }

  /** As written, `shrinkequals` holds exactly when the shorter operand is a prefix of the longer. */
  lemma ShrinkEqualsAsWrittenPrefix(a: seq<Bit>, b: seq<Bit>)
    ensures var m := Search.Min(|a|, |b|);
      ShrinkEqualsAsWritten(a, b) <==> a[..m] == b[..m]
  {
    var m := Search.Min(|a|, |b|);
    PairwiseOrAnd(a[..m], b[..m]);
  }

  /**
   * `shrinkequals` with its documented intent: the shorter operand is widened with leading zeros
   * to the longer one's length, and the two must then be equal.
   */
  function ShrinkEquals(a: seq<Bit>, b: seq<Bit>): (r: bool)
    ensures a == b ==> r
  {
    var n := Search.Max(|a|, |b|);
    Search.LPad(a, n, 0) == Search.LPad(b, n, 0)
  }

  /**
   * The docstring's reading: the longer operand's excess leading bits are all zeros, and what
   * remains of it once they are removed is the shorter operand.
   */
  lemma ShrinkEqualsStripped(a: seq<Bit>, b: seq<Bit>)
    ensures var m := Search.Min(|a|, |b|);
      ShrinkEquals(a, b) <==>
        (forall i :: 0 <= i < |a| - m ==> a[i] == 0) && (forall i :: 0 <= i < |b| - m ==> b[i] == 0) &&
        a[|a| - m..] == b[|b| - m..]
  {
    if |a| >= |b| {
      StrippedLonger(a, b);
    } else {
      StrippedLonger(b, a);
    }
  }

  /** The right-hand side of `ShrinkEqualsStripped`. */
  ghost predicate Stripped(a: seq<Bit>, b: seq<Bit>)
  {
    var m := Search.Min(|a|, |b|);
    (forall i :: 0 <= i < |a| - m ==> a[i] == 0) && (forall i :: 0 <= i < |b| - m ==> b[i] == 0) &&
    a[|a| - m..] == b[|b| - m..]
  }

  /** `ShrinkEqualsStripped` for both orders of a pair whose first operand is the longer. */
  lemma StrippedLonger(long: seq<Bit>, short: seq<Bit>)
    requires |long| >= |short|
    ensures ShrinkEquals(long, short) <==> Stripped(long, short)
    ensures ShrinkEquals(short, long) <==> Stripped(short, long)
  {
    var n := |long|;
    assert Search.Min(|long|, |short|) == |short| && Search.Min(|short|, |long|) == |short|;
    assert Search.Max(|long|, |short|) == n && Search.Max(|short|, |long|) == n;
    assert Search.LPad(long, n, 0) == long;
    assert short[|short| - |short|..] == short;
    ZeroExtended(long, short);
  }

  /** `long` is `short` with leading zeros exactly when its excess bits are zeros and the rest is `short`. */
  lemma ZeroExtended(long: seq<Bit>, short: seq<Bit>)
    requires |long| >= |short|
    ensures var k := |long| - |short|;
      (long == Repeat(0, k) + short) <==> (forall i :: 0 <= i < k ==> long[i] == 0) && long[k..] == short
  {
    var k := |long| - |short|;
    if (forall i :: 0 <= i < k ==> long[i] == 0) && long[k..] == short {
      assert long == long[..k] + long[k..];
      assert long[..k] == Repeat(0, k);
    }
  }

  /** Equivalently, the two operands have the same unsigned value. */
  lemma ShrinkEqualsValue(a: seq<Bit>, b: seq<Bit>)
    ensures ShrinkEquals(a, b) <==> Unsigned(a) == Unsigned(b)
  {
    var n := Search.Max(|a|, |b|);
    var pa, pb := Search.LPad(a, n, 0), Search.LPad(b, n, 0);
    Search.LPadZerosValue(a, n);
    Search.LPadZerosValue(b, n);
    if Unsigned(a) == Unsigned(b) {
      NatToBitsOfUnsigned(pa);
      NatToBitsOfUnsigned(pb);
    }
  }

  /** On operands of one length both versions are plain equality. */
  lemma ShrinkEqualsSameLength(a: seq<Bit>, b: seq<Bit>)
    requires |a| == |b|
    ensures ShrinkEqualsAsWritten(a, b) <==> a == b
    ensures ShrinkEquals(a, b) <==> a == b
  {
    ShrinkEqualsAsWrittenPrefix(a, b);
    assert a[..|a|] == a && b[..|b|] == b;
  }

  /** Without `expand`, the corrected `binop` is just the pairs of the shared trailing bits. */
  lemma CombineAlignedPlain(a: seq<Bit>, b: seq<Bit>, op: BitOp, m: nat, x: seq<Bit>, y: seq<Bit>)
    requires m == Search.Min(|a|, |b|) && x == a[|a| - m..] && y == b[|b| - m..]
    ensures CombineAligned(a, b, op, false) == Pairwise(x, y, op)
  {
    var r := CombineAligned(a, b, op, false);
    assert |r| == m;
    assert r[|r| - m..] == r;
  }

  /**
   * Leading zeros in front of the shorter operand: equal for the corrected `shrinkequals`, and 01
   * against 1 not equal as written; a leading one is not a leading zero, so 11 against 1 is not
   * equal.
   */
  lemma ShrinkEqualsLeadingZeros(k: nat, b: seq<Bit>)
    ensures ShrinkEquals(Repeat(0, k) + b, b)
    ensures !ShrinkEqualsAsWritten([0, 1], [1])
    ensures !ShrinkEquals([1, 1], [1])
  {
    var a := Repeat(0, k) + b;
    ZeroExtended(a, b);
    ShrinkEqualsAsWrittenPrefix([0, 1], [1]);
    assert [0, 1][..1] == [0] && [1][..1] == [1];
    assert Search.LPad([1], 2, 0)[0] == 0;
  }

  /** The pair asserted in `test/bits_test.py`: 1100 and 0111 are not `shrinkequals`. */
  lemma ShrinkEqualsExample()
    ensures !ShrinkEqualsAsWritten([1, 1, 0, 0], [0, 1, 1, 1])
  {
    ShrinkEqualsAsWrittenPrefix([1, 1, 0, 0], [0, 1, 1, 1]);
    assert [1, 1, 0, 0][..4][0] != [0, 1, 1, 1][..4][0];
  }

  /** Python's `s[k:]` for a count `k >= 0`. */
  function Drop(s: seq<Bit>, k: nat): (r: seq<Bit>)
    ensures |r| == if k >= |s| then 0 else |s| - k
  {
    if k >= |s| then [] else s[k..]
  }

  /** `lshift(k, expand)`: with `expand` k zeros are appended; otherwise k bits leave on the left and k zeros enter on the right. */
  function LShift(s: seq<Bit>, k: nat, expand: bool): (r: seq<Bit>)
    ensures |r| == if expand then |s| + k else Search.Max(|s|, k)
    ensures forall i :: |r| - k <= i < |r| ==> r[i] == 0
  {
    if expand then s + Repeat(0, k) else Drop(s, k) + Repeat(0, k)
  }

  /**
   * `rshift(k, expand)` as written: k zeros enter on the left and, without `expand`, `s[:-k]`
   * keeps all but the last k bits; for k = 0 that slice is `s[:0]`, so everything is dropped.
   */
  function RShiftAsWritten(s: seq<Bit>, k: nat, expand: bool): (r: seq<Bit>)
    ensures |r| >= k && (expand ==> |r| == |s| + k)
    ensures forall i :: 0 <= i < k ==> r[i] == 0
    ensures !expand && k == 0 ==> r == []
  {
    if expand then Repeat(0, k) + s
    else Repeat(0, k) + (if k == 0 || k >= |s| then [] else s[..|s| - k])
  }

  /** `rshift` with the evident intent: k zeros in front of all but the last k bits, for every k. */
  function RShift(s: seq<Bit>, k: nat, expand: bool): (r: seq<Bit>)
    ensures |r| == if expand then |s| + k else Search.Max(|s|, k)
    ensures forall i :: 0 <= i < k ==> r[i] == 0
    ensures !expand && k == 0 ==> r == s
  {
    if expand then Repeat(0, k) + s
    else Repeat(0, k) + (if k >= |s| then [] else s[..|s| - k])
  }

  /** `rshift(0)` empties any vector as written; the corrected shift leaves it as it is. */
  lemma RShiftZero(s: seq<Bit>)
    requires |s| > 0
    ensures RShiftAsWritten(s, 0, false) == [] && |RShiftAsWritten(s, 0, false)| != |s|
    ensures RShift(s, 0, false) == s
  {
  }

  /** For any positive count the two agree. */
  lemma RShiftAgrees(s: seq<Bit>, k: nat, expand: bool)
    requires k >= 1 || expand
    ensures RShiftAsWritten(s, k, expand) == RShift(s, k, expand)
  {
  }

  /** For 0 <= k <= len, the plain left shift keeps the length and multiplies by 2^k modulo 2^len. */
  lemma LShiftValue(s: seq<Bit>, k: nat)
    requires k <= |s|
    ensures |LShift(s, k, false)| == |s|
    ensures Unsigned(LShift(s, k, false)) == (Unsigned(s) * Pow2(k)) % Pow2(|s|)
  {
    var hi, lo := s[..k], s[k..];
    assert s == hi + lo;
    assert LShift(s, k, false) == lo + Repeat(0, k);
    UnsignedAppend(hi, lo);
    BitVectors.UnsignedTrailingZeros(lo, k);
    Pow2Add(|lo|, k);
    assert |lo| + k == |s|;
    MulShiftMod(Unsigned(s), Unsigned(hi), Unsigned(lo), Pow2(|lo|), Pow2(k), Pow2(|s|));
  }

  /** Shifting `n == a * p + b` (with `b < p`) up by a factor `q` and keeping the residue below `p * q` leaves `b * q`. */
  lemma MulShiftMod(n: nat, a: nat, b: nat, p: nat, q: nat, modulus: nat)
    requires n == a * p + b && b < p && q > 0 && modulus == p * q
    ensures (n * q) % modulus == b * q
  {
    assert n * q == modulus * a + b * q;
    BitVectors.MulMonotone(q, b + 1, p);
    DivModUnique(n * q, modulus, a, b * q);
  }

  /** With `expand` the left shift is multiplication by 2^k. */
  lemma LShiftExpandValue(s: seq<Bit>, k: nat)
    ensures Unsigned(LShift(s, k, true)) == Unsigned(s) * Pow2(k)
  {
    BitVectors.UnsignedTrailingZeros(s, k);
  }

  /** For 0 <= k <= len, the corrected plain right shift keeps the length and divides by 2^k. */
  lemma RShiftValue(s: seq<Bit>, k: nat)
    requires k <= |s|
    ensures |RShift(s, k, false)| == |s|
    ensures Unsigned(RShift(s, k, false)) == Unsigned(s) / Pow2(k)
  {
    var hi, lo := s[..|s| - k], s[|s| - k..];
    assert s == hi + lo;
    UnsignedAppend(hi, lo);
    UnsignedLeadingZeros(k, hi);
    if k < |s| {
      assert RShift(s, k, false) == Repeat(0, k) + hi;
    } else {
      assert hi == [];
      assert RShift(s, k, false) == Repeat(0, k) + hi;
    }
    DivModUnique(Unsigned(s), Pow2(k), Unsigned(hi), Unsigned(lo));
  }

  /** With `expand` the right shift adds leading zeros, which keep the value. */
  lemma RShiftExpandValue(s: seq<Bit>, k: nat)
    ensures Unsigned(RShift(s, k, true)) == Unsigned(s)
  {
    UnsignedLeadingZeros(k, s);
  }
}
