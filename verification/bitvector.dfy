/**
 * The state-changing side of `BitVector` (`bytemaker/bitvector/bitvector_with_bitarray_speedup.py`)
 * and of its near-twin `BitArray` (`bytemaker/BitArray_with_bitarray_speedup.py`): the in-place
 * mutators, the two `pop` rules, `replace` with its in-place overwrite, and the integer and byte
 * conversions `from_int`, `to_bytes`, `__bytes__` and `to_int`.
 */
module BitVectors {
  import opened BitSeq
  import opened Wrappers
  import Utils
  import Search
  import IntCodec

  // ---------------------------------------------------------------------------
  // from_int
  // ---------------------------------------------------------------------------

  /**
   * The `w` low bits of `n`, most significant first, read off `n`'s two's-complement form
   * (Python's `>>` floors, as Dafny's `/` does for a positive divisor).
   */
  function LowBits(n: int, w: nat): (r: seq<Bit>)
    ensures |r| == w
    decreases w
  {
    if w == 0 then [] else LowBits(n / 2, w - 1) + [n % 2]
  }

  lemma DivDiv(n: int, a: int, b: int)
    requires a > 0 && b > 0
    ensures (n / a) / b == n / (a * b)
  {
    var q1, r1 := n / a, n % a;
    var q2, r2 := q1 / b, q1 % b;
    DivModParts(n, a);
    DivModParts(q1, b);
    assert n == a * (b * q2 + r2) + r1;
    assert n == (a * b) * q2 + (a * r2 + r1) by {
      assert a * (b * q2 + r2) == (a * b) * q2 + a * r2;
    }
    assert a * r2 <= a * (b - 1) by {
      MulMonotone(a, r2, b - 1);
    }
    DivModUnique(n, a * b, q2, a * r2 + r1);
  }

  lemma MulMonotone(a: int, x: int, y: int)
    requires a >= 0 && x <= y
    ensures a * x <= a * y
  {
  }

  /** The `from_int` loop prepends bit `i` of `n` to the `i` bits it already has. */
  lemma {:induction false} LowBitsStep(n: int, i: nat)
    ensures LowBits(n, i + 1) == [(n / Pow2(i)) % 2] + LowBits(n, i)
    decreases i
  {
    if i > 0 {
      LowBitsStep(n / 2, i - 1);
      DivDiv(n, 2, Pow2(i - 1));
    }
  }

  /** The unsigned reading of the low bits is `n` modulo 2^w. */
  lemma {:induction false} LowBitsValue(n: int, w: nat)
    ensures Unsigned(LowBits(n, w)) == n % Pow2(w)
    decreases w
  {
    if w > 0 {
      var r := LowBits(n, w);
      var h, c, p := n / 2, n % 2, Pow2(w - 1);
      assert r[..w - 1] == LowBits(h, w - 1);
      LowBitsValue(h, w - 1);
      assert Unsigned(r) == 2 * (h % p) + c;
      var q, m := h / p, h % p;
      DivModParts(h, p);
      DivModParts(n, 2);
      DoubleShift(q, p, m, c);
      assert n == (2 * p) * q + (2 * m + c) by {
        assert q * (2 * p) == (2 * p) * q;
        assert p * q == q * p;
      }
      DivModUnique(n, 2 * p, q, 2 * m + c);
    }
  }

  /** Within the signed range of `w` bits, the low bits read back as `n` in two's complement. */
  lemma LowBitsTwos(n: int, w: nat)
    requires Utils.FitsTwos(n, w)
    ensures TwosValue(LowBits(n, w)) == n
  {
    var r := LowBits(n, w);
    var P := Pow2(w);
    LowBitsValue(n, w);
    assert P == 2 * Pow2(w - 1);
    IntCodec.SignBit(r);
    if n >= 0 {
      DivModUnique(n, P, 0, n);
    } else {
      DivModUnique(n, P, -1, n + P);
    }
  }

  /** The low bits agree with the codec's two's-complement encoding wherever that succeeds. */
  lemma LowBitsAgreesWithCodec(n: int, w: nat)
    requires w >= 1 && IntCodec.InRange(n, w, true, IntCodec.TwosComplement)
    ensures IntCodec.TwosComplementToBits(n, w) == Ok(LowBits(n, w))
  {
    var e := IntCodec.TwosComplementToBits(n, w).value;
    LowBitsValue(n, w);
    NatToBitsOfUnsigned(e);
    NatToBitsOfUnsigned(LowBits(n, w));
  }

  /** The width `from_int` uses: `size`, or `twos_complement_bit_length` when it is omitted. */
  function FromIntWidth(integer: int, size: Option<int>): int
  {
    if size.None? then Utils.TwosComplementBitLength(integer) else size.value
  }

  /**
   * `from_int`: raise when `integer.bit_length()` exceeds the width, else insert bit `index` of
   * the integer at the front for each `index` below the width.
   */
  method FromInt(integer: int, size: Option<int>) returns (r: Result<seq<Bit>>)
    ensures r.Err? <==> BitLength(Abs(integer)) > FromIntWidth(integer, size)
    ensures r.Ok? ==> r.value == LowBits(integer, FromIntWidth(integer, size))
    ensures size.None? ==> r.Ok? && TwosValue(r.value) == integer
  {
    var width := FromIntWidth(integer, size);
    if BitLength(Abs(integer)) > width {
      return Err(ValueError);
    }
    var bitlist: seq<Bit> := [];
    var index := 0;
    while index < width
      invariant 0 <= index <= width
      invariant bitlist == LowBits(integer, index)
    {
      LowBitsStep(integer, index);
      bitlist := [(integer / Pow2(index)) % 2] + bitlist;
      index := index + 1;
    }
    if size.None? {
      Utils.TwosComplementBitLengthLeast(integer);
      LowBitsTwos(integer, width);
    }
    return Ok(bitlist);
  }

  /**
   * A default width one short of the exact one, which is what a width computed through a
   * rounded `log2` comes to at 2^k for large k: `from_int`'s bit-length check still passes,
   * and the k + 1 bits written read back as -2^k.
   */
  lemma OneShortWidthMisreads(k: nat)
    ensures Utils.TwosComplementBitLength(Pow2(k)) - 1 == k + 1
    ensures BitLength(Pow2(k)) <= k + 1
    ensures TwosValue(LowBits(Pow2(k), k + 1)) == -(Pow2(k) as int)
  {
    assert Utils.TwosComplementBitLength(Pow2(k)) == k + 2 by {
      Utils.PowerWidths(k);
    }
    assert BitLength(Pow2(k)) == k + 1 by {
      Utils.BitLengthPow2(k);
    }
    assert Unsigned(LowBits(Pow2(k), k + 1)) == Pow2(k) by {
      LowBitsValue(Pow2(k), k + 1);
      assert Pow2(k + 1) == 2 * Pow2(k);
      DivModUnique(Pow2(k), Pow2(k + 1), 0, Pow2(k));
    }
    HalfRangeTwos(LowBits(Pow2(k), k + 1), k);
  }

  /** Bits whose unsigned value is exactly half their range have a leading 1 and read as its negation. */
  lemma HalfRangeTwos(r: seq<Bit>, k: nat)
    requires |r| == k + 1 && Unsigned(r) == Pow2(k)
    ensures TwosValue(r) == -(Pow2(k) as int)
  {
    IntCodec.SignBit(r);
    assert Pow2(k + 1) == 2 * Pow2(k);
  }

  // ---------------------------------------------------------------------------
  // to_bytes / __bytes__
  // ---------------------------------------------------------------------------

  function Min(a: int, b: int): int { if a < b then a else b }

  lemma Pow2Byte(k: nat)
    requires k <= 8
    ensures Pow2(k) <= 256
  {
    Pow2Monotone(k, 8);
    assert Pow2(8) == 256;
  }

  /**
   * The bytes `to_bytes` packs: each run of 8 bits, most significant first, and a final shorter
   * run packed into the low bits of the last byte.
   */
  function PackBytes(s: seq<Bit>): (r: seq<Byte>)
    ensures |r| <= |s| <= 8 * |r|
  {
    if |s| == 0 then []
    else
      var k := Min(8, |s|);
      Pow2Byte(k);
      [Unsigned(s[..k])] + PackBytes(s[k..])
  }

  /** `to_bytes` gives one byte per started group of 8 bits. */
  lemma {:induction false} PackBytesLength(s: seq<Bit>)
    ensures |PackBytes(s)| == (|s| + 7) / 8
    decreases |s|
  {
    if |s| > 0 {
      PackBytesLength(s[Min(8, |s|)..]);
    }
  }

  function ReverseBytes(b: seq<Byte>): (r: seq<Byte>)
    ensures |r| == |b| && forall i :: 0 <= i < |b| ==> r[i] == b[|b| - 1 - i]
  {
    seq(|b|, i requires 0 <= i < |b| => b[|b| - 1 - i])
  }

  /** `to_bytes(reverse_endianness)`: the packing loop, and the byte order reversed on request. */
  method ToBytes(bits: seq<Bit>, reverseEndianness: bool) returns (r: seq<Byte>)
    ensures r == if reverseEndianness then ReverseBytes(PackBytes(bits)) else PackBytes(bits)
  {
    var byteArr: seq<Byte> := [];
    var i: nat := 0;
    while i < |bits|
      invariant PackedUpTo(bits, i, byteArr)
      decreases |bits| - i
    {
      var byteEnd: nat := Min(i + 8, |bits|);
      var byte := PackByte(bits, i, byteEnd);
      PackStep(bits, i, byteEnd, byteArr, byte);
      byteArr := byteArr + [byte];
      i := byteEnd;
    }
    PackedAll(bits, i, byteArr);
    if reverseEndianness {
      return ReverseBytes(byteArr);
    }
    return byteArr;
  }

  /** The inner loop of `to_bytes`: `byte = (byte << 1) | bit` over the bits of one byte. */
  method PackByte(bits: seq<Bit>, i: nat, byteEnd: nat) returns (byte: int)
    requires i <= byteEnd <= |bits|
    ensures byte == Unsigned(bits[i..byteEnd])
  {
    byte := 0;
    var j: nat := i;
    while j < byteEnd
      invariant i <= j <= byteEnd
      invariant byte == Unsigned(bits[i..j])
    {
      UnsignedExtend(bits, i, j);
      byte := 2 * byte + bits[j];
      j := j + 1;
    }
  }

  /** `done` holds the packed bytes of `bits` before position `i`. */
  predicate PackedUpTo(bits: seq<Bit>, i: nat, done: seq<Byte>)
  {
    i <= |bits| && done + PackBytes(bits[i..]) == PackBytes(bits)
  }

  lemma PackedAll(bits: seq<Bit>, i: nat, done: seq<Byte>)
    requires PackedUpTo(bits, i, done) && i >= |bits|
    ensures done == PackBytes(bits)
  {
    assert bits[i..] == [];
  }

  /** One round of the inner packing loop: the next bit enters at the bottom. */
  lemma UnsignedExtend(bits: seq<Bit>, i: nat, j: nat)
    requires i <= j < |bits|
    ensures Unsigned(bits[i..j + 1]) == 2 * Unsigned(bits[i..j]) + bits[j]
  {
    assert bits[i..j + 1][..j - i] == bits[i..j];
  }

  /** One round of the packing loop: the chunk from `i` becomes the next byte. */
  lemma PackStep(bits: seq<Bit>, i: nat, byteEnd: nat, done: seq<Byte>, byte: int)
    requires i < |bits| && byteEnd == Min(i + 8, |bits|) && byte == Unsigned(bits[i..byteEnd])
    requires PackedUpTo(bits, i, done)
    ensures 0 <= byte < 256 && PackedUpTo(bits, byteEnd, done + [byte])
  {
    Pow2Byte(byteEnd - i);
    var s := bits[i..];
    var k := byteEnd - i;
    assert s[..k] == bits[i..byteEnd];
    assert s[k..] == bits[byteEnd..];
    PackBytesUnfold(s, k, bits[i..byteEnd], bits[byteEnd..]);
    Regroup(done, [byte], PackBytes(bits[byteEnd..]), PackBytes(bits));
  }

  lemma Regroup<T>(a: seq<T>, b: seq<T>, c: seq<T>, whole: seq<T>)
    requires a + (b + c) == whole
    ensures (a + b) + c == whole
  {
  }

  /** The first byte of `to_bytes` and the rest, with the chunk and the remaining bits given by name. */
  lemma PackBytesUnfold(s: seq<Bit>, k: nat, head: seq<Bit>, tail: seq<Bit>)
    requires |s| > 0 && k == Min(8, |s|) && head == s[..k] && tail == s[k..]
    ensures PackBytes(s) == [Unsigned(head)] + PackBytes(tail)
  {
  }

  /** Byte `j` of `to_bytes` is the unsigned value of bits `8j` up to `8j + 8` (or the end). */
  lemma {:induction false} PackBytesChunk(s: seq<Bit>, j: nat)
    requires 8 * j < |s|
    ensures j < |PackBytes(s)| && PackBytes(s)[j] == Unsigned(s[8 * j..Min(8 * j + 8, |s|)])
    decreases j
  {
    var k := Min(8, |s|);
    var head, rest := s[..k], s[k..];
    PackBytesUnfold(s, k, head, rest);
    if j == 0 {
      assert s[0..k] == head;
    } else {
      ChunkOfRest(s, j);
      PackBytesChunk(rest, j - 1);
    }
  }

  /** Chunk `j` of `s` is chunk `j - 1` of what follows the first byte. */
  lemma ChunkOfRest(s: seq<Bit>, j: nat)
    requires 1 <= j && 8 * j < |s|
    ensures Min(8, |s|) == 8 && 8 * (j - 1) < |s| - 8
    ensures s[8..][8 * (j - 1)..Min(8 * (j - 1) + 8, |s| - 8)] == s[8 * j..Min(8 * j + 8, |s|)]
  {
    var lo := 8 * (j - 1);
    var hi := Min(lo + 8, |s| - 8);
    assert 8 + lo == 8 * j && 8 + hi == Min(8 * j + 8, |s|);
    DropSlice(s, 8, lo, hi);
  }

  lemma DropSlice(s: seq<Bit>, a: nat, lo: nat, hi: nat)
    requires a <= |s| && lo <= hi <= |s| - a
    ensures s[a..][lo..hi] == s[a + lo..a + hi]
  {
  }

  /** The big-endian value of a byte string (`int.from_bytes(..., "big", signed=False)`). */
  function BytesValue(b: seq<Byte>): (r: nat)
    ensures r < Pow2(8 * |b|)
  {
    if |b| == 0 then 0
    else
      var e := 8 * (|b| - 1);
      Pow2Add(8, e);
      assert Pow2(8) == 256;
      MulMonotone(Pow2(e), b[0], 255);
      b[0] * Pow2(e) + BytesValue(b[1..])
  }

  /** The leading byte weighs `2^e`, with `e` the number of bits after it. */
  lemma BytesValueUnfold(b: seq<Byte>, e: nat)
    requires |b| > 0 && e == 8 * (|b| - 1)
    ensures BytesValue(b) == b[0] * Pow2(e) + BytesValue(b[1..])
  {
  }

  lemma EightDivides(n: nat)
    requires n % 8 == 0 && n > 0
    ensures n >= 8 && (n - 8) % 8 == 0 && 8 * ((n - 8 + 7) / 8) == n - 8
  {
    var q := n / 8;
    DivModParts(n, 8);
    assert n == 8 * q && q >= 1;
    DivModUnique(n - 8, 8, q - 1, 0);
    DivModUnique(n - 8 + 7, 8, q - 1, 7);
  }

  /** Packing a whole number of bytes keeps the unsigned value. */
  lemma {:induction false} PackBytesValue(s: seq<Bit>)
    requires |s| % 8 == 0
    ensures BytesValue(PackBytes(s)) == Unsigned(s)
    decreases |s|
  {
    if |s| > 0 {
      EightDivides(|s|);
      var head, rest := s[..8], s[8..];
      var packed, tail := PackBytes(s), PackBytes(rest);
      PackBytesUnfold(s, 8, head, rest);
      assert packed[1..] == tail;
      PackBytesValue(rest);
      PackBytesLength(rest);
      var uh: int, ur: int, us: int, p: int := Unsigned(head), Unsigned(rest), Unsigned(s), Pow2(|rest|);
      BytesValueUnfold(packed, |rest|);
      assert BytesValue(packed) == uh * p + ur;
      assert us == uh * p + ur by {
        assert s == head + rest;
        UnsignedAppend(head, rest);
      }
    }
  }

  /** The leading byte of a whole number of bytes has its top bit set exactly when the first bit is 1. */
  lemma PackBytesSign(s: seq<Bit>)
    requires |s| >= 8
    ensures PackBytes(s)[0] >= 128 <==> s[0] == 1
  {
    var head := s[..8];
    IntCodec.SignBit(head);
    assert Pow2(7) == 128;
  }

  /** The number of zeros `bitarray.tobytes` appends to reach a multiple of 8. */
  function PadLength(n: nat): nat
  {
    (8 - n % 8) % 8
  }

  /** `__bytes__`: `bitarray.tobytes`, which pads with zeros on the right before packing. */
  function ToBytesPadded(bits: seq<Bit>): (r: seq<Byte>)
    ensures |r| == (|bits| + 7) / 8
  {
    PackBytesLength(bits + Repeat(0, PadLength(|bits|)));
    PaddedByteCount(|bits|);
    PackBytes(bits + Repeat(0, PadLength(|bits|)))
  }

  /** Padding to whole bytes does not change the number of bytes started. */
  lemma PaddedByteCount(n: nat)
    ensures (n + PadLength(n) + 7) / 8 == (n + 7) / 8
  {
    var q, r := n / 8, n % 8;
    assert n == 8 * q + r;
    if r == 0 {
      assert PadLength(n) == 0;
    } else {
      assert PadLength(n) == 8 - r;
      DivModUnique(n + 8 - r + 7, 8, q + 1, 7);
      DivModUnique(n + 7, 8, q + 1, r - 1);
    }
  }

  /** On a whole number of bytes, `__bytes__` and `to_bytes` agree. */
  lemma ToBytesPaddedAligned(bits: seq<Bit>)
    requires |bits| % 8 == 0
    ensures ToBytesPadded(bits) == PackBytes(bits)
  {
    NoPadding(bits);
  }

  lemma NoPadding(bits: seq<Bit>)
    requires |bits| % 8 == 0
    ensures bits + Repeat(0, PadLength(|bits|)) == bits
  {
    assert PadLength(|bits|) == 0;
  }

  /**
   * Otherwise the last byte differs: `to_bytes` keeps the final `m` bits in the low bits, and
   * `__bytes__` puts them in the high bits, `2^(8-m)` times larger.
   */
  lemma ToBytesPaddedLastByte(bits: seq<Bit>)
    requires |bits| % 8 != 0
    ensures var q := |bits| / 8;
      |PackBytes(bits)| == q + 1 && |ToBytesPadded(bits)| == q + 1
      && ToBytesPadded(bits)[..q] == PackBytes(bits)[..q]
      && ToBytesPadded(bits)[q] == PackBytes(bits)[q] * Pow2(8 - |bits| % 8)
  {
    var q := |bits| / 8;
    var full, tail := bits[..8 * q], bits[8 * q..];
    var z := Repeat(0, 8 - |tail|);
    LastByteSplit(bits, q, full, tail, z);
    PackTail(full, tail, q);
    var packed, padded := PackBytes(bits), ToBytesPadded(bits);
    assert packed == PackBytes(full + tail);
    assert padded == PackBytes(full + tail + z);
    Pow2Same(8 - |tail|, 8 - |bits| % 8);
    assert padded[q] == packed[q] * Pow2(8 - |tail|);
  }

  /** The whole bytes, the 1 to 7 bits left over and the zeros `__bytes__` pads them with. */
  lemma LastByteSplit(bits: seq<Bit>, q: nat, full: seq<Bit>, tail: seq<Bit>, z: seq<Bit>)
    requires |bits| % 8 != 0 && q == |bits| / 8
    requires 8 * q <= |bits| && full == bits[..8 * q] && tail == bits[8 * q..] && z == Repeat(0, 8 - |tail|)
    ensures bits == full + tail && bits + Repeat(0, PadLength(|bits|)) == full + tail + z
    ensures |full| % 8 == 0 && |full| / 8 == q && 0 < |tail| < 8 && |tail| == |bits| % 8
  {
    ByteSplit(|bits|);
  }

  lemma SnocParts<T>(p: seq<T>, x: T, n: nat)
    requires n == |p|
    ensures |p + [x]| == n + 1 && (p + [x])[..n] == p && (p + [x])[n] == x
  {
  }

  lemma Pow2Same(a: nat, b: nat)
    requires a == b
    ensures Pow2(a) == Pow2(b)
  {
  }

  /**
   * `n` whole bytes, then 1 to 7 bits: packed as they stand they end in their own value, and
   * padded with zeros they end in that value shifted up to the top of the byte.
   */
  lemma PackTail(full: seq<Bit>, tail: seq<Bit>, n: nat)
    requires |full| % 8 == 0 && 0 < |tail| < 8 && n == |full| / 8
    ensures var a, b := PackBytes(full + tail), PackBytes(full + tail + Repeat(0, 8 - |tail|));
      |a| == n + 1 && |b| == n + 1 && a[..n] == b[..n] && b[n] == a[n] * Pow2(8 - |tail|)
  {
    var z := Repeat(0, 8 - |tail|);
    assert full + tail + z == full + (tail + z);
    PackBytesConcat(full, tail);
    PackBytesConcat(full, tail + z);
    PackBytesShort(tail);
    PackBytesShort(tail + z);
    UnsignedTrailingZeros(tail, 8 - |tail|);
    PackBytesLength(full);
    var head, u := PackBytes(full), Unsigned(tail);
    SnocParts(head, u, n);
    SnocParts(head, PackBytes(tail + z)[0], n);
  }

  /** Trailing zeros shift the unsigned value left. */
  lemma UnsignedTrailingZeros(s: seq<Bit>, k: nat)
    ensures Unsigned(s + Repeat(0, k)) == Unsigned(s) * Pow2(k)
  {
    var z := Repeat(0, k);
    var u: int, uz: int, p: int, v: int := Unsigned(s), Unsigned(z), Pow2(k), Unsigned(s + z);
    UnsignedAppend(s, z);
    assert v == u * p + uz;
    UnsignedRepeat(0, k);
    assert uz == 0;
  }

  /** A length that is not a whole number of bytes: `q` whole bytes and `m` bits more. */
  lemma ByteSplit(len: nat)
    requires len % 8 != 0
    ensures var q, m := len / 8, len % 8;
      len == 8 * q + m && 0 < m < 8 && (len + 7) / 8 == q + 1 && PadLength(len) == 8 - m
      && (8 * q) % 8 == 0 && (8 * q + 7) / 8 == q && (8 * q) / 8 == q
  {
  }

  /** Packing a whole number of bytes and then the rest is packing the concatenation. */
  lemma {:induction false} PackBytesConcat(a: seq<Bit>, b: seq<Bit>)
    requires |a| % 8 == 0
    ensures PackBytes(a + b) == PackBytes(a) + PackBytes(b)
    decreases |a|
  {
    if |a| > 0 {
      assert |a| >= 8 && (|a| - 8) % 8 == 0;
      var ab := a + b;
      assert ab[..8] == a[..8] && ab[8..] == a[8..] + b;
      PackBytesUnfold(ab, 8, a[..8], a[8..] + b);
      PackBytesUnfold(a, 8, a[..8], a[8..]);
      PackBytesConcat(a[8..], b);
    } else {
      assert a + b == b;
    }
  }

  /** At most 8 bits pack into the single byte of their unsigned value. */
  lemma PackBytesShort(s: seq<Bit>)
    requires 0 < |s| <= 8
    ensures PackBytes(s) == [Unsigned(s)]
  {
    assert s[..|s|] == s;
    assert s[|s|..] == [];
  }

  /** "1": `to_bytes` gives the byte 1, `__bytes__` the byte 128. */
  lemma ToBytesVersusBytes(bits: seq<Bit>)
    requires bits == [1]
    ensures PackBytes(bits) == [1] && ToBytesPadded(bits) == [128]
  {
    ToBytesPaddedLastByte(bits);
    assert bits[..1] == [1];
    UnsignedSingle(1);
    assert Pow2(7) == 128;
  }

  // ---------------------------------------------------------------------------
  // to_int
  // ---------------------------------------------------------------------------

  /** `int.from_bytes(b, byteorder, signed)`. */
  function FromBytes(b: seq<Byte>, bigEndian: bool, signed: bool): (r: int)
    ensures r < Pow2(8 * |b|)
    ensures !signed ==> r >= 0
    ensures r < 0 ==> signed && |b| > 0 && -(Pow2(8 * |b|) as int) <= r
  {
    var ordered := if bigEndian then b else ReverseBytes(b);
    var v := BytesValue(ordered);
    if signed && |ordered| > 0 && ordered[0] >= 128 then v - Pow2(8 * |ordered|) else v
  }

  /** `math.ceil(len / 8) * 8`. */
  function RoundUp8(n: nat): nat
  {
    (n + 7) / 8 * 8
  }

  /**
   * `to_int` as written: only a signed vector with a leading 1 is padded (with 1s) to a whole
   * number of bytes before `to_bytes` and `int.from_bytes`.
   */
  function ToIntAsWritten(bits: seq<Bit>, bigEndian: bool, signed: bool): (r: int)
    ensures bits == [] ==> r == 0
    ensures !signed ==> r >= 0
  {
    var copy := if signed && |bits| > 0 && bits[0] == 1 then Search.LPad(bits, RoundUp8(|bits|), 1) else bits;
    FromBytes(PackBytes(copy), bigEndian, signed)
  }

  /** The values asserted in `test/bits_test.py`: 0101 gives 5, 101 gives -3 and 10101 gives -11. */
  lemma ToIntAsWrittenPositive(a: seq<Bit>)
    requires a == [0, 1, 0, 1]
    ensures ToIntAsWritten(a, true, true) == 5
  {
    UnsignedSingle(0);
    UnsignedSnoc([0], 1);
    UnsignedSnoc([0, 1], 0);
    UnsignedSnoc([0, 1, 0], 1);
    assert [0, 1, 0] + [1] == a;
    PackBytesShort(a);
    assert PackBytes(a) == [5];
    assert BytesValue([5]) == 5 * Pow2(0) + BytesValue([]);
  }

  lemma ToIntAsWrittenNegative(b: seq<Bit>)
    requires b == [1, 0, 1]
    ensures ToIntAsWritten(b, true, true) == -3
  {
    assert Unsigned(b) == 5 by {
      UnsignedSingle(1);
      UnsignedSnoc([1], 0);
      UnsignedSnoc([1, 0], 1);
      assert [1, 0] + [1] == b;
    }
    ToIntAsWrittenAgrees(b, true, true);
    ToIntBigEndian(b, true);
    assert Pow2(3) == 8;
  }

  lemma ToIntAsWrittenNegativeLonger(c: seq<Bit>)
    requires c == [1, 0, 1, 0, 1]
    ensures ToIntAsWritten(c, true, true) == -11
  {
    assert Unsigned(c) == 21 by {
      UnsignedSingle(1);
      UnsignedSnoc([1], 0);
      UnsignedSnoc([1, 0], 1);
      assert [1, 0] + [1] == [1, 0, 1];
      UnsignedSnoc([1, 0, 1], 0);
      assert [1, 0, 1] + [0] == [1, 0, 1, 0];
      UnsignedSnoc([1, 0, 1, 0], 1);
      assert [1, 0, 1, 0] + [1] == c;
    }
    assert ToIntAsWritten(c, true, true) == TwosValue(c) by {
      ToIntAsWrittenAgrees(c, true, true);
      ToIntBigEndian(c, true);
    }
    assert Pow2(5) == 32;
  }

  /** Appending a bit doubles the value and adds the bit. */
  lemma UnsignedSnoc(s: seq<Bit>, b: Bit)
    ensures Unsigned(s + [b]) == 2 * Unsigned(s) + b
  {
    assert (s + [b])[..|s|] == s;
  }

  /**
   * A non-negative vector whose length is not a multiple of 8 is packed from the left, so its
   * last partial byte lands in the low bits: the 10-bit 0100000000 (256) reads as 16384.
   */
  lemma ToIntAsWrittenMisaligned(bits: seq<Bit>)
    requires bits == [0, 1] + Repeat(0, 8)
    ensures ToIntAsWritten(bits, true, true) == 16384
    ensures TwosValue(bits) == 256
  {
    var one: seq<Bit> := [0, 1];
    assert one[..1] == [0];
    assert Unsigned(one) == 1;
    var head, tail := bits[..8], bits[8..];
    assert head == one + Repeat(0, 6) && tail == Repeat(0, 2);
    assert bits == one + Repeat(0, 8);
    UnsignedTrailingZeros(one, 6);
    UnsignedTrailingZeros(one, 8);
    UnsignedRepeat(0, 2);
    assert Pow2(6) == 64 && Pow2(8) == 256;
    assert bits == head + tail;
    PackBytesConcat(head, tail);
    PackBytesShort(head);
    PackBytesShort(tail);
    var p := PackBytes(bits);
    assert p == [64, 0];
    assert p[1..] == [0];
    assert BytesValue(p[1..]) == 0;
    assert BytesValue(p) == 64 * Pow2(8);
  }

  /**
   * `to_int` with the evident intent: pad every vector to a whole number of bytes with its sign
   * bit (1 for a signed vector with a leading 1, else 0), then read the bytes.
   */
  function ToInt(bits: seq<Bit>, bigEndian: bool, signed: bool): (r: int)
    ensures bits == [] ==> r == 0
    ensures !signed ==> r >= 0
  {
    var fill: Bit := if signed && |bits| > 0 && bits[0] == 1 then 1 else 0;
    FromBytes(PackBytes(Search.LPad(bits, RoundUp8(|bits|), fill)), bigEndian, signed)
  }

  /** Big endian, the corrected `to_int` is the two's-complement or unsigned reading of the bits. */
  lemma ToIntBigEndian(bits: seq<Bit>, signed: bool)
    ensures ToInt(bits, true, signed) == if signed then TwosValue(bits) else Unsigned(bits)
  {
    var fill: Bit := if signed && |bits| > 0 && bits[0] == 1 then 1 else 0;
    var n := RoundUp8(|bits|);
    var copy := Search.LPad(bits, n, fill);
    var k: int := n - |bits|;
    PaddedCopy(bits, n, k, fill, copy);
    FromBytesPacked(copy, signed);
    ExtendedValue(bits, signed, fill, k, copy);
  }

  /** The left-padded copy `to_int` packs: a whole number of bytes, the fill bit in front. */
  lemma PaddedCopy(bits: seq<Bit>, n: nat, k: int, fill: Bit, copy: seq<Bit>)
    requires n == RoundUp8(|bits|) && k == n - |bits| && copy == Search.LPad(bits, n, fill)
    ensures |copy| % 8 == 0 && 0 <= k && copy == Repeat(fill, k) + bits
    ensures |bits| == 0 ==> k == 0
  {
    RoundUp8Facts(|bits|);
  }

  /** Padding with the fill bit `to_int` chooses keeps the reading it then makes. */
  lemma ExtendedValue(bits: seq<Bit>, signed: bool, fill: Bit, k: nat, copy: seq<Bit>)
    requires fill == if signed && |bits| > 0 && bits[0] == 1 then 1 else 0
    requires copy == Repeat(fill, k) + bits && (|bits| == 0 ==> k == 0)
    ensures (if signed then TwosValue(copy) else Unsigned(copy)) == (if signed then TwosValue(bits) else Unsigned(bits))
  {
    if signed && |bits| > 0 {
      assert Repeat(fill, k) == Repeat(bits[0], k);
      TwosSignExtend(k, bits);
    } else if signed {
      assert copy == bits;
    } else {
      UnsignedLeadingZeros(k, bits);
    }
  }

  /** Big endian, the packed bytes of a whole number of bytes read back as the bits do. */
  lemma FromBytesPacked(s: seq<Bit>, signed: bool)
    requires |s| % 8 == 0
    ensures FromBytes(PackBytes(s), true, signed) == if signed then TwosValue(s) else Unsigned(s)
  {
    PackedFacts(s);
  }

  /** What the packed bytes of a whole number of bytes keep: value, length and sign. */
  lemma PackedFacts(s: seq<Bit>)
    requires |s| % 8 == 0
    ensures BytesValue(PackBytes(s)) == Unsigned(s) && 8 * |PackBytes(s)| == |s|
    ensures |s| > 0 ==> (PackBytes(s)[0] >= 128 <==> s[0] == 1)
  {
    PackBytesValue(s);
    PackBytesLength(s);
    WholeBytes(|s|);
    if |s| > 0 {
      PackBytesSign(s);
    }
  }

  lemma WholeBytes(len: nat)
    requires len % 8 == 0
    ensures 8 * ((len + 7) / 8) == len
  {
    DivModParts(len, 8);
    DivModUnique(len + 7, 8, len / 8, 7);
  }

  /** Repeating the sign bit in front keeps the two's-complement value. */
  lemma TwosSignExtend(k: nat, s: seq<Bit>)
    requires |s| > 0
    ensures TwosValue(Repeat(s[0], k) + s) == TwosValue(s)
  {
    var t := Repeat(s[0], k) + s;
    assert t[0] == s[0] by {
      if k == 0 {
        assert t == s;
      }
    }
    if s[0] == 1 {
      SignExtend(k, s);
    } else {
      UnsignedLeadingZeros(k, s);
    }
  }

  lemma RoundUp8Facts(len: nat)
    ensures var n := RoundUp8(len);
      n % 8 == 0 && len <= n < len + 8 && (len > 0 ==> n >= 8) && (len % 8 == 0 ==> n == len)
      && 8 * ((n + 7) / 8) == n
  {
  }

  /** Leading 1s in front of a negative two's-complement value do not change it. */
  lemma {:induction false} SignExtend(k: nat, s: seq<Bit>)
    ensures Unsigned(Repeat(1, k) + s) - Pow2(|Repeat(1, k) + s|) == Unsigned(s) - Pow2(|s|)
    decreases k
  {
    var whole := Repeat(1, k) + s;
    if k == 0 {
      assert whole == s;
    } else {
      var t := Repeat(1, k - 1) + s;
      assert whole == [1] + t;
      UnsignedCons(1, t);
      SignExtend(k - 1, s);
      Pow2Succ(|t|, |whole|);
    }
  }

  lemma UnsignedCons(b: Bit, t: seq<Bit>)
    ensures Unsigned([b] + t) == b * Pow2(|t|) + Unsigned(t)
  {
    UnsignedAppend([b], t);
    UnsignedSingle(b);
  }

  lemma Pow2Succ(a: nat, b: nat)
    requires b == a + 1
    ensures Pow2(b) == 2 * Pow2(a)
  {
  }

  /** Where `to_int` as written already pads correctly, it agrees with the corrected reading. */
  lemma ToIntAsWrittenAgrees(bits: seq<Bit>, bigEndian: bool, signed: bool)
    requires |bits| % 8 == 0 || (signed && |bits| > 0 && bits[0] == 1)
    ensures ToIntAsWritten(bits, bigEndian, signed) == ToInt(bits, bigEndian, signed)
  {
    if !(signed && |bits| > 0 && bits[0] == 1) {
      assert RoundUp8(|bits|) == |bits|;
      assert Repeat(0, 0) + bits == bits;
    }
  }

  // ---------------------------------------------------------------------------
  // The in-place mutators
  // ---------------------------------------------------------------------------

  /** The bits with `b` inserted before position `i`. */
  function InsertAt(s: seq<Bit>, i: nat, b: Bit): (r: seq<Bit>)
    requires i <= |s|
    ensures |r| == |s| + 1 && r[i] == b
  {
    s[..i] + [b] + s[i..]
  }

  /** The bits with position `i` taken out. */
  function RemoveAt(s: seq<Bit>, i: nat): (r: seq<Bit>)
    requires i < |s|
    ensures |r| == |s| - 1
  {
    s[..i] + s[i + 1..]
  }

  /** Taking out an inserted bit gives back the original bits. */
  lemma RemoveInserted(s: seq<Bit>, i: nat, b: Bit)
    requires i <= |s|
    ensures RemoveAt(InsertAt(s, i, b), i) == s
  {
    var t := InsertAt(s, i, b);
    assert t[..i] == s[..i];
    assert t[i + 1..] == s[i..];
  }

  /** Putting a removed bit back where it was gives back the original bits. */
  lemma InsertRemoved(s: seq<Bit>, i: nat)
    requires i < |s|
    ensures InsertAt(RemoveAt(s, i), i, s[i]) == s
  {
    var t := RemoveAt(s, i);
    assert t[..i] == s[..i];
    assert t[i..] == s[i + 1..];
  }

  /** The first position holding `b`, or -1 when there is none. */
  function FirstIndexOf(s: seq<Bit>, b: Bit): (r: int)
    ensures r == -1 <==> b !in s
    ensures r != -1 ==> 0 <= r < |s| && s[r] == b && forall j :: 0 <= j < r ==> s[j] != b
  {
    if |s| == 0 then -1
    else if s[0] == b then 0
    else
      var r := FirstIndexOf(s[1..], b);
      if r == -1 then -1 else r + 1
  }

  /** `BitVector`: a mutable sequence of bits. */
  class BitVector {
    var bits: seq<Bit>

    constructor(source: seq<Bit>)
      ensures bits == source
    {
      bits := source;
    }

    /** `append(value)`. */
    method Append(value: Bit)
      modifies this
      ensures bits == old(bits) + [value]
    {
      bits := bits + [value];
    }

    /** `extend(values)` and `+=`: the bits are added on the right. */
    method Extend(values: seq<Bit>)
      modifies this
      ensures bits == old(bits) + values
    {
      bits := bits + values;
    }

    /** `insert(index, value)`, with Python's index rule: negative counts from the end, then clamped. */
    method Insert(index: int, value: Bit)
      modifies this
      ensures bits == InsertAt(old(bits), Search.Clamp(index, |old(bits)|), value)
    {
      var i := Search.Clamp(index, |bits|);
      bits := bits[..i] + [value] + bits[i..];
    }

    /**
     * `pop(index, default)`: the index defaults to the last position; an index outside
     * `0..len-1` gives the default when there is one (self unchanged) and raises otherwise.
     */
    method Pop(index: Option<int>, default: Option<int>) returns (r: Result<int>)
      modifies this
      ensures var i := if index.None? then |old(bits)| - 1 else index.value;
        if 0 <= i < |old(bits)| then r == Ok(old(bits)[i]) && bits == RemoveAt(old(bits), i)
        else bits == old(bits) && r == (if default.Some? then Ok(default.value) else Err(IndexError))
    {
      var i := if index.None? then |bits| - 1 else index.value;
      if i >= |bits| || i < 0 {
        if default.Some? {
          return Ok(default.value);
        }
        return Err(IndexError);
      }
      r := Ok(bits[i]);
      bits := bits[..i] + bits[i + 1..];
    }

    /** `remove(value)`: the first occurrence goes; `ValueError` when there is none. */
    method Remove(value: Bit) returns (r: Result<()>)
      modifies this
      ensures var i := FirstIndexOf(old(bits), value);
        if i == -1 then r == Err(ValueError) && bits == old(bits)
        else r == Ok(()) && bits == RemoveAt(old(bits), i)
    {
      var i := FirstIndexOf(bits, value);
      if i == -1 {
        return Err(ValueError);
      }
      bits := RemoveAt(bits, i);
      return Ok(());
    }

    /** `reverse()`. */
    method Reverse()
      modifies this
      ensures bits == BitSeq.Reverse(old(bits))
    {
      bits := BitSeq.Reverse(bits);
    }

    /**
     * `replace(old, new, count)`: left to right, at most `count` non-overlapping occurrences,
     * resuming past each. With equal lengths the matches are overwritten in place and the result
     * is this vector; otherwise a new vector is built and this one is left alone.
     */
    method Replace(pattern: seq<Bit>, replacement: seq<Bit>, count: Option<int>) returns (r: seq<Bit>)
      requires |pattern| > 0 || count.Some?
      modifies this
      ensures r == Search.Replace(old(bits), pattern, replacement, count)
      ensures bits == if |pattern| == |replacement| then r else old(bits)
    {
      ghost var orig := bits;
      ghost var done: seq<Bit> := [];
      var inPlace := |pattern| == |replacement|;
      var made: nat := 0;
      var index: nat := 0;
      var acc: seq<Bit> := [];
      ReplaceStart(orig, pattern, replacement, count, inPlace);
      while Search.MayReplace(made, count)
        invariant ReplacedUpTo(orig, pattern, replacement, count, index, made, done)
        invariant Tracks(bits, acc, orig, done, index, inPlace)
        decreases Search.Remaining(made, count), |orig| - index
      {
        var found := Search.Find(bits, pattern, index, None);
        FindSameSuffix(bits, acc, orig, pattern, done, index, inPlace);
        if found == -1 {
          break;
        }
        acc, done, index, made := ReplaceOne(orig, pattern, replacement, count, acc, done, index, made, found, inPlace);
      }
      ReplaceFinish(orig, pattern, replacement, count, index, made, done);
      if inPlace {
        r := bits;
      } else {
        acc := acc + bits[index..];
        r := acc;
      }
    }

    /** One match of `replace`'s loop: it joins the output, overwritten in place or appended to `acc`. */
    method ReplaceOne(ghost orig: seq<Bit>, pattern: seq<Bit>, replacement: seq<Bit>, count: Option<int>,
                      acc: seq<Bit>, ghost done: seq<Bit>, index: nat, made: nat, found: int, inPlace: bool)
      returns (acc': seq<Bit>, ghost done': seq<Bit>, next: nat, nextMade: nat)
      requires |pattern| > 0 || count.Some?
      requires inPlace == (|pattern| == |replacement|)
      requires Search.MayReplace(made, count) && ReplacedUpTo(orig, pattern, replacement, count, index, made, done)
      requires Tracks(bits, acc, orig, done, index, inPlace)
      requires found == Search.Find(orig, pattern, index, None) && found != -1
      modifies this
      ensures index <= found && next == found + |pattern| && nextMade == made + 1
      ensures Search.Remaining(nextMade, count) < Search.Remaining(made, count)
        || (Search.Remaining(nextMade, count) == Search.Remaining(made, count) && next > index)
      ensures ReplacedUpTo(orig, pattern, replacement, count, next, nextMade, done')
      ensures Tracks(bits, acc', orig, done', next, inPlace)
    {
      next, nextMade := found + |pattern|, made + 1;
      ReplaceAdvance(orig, pattern, replacement, count, index, made, done, found, next, nextMade);
      acc' := acc;
      if inPlace {
        var stop := found + |replacement|;
        OverwriteStep(bits, acc, orig, done, replacement, index, found, stop, next);
        bits := bits[..found] + replacement + bits[stop..];
      } else {
        BuildStep(bits, acc, orig, done, replacement, index, found, next);
        acc' := acc + (bits[index..found] + replacement);
      }
      done' := done + (orig[index..found] + replacement);
    }
  }

  /** Before the first search nothing is done and the whole vector is still to be scanned. */
  lemma ReplaceStart(orig: seq<Bit>, pattern: seq<Bit>, replacement: seq<Bit>, count: Option<int>, inPlace: bool)
    requires |pattern| > 0 || count.Some?
    ensures ReplacedUpTo(orig, pattern, replacement, count, 0, 0, [])
    ensures Tracks(orig, [], orig, [], 0, inPlace)
  {
    assert orig[0..] == orig;
  }

  /**
   * The loop invariant of `replace`: after `made` replacements the scan has reached `index`,
   * and the output so far, `done`, followed by replacing in the bits still to scan gives the
   * whole result.
   */
  predicate ReplacedUpTo(orig: seq<Bit>, pattern: seq<Bit>, replacement: seq<Bit>, count: Option<int>,
                         index: nat, made: nat, done: seq<Bit>)
    requires |pattern| > 0 || count.Some?
  {
    index <= |orig|
    && done + Search.ReplaceRest(orig[index..], pattern, replacement, made, count)
       == Search.Replace(orig, pattern, replacement, count)
  }

  /**
   * Where the output so far lives: overwritten into the vector in front of the unscanned bits
   * when the lengths agree, accumulated apart from the unchanged vector otherwise.
   */
  predicate Tracks(bits: seq<Bit>, acc: seq<Bit>, orig: seq<Bit>, done: seq<Bit>, index: nat, inPlace: bool)
  {
    index <= |orig|
    && if inPlace then bits == done + orig[index..] && |done| == index else bits == orig && acc == done
  }

  /** `find(old, index)` sees only the bits from `index` on, which the loop has not touched. */
  lemma FindSameSuffix(bits: seq<Bit>, acc: seq<Bit>, orig: seq<Bit>, pattern: seq<Bit>, done: seq<Bit>, index: nat, inPlace: bool)
    requires Tracks(bits, acc, orig, done, index, inPlace)
    ensures Search.Find(bits, pattern, index, None) == Search.Find(orig, pattern, index, None)
  {
    assert bits[index..] == orig[index..];
    Search.FindShift(bits, pattern, index);
    Search.FindShift(orig, pattern, index);
  }

  /** One replacement: the bits before the match and `new` join the output; the scan resumes at `next`. */
  lemma ReplaceAdvance(orig: seq<Bit>, pattern: seq<Bit>, replacement: seq<Bit>, count: Option<int>,
                       index: nat, made: nat, done: seq<Bit>, found: int, next: int, nextMade: nat)
    requires |pattern| > 0 || count.Some?
    requires Search.MayReplace(made, count) && ReplacedUpTo(orig, pattern, replacement, count, index, made, done)
    requires found == Search.Find(orig, pattern, index, None) && found != -1
    requires next == found + |pattern| && nextMade == made + 1
    ensures index <= found && 0 <= next <= |orig|
    ensures ReplacedUpTo(orig, pattern, replacement, count, next, nextMade, done + (orig[index..found] + replacement))
  {
    RestStepAt(orig, pattern, replacement, count, index, made, found, next, nextMade);
    var later := Search.ReplaceRest(orig[next..], pattern, replacement, nextMade, count);
    Regroup(done, orig[index..found] + replacement, later, Search.Replace(orig, pattern, replacement, count));
  }

  /** The scan of the bits from `index` on: the bits up to the match, `new`, then the scan from `next`. */
  lemma RestStepAt(orig: seq<Bit>, pattern: seq<Bit>, replacement: seq<Bit>, count: Option<int>,
                   index: nat, made: nat, found: int, next: int, nextMade: nat)
    requires |pattern| > 0 || count.Some?
    requires Search.MayReplace(made, count) && index <= |orig|
    requires found == Search.Find(orig, pattern, index, None) && found != -1
    requires next == found + |pattern| && nextMade == made + 1
    ensures index <= found <= next <= |orig|
    ensures Search.ReplaceRest(orig[index..], pattern, replacement, made, count)
      == orig[index..found] + replacement + Search.ReplaceRest(orig[next..], pattern, replacement, nextMade, count)
  {
    FoundInRest(orig, pattern, index, found, next);
    Search.ReplaceRestStep(orig[index..], pattern, replacement, made, count, found - index, orig[next..], nextMade);
  }

  /** A match found from `index` is the first match in the bits from `index` on, shifted by `index`. */
  lemma FoundInRest(orig: seq<Bit>, pattern: seq<Bit>, index: nat, found: int, next: int)
    requires index <= |orig| && found == Search.Find(orig, pattern, index, None) && found != -1
    requires next == found + |pattern|
    ensures index <= found <= next <= |orig|
    ensures Search.Find(orig[index..], pattern, 0, None) == found - index
    ensures orig[index..][..found - index] == orig[index..found] && orig[index..][found - index + |pattern|..] == orig[next..]
  {
    Search.FindShift(orig, pattern, index);
  }

  /** No further replacement: the output is what is done followed by the unscanned bits unchanged. */
  lemma ReplaceFinish(orig: seq<Bit>, pattern: seq<Bit>, replacement: seq<Bit>, count: Option<int>,
                      index: nat, made: nat, done: seq<Bit>)
    requires |pattern| > 0 || count.Some?
    requires ReplacedUpTo(orig, pattern, replacement, count, index, made, done)
    requires !Search.MayReplace(made, count) || Search.Find(orig, pattern, index, None) == -1
    ensures done + orig[index..] == Search.Replace(orig, pattern, replacement, count)
  {
    Search.FindShift(orig, pattern, index);
  }

  /** Overwriting the match in place: the vector is the grown output followed by the bits from `next` on. */
  lemma OverwriteStep(bits: seq<Bit>, acc: seq<Bit>, orig: seq<Bit>, done: seq<Bit>, replacement: seq<Bit>,
                      index: nat, found: int, stop: int, next: int)
    requires Tracks(bits, acc, orig, done, index, true)
    requires index <= found && stop == found + |replacement| && next == stop && stop <= |orig|
    ensures 0 <= found <= stop <= |bits|
    ensures Tracks(bits[..found] + replacement + bits[stop..], acc, orig, done + (orig[index..found] + replacement), next, true)
  {
    assert bits[..found] == done + orig[index..found];
    assert bits[stop..] == orig[next..];
  }

  /** Building a new vector: the bits before the match and `new` join the accumulated output. */
  lemma BuildStep(bits: seq<Bit>, acc: seq<Bit>, orig: seq<Bit>, done: seq<Bit>, replacement: seq<Bit>,
                  index: nat, found: int, next: int)
    requires Tracks(bits, acc, orig, done, index, false)
    requires index <= found <= next <= |orig|
    ensures Tracks(bits, acc + (bits[index..found] + replacement), orig, done + (orig[index..found] + replacement), next, false)
  {
  }

  /** `BitArray`: the same container; only its `pop` rule differs from `BitVector`'s. */
  class BitArray {
    var bits: seq<Bit>

    constructor(source: seq<Bit>)
      ensures bits == source
    {
      bits := source;
    }

    /**
     * `pop(index, default)`: an empty array gives the default or raises; an out-of-range index
     * gives the default when there is one; otherwise the underlying pop runs, with Python's
     * negative indices and an `IndexError` outside `-len..len-1`.
     */
    method Pop(index: Option<int>, default: Option<int>) returns (r: Result<int>)
      modifies this
      ensures var n := |old(bits)|;
        var i := if index.None? then n - 1 else index.value;
        var j := if i < 0 then i + n else i;
        if n == 0 || ((i < 0 || i >= n) && default.Some?) then
          bits == old(bits) && r == (if default.Some? then Ok(default.value) else Err(IndexError))
        else if 0 <= j < n then r == Ok(old(bits)[j]) && bits == RemoveAt(old(bits), j)
        else bits == old(bits) && r == Err(IndexError)
    {
      var i := if index.None? then |bits| - 1 else index.value;
      if |bits| == 0 {
        if default.Some? {
          return Ok(default.value);
        }
        return Err(IndexError);
      }
      if (i < 0 || i >= |bits|) && default.Some? {
        return Ok(default.value);
      }
      var j := if i < 0 then i + |bits| else i;
      if j < 0 || j >= |bits| {
        return Err(IndexError);
      }
      r := Ok(bits[j]);
      bits := bits[..j] + bits[j + 1..];
    }
  }
}
