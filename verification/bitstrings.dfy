/**
 * Text parsing and rendering of the bit containers `BitVector` and `BitArray`
 * (`bytemaker/bitvector/bitvector_with_bitarray_speedup.py` and its twin
 * `bytemaker/BitArray_with_bitarray_speedup.py`, whose code here is identical):
 * `fromhex`/`fromoct`/`frombin`/`from01`/`fromsize`, the string dispatch of the constructor,
 * `tobase`, `to01` and the prefixed `hex`/`oct`/`bin` renderings.
 */
module BitStrings {
  import opened BitSeq
  import opened Wrappers

  /** The characters `fromhex`, `fromoct` and `from01` delete before parsing. */
  predicate IsSeparator(c: char)
  {
    c == '_' || c == '-' || c == ' ' || c == ':'
  }

  /** `string.translate(str.maketrans("", "", "_- :"))`. */
  function StripSeparators(s: string): (r: string)
    ensures |r| <= |s|
  {
    if s == [] then []
    else if IsSeparator(s[0]) then StripSeparators(s[1..])
    else [s[0]] + StripSeparators(s[1..])
  }

  /** Text without separators is left as it is. */
  lemma {:induction false} StripSeparatorsNone(s: string)
    requires forall i :: 0 <= i < |s| ==> !IsSeparator(s[i])
    ensures StripSeparators(s) == s
  {
    if s != [] {
      assert forall i :: 0 <= i < |s[1..]| ==> s[1..][i] == s[i + 1];
      StripSeparatorsNone(s[1..]);
      assert s == [s[0]] + s[1..];
    }
  }

  /** No separator survives. */
  lemma {:induction false} StripSeparatorsClean(s: string)
    ensures forall i :: 0 <= i < |StripSeparators(s)| ==> !IsSeparator(StripSeparators(s)[i])
  {
    if s != [] {
      StripSeparatorsClean(s[1..]);
    }
  }

  /** Deleting separators is idempotent. */
  lemma StripSeparatorsIdempotent(s: string)
    ensures StripSeparators(StripSeparators(s)) == StripSeparators(s)
  {
    StripSeparatorsClean(s);
    StripSeparatorsNone(StripSeparators(s));
  }

  lemma {:induction false} StripSeparatorsAppend(a: string, b: string)
    ensures StripSeparators(a + b) == StripSeparators(a) + StripSeparators(b)
  {
    if a == [] {
      assert a + b == b;
    } else {
      assert (a + b)[0] == a[0] && (a + b)[1..] == a[1..] + b;
      StripSeparatorsAppend(a[1..], b);
    }
  }

  predicate HasPrefix(s: string, p: string)
  {
    |p| <= |s| && s[..|p|] == p
  }

  /** The digit sets accepted by bitarray's `base2ba` for bases 16 and 8, and by `bitarray(str)` for base 2. */
  datatype Radix = Hex | Oct | Bin

  function DigitWidth(radix: Radix): nat
  {
    match radix
    case Hex => 4
    case Oct => 3
    case Bin => 1
  }

  /** The value of one digit, or `None` for a character that is not a digit of the radix. */
  function DigitValue(c: char, radix: Radix): (r: Option<nat>)
    ensures r.Some? ==> r.value < Pow2(DigitWidth(radix))
  {
    Pow2Small();
    match radix
    case Bin => if c == '0' then Some(0) else if c == '1' then Some(1) else None
    case Oct => if '0' <= c <= '7' then Some(c as nat - '0' as nat) else None
    case Hex =>
      if '0' <= c <= '9' then Some(c as nat - '0' as nat)
      else if 'a' <= c <= 'f' then Some(c as nat - 'a' as nat + 10)
      else if 'A' <= c <= 'F' then Some(c as nat - 'A' as nat + 10)
      else None
  }

  /** Every character is a digit of the radix. */
  predicate AllDigits(s: string, radix: Radix)
  {
    forall i :: 0 <= i < |s| ==> DigitValue(s[i], radix).Some?
  }

  lemma AllDigitsCons(s: string, radix: Radix)
    requires |s| > 0
    ensures AllDigits(s, radix) <==> DigitValue(s[0], radix).Some? && AllDigits(s[1..], radix)
  {
    assert forall i :: 0 <= i < |s[1..]| ==> s[1..][i] == s[i + 1];
    if DigitValue(s[0], radix).Some? && AllDigits(s[1..], radix) {
      forall i | 0 <= i < |s|
        ensures DigitValue(s[i], radix).Some?
      {
        if i > 0 {
          assert s[i] == s[1..][i - 1];
        }
      }
    }
  }

  lemma MulSucc(w: nat, n: nat)
    ensures w * (n + 1) == w * n + w
  {
  }

  /** The number a digit string denotes, each digit weighted by its place. */
  function DigitsValue(s: string, radix: Radix): nat
  {
    if s == [] then 0
    else
      var d := DigitValue(s[0], radix);
      (if d.Some? then d.value else 0) * Pow2(DigitWidth(radix) * (|s| - 1)) + DigitsValue(s[1..], radix)
  }

  /**
   * Each digit becomes exactly `DigitWidth` bits, most significant first, so leading zero digits
   * are kept; a character that is not a digit raises.
   */
  function DigitsToBits(s: string, radix: Radix): (r: Result<seq<Bit>>)
    ensures r.Ok? <==> AllDigits(s, radix)
    ensures r.Ok? ==> |r.value| == DigitWidth(radix) * |s|
  {
    if s == [] then Ok([])
    else
      AllDigitsCons(s, radix);
      MulSucc(DigitWidth(radix), |s| - 1);
      var d := DigitValue(s[0], radix);
      var rest := DigitsToBits(s[1..], radix);
      if d.None? || rest.Err? then Err(ValueError)
      else Ok(NatToBits(d.value, DigitWidth(radix)) + rest.value)
  }

  /** The bits read from a digit string denote the number the digits denote. */
  lemma {:induction false} DigitsToBitsValue(s: string, radix: Radix)
    requires AllDigits(s, radix)
    ensures Unsigned(DigitsToBits(s, radix).value) == DigitsValue(s, radix)
  {
    if s != [] {
      AllDigitsCons(s, radix);
      var w := DigitWidth(radix);
      var d := DigitValue(s[0], radix).value;
      var rest := DigitsToBits(s[1..], radix).value;
      DigitsToBitsValue(s[1..], radix);
      UnsignedAppend(NatToBits(d, w), rest);
      UnsignedNatToBits(d, w);
      DivModUnique(d, Pow2(w), 0, d);
    }
  }

  /** `fromhex`: delete separators, drop a leading "0x", then four bits per hexadecimal digit. */
  function FromHex(s: string): (r: Result<seq<Bit>>)
    ensures r.Err? ==> r.error == ValueError
    ensures r.Ok? ==> |r.value| % 4 == 0
  {
    var t := StripSeparators(s);
    var r := DigitsToBits(if HasPrefix(t, "0x") then t[2..] else t, Hex);
    if r.Ok? then
      WholeDigits(|r.value|, 4);
      r
    else r
  }

  /** `fromoct`: delete separators, drop a leading "0o", then three bits per octal digit. */
  function FromOct(s: string): (r: Result<seq<Bit>>)
    ensures r.Err? ==> r.error == ValueError
    ensures r.Ok? ==> |r.value| % 3 == 0
  {
    var t := StripSeparators(s);
    var r := DigitsToBits(if HasPrefix(t, "0o") then t[2..] else t, Oct);
    if r.Ok? then
      WholeDigits(|r.value|, 3);
      r
    else r
  }

  /** A length that is a whole number of `k`-bit digits is a multiple of `k`. */
  lemma WholeDigits(n: nat, k: nat)
    requires k > 0 && exists d: nat :: n == k * d
    ensures n % k == 0
  {
    var d: nat :| n == k * d;
    DivModUnique(n, k, d, 0);
  }

  /** `from01`: delete separators; every remaining character must be '0' or '1'. */
  function From01(s: string): (r: Result<seq<Bit>>)
    ensures r.Ok? ==> BitsToStr(r.value) == StripSeparators(s)
  {
    var r := DigitsToBits(StripSeparators(s), Bin);
    if r.Ok? then
      Bin01(StripSeparators(s), r.value);
      r
    else r
  }

  lemma {:induction false} Bin01(s: string, b: seq<Bit>)
    requires DigitsToBits(s, Bin) == Ok(b)
    ensures BitsToStr(b) == s
  {
    if s != [] {
      var d := DigitValue(s[0], Bin);
      var rest := DigitsToBits(s[1..], Bin);
      assert d.Some? && rest.Ok?;
      assert NatToBits(d.value, 1) == [d.value];
      Bin01(s[1..], rest.value);
      BitsToStrCons(d.value, rest.value);
      assert s == [s[0]] + s[1..];
    }
  }

  lemma BitsToStrCons(x: Bit, rest: seq<Bit>)
    ensures BitsToStr([x] + rest) == [BitChar(x)] + BitsToStr(rest)
  {
  }

  /** `frombin`: drop a leading "0b" (before separators are deleted), then `from01`. */
  function FromBin(s: string): (r: Result<seq<Bit>>)
    ensures r.Err? ==> r.error == ValueError
    ensures r.Ok? ==> |r.value| <= |s|
  {
    From01(if HasPrefix(s, "0b") then s[2..] else s)
  }

  /** `fromsize(n)`: `n` zero bits (none for a negative `n`). */
  function FromSize(n: int): (r: seq<Bit>)
    ensures |r| == (if n < 0 then 0 else n) && forall i :: 0 <= i < |r| ==> r[i] == 0
  {
    Repeat(0, if n < 0 then 0 else n)
  }

  /** The string branch of the constructor: dispatch on the raw prefix "0b", "0o" or "0x", else `from01`. */
  function FromString(s: string): (r: Result<seq<Bit>>)
    ensures r.Err? ==> r.error == ValueError
    ensures r.Ok? && HasPrefix(s, "0x") ==> |r.value| % 4 == 0
    ensures r.Ok? && HasPrefix(s, "0o") ==> |r.value| % 3 == 0
    ensures r.Ok? && !HasPrefix(s, "0x") && !HasPrefix(s, "0o") ==> |r.value| <= |s|
  {
    if HasPrefix(s, "0b") then FromBin(s)
    else if HasPrefix(s, "0o") then FromOct(s)
    else if HasPrefix(s, "0x") then FromHex(s)
    else From01(s)
  }

  // ---------------------------------------------------------------------------
  // Rendering
  // ---------------------------------------------------------------------------

  /** The bases `tobase` accepts and the bits per digit of each. */
  predicate ValidBase(base: int)
  {
    base == 2 || base == 4 || base == 8 || base == 16 || base == 32 || base == 64
  }

  function BitsPerDigit(base: int): nat
    requires ValidBase(base)
  {
    if base == 2 then 1 else if base == 4 then 2 else if base == 8 then 3
    else if base == 16 then 4 else if base == 32 then 5 else 6
  }

  /** `int(8 / log2(base) + 0.999999999)`: the digits one byte takes, rounded up. */
  function CharsPerByte(base: int): (r: nat)
    requires ValidBase(base)
    ensures (r - 1) * BitsPerDigit(base) < 8 <= r * BitsPerDigit(base)
  {
    if base == 2 then 8 else if base == 4 then 4 else if base == 8 then 3 else 2
  }

  /** bitarray's digit alphabets: lower-case hexadecimal, RFC 4648 base32 and base64. */
  function Alphabet(base: int): (r: string)
    requires ValidBase(base)
    ensures |r| == base && |r| == Pow2(BitsPerDigit(base))
  {
    Pow2OfBitsPerDigit(base);
    if base == 2 then "01"
    else if base == 4 then "0123"
    else if base == 8 then "01234567"
    else if base == 16 then "0123456789abcdef"
    else if base == 32 then "ABCDEFGHIJKLMNOPQRSTUVWXYZ234567"
    else "ABCDEFGHIJKLMNOPQRSTUVWXYZabcdefghijklmnopqrstuvwxyz0123456789+/"
  }

  /** The alphabet's character for the value of one group of `BitsPerDigit(base)` bits. */
  function DigitOf(base: int, group: seq<Bit>): char
    requires ValidBase(base) && |group| == BitsPerDigit(base)
  {
    Alphabet(base)[Unsigned(group)]
  }

  lemma Pow2OfBitsPerDigit(base: int)
    requires ValidBase(base)
    ensures Pow2(BitsPerDigit(base)) == base
  {
    Pow2Small();
  }

  lemma Pow2Small()
    ensures Pow2(1) == 2 && Pow2(2) == 4 && Pow2(3) == 8 && Pow2(4) == 16 && Pow2(5) == 32 && Pow2(6) == 64
  {
    assert Pow2(1) == 2 * Pow2(0);
    assert Pow2(2) == 2 * Pow2(1);
    assert Pow2(3) == 2 * Pow2(2);
    assert Pow2(4) == 2 * Pow2(3);
    assert Pow2(5) == 2 * Pow2(4);
    assert Pow2(6) == 2 * Pow2(5);
  }

  /** `ba2base`: one digit per group of `BitsPerDigit` bits; a length that is not a whole number of groups raises. */
  function BitsToDigits(bits: seq<Bit>, base: int): (r: Result<string>)
    requires ValidBase(base)
    ensures r.Ok? <==> |bits| % BitsPerDigit(base) == 0
    ensures r.Ok? ==> |r.value| * BitsPerDigit(base) == |bits|
    decreases |bits|
  {
    var k := BitsPerDigit(base);
    if |bits| % k != 0 then Err(ValueError)
    else if bits == [] then Ok("")
    else
      ModStep(|bits|, k);
      var rest := BitsToDigits(bits[k..], base);
      GroupsStep(|rest.value|, k, |bits|);
      Ok([DigitOf(base, bits[..k])] + rest.value)
  }

  /** One more group of `k` bits. */
  lemma GroupsStep(n: nat, k: nat, total: int)
    requires n * k + k == total
    ensures (n + 1) * k == total
  {
  }

  /** Digit `i` of `ba2base` is the alphabet's character for the value of the `i`-th group of `k` bits. */
  lemma {:induction false} BitsToDigitsAt(bits: seq<Bit>, base: int, k: nat, i: nat)
    requires ValidBase(base) && k == BitsPerDigit(base) && BitsToDigits(bits, base).Ok?
    requires i < |BitsToDigits(bits, base).value|
    ensures k * i + k <= |bits|
    ensures BitsToDigits(bits, base).value[i] == DigitOf(base, bits[k * i..k * i + k])
    decreases |bits|
  {
    BitsToDigitsUnfold(bits, base);
    var r := BitsToDigits(bits, base).value;
    var tail := bits[k..];
    var rest := BitsToDigits(tail, base).value;
    if i == 0 {
      assert k * i == 0;
      assert r[0] == DigitOf(base, bits[..k]);
    } else {
      BitsToDigitsAt(tail, base, k, i - 1);
      GroupOfTail(bits, k, i);
      assert r[i] == rest[i - 1];
    }
  }

  /** Group `i` of `bits` is group `i - 1` of what follows the first group. */
  lemma GroupOfTail(bits: seq<Bit>, k: nat, i: nat)
    requires i >= 1 && k <= |bits| && k * (i - 1) + k <= |bits| - k
    ensures k * i + k <= |bits| && bits[k * i..k * i + k] == bits[k..][k * (i - 1)..k * (i - 1) + k]
  {
    var j := k * (i - 1);
    MulSucc(k, i - 1);
    SliceOfDrop(bits, k, j, k);
  }

  lemma SliceOfDrop(s: seq<Bit>, a: nat, j: nat, n: nat)
    requires a + j + n <= |s|
    ensures s[a..][j..j + n] == s[a + j..a + j + n]
  {
  }

  /** The first digit, then the digits of the remaining groups. */
  lemma BitsToDigitsUnfold(bits: seq<Bit>, base: int)
    requires ValidBase(base) && BitsToDigits(bits, base).Ok? && bits != []
    ensures BitsPerDigit(base) <= |bits| && BitsToDigits(bits[BitsPerDigit(base)..], base).Ok?
    ensures BitsToDigits(bits, base).value
      == [DigitOf(base, bits[..BitsPerDigit(base)])] + BitsToDigits(bits[BitsPerDigit(base)..], base).value
  {
    ModStep(|bits|, BitsPerDigit(base));
  }

  /** A positive multiple of `k` holds at least one `k` and stays a multiple once one is taken off. */
  lemma ModStep(n: int, k: int)
    requires k > 0 && n > 0 && n % k == 0
    ensures k <= n && (n - k) % k == 0
  {
    var q := n / k;
    DivModParts(n, k);
    assert n == k * q;
    assert n - k == k * (q - 1);
    DivModUnique(n - k, k, q - 1, 0);
  }

  /** Chunks of `k` characters joined by `sep`, as `sep.join(s[i:i + k] for i in range(0, len(s), k))`. */
  function SplitJoin(s: string, k: nat, sep: string): (r: string)
    requires k > 0
    ensures |r| >= |s|
    ensures sep == [] ==> r == s
    decreases |s|
  {
    if |s| <= k then s else s[..k] + sep + SplitJoin(s[k..], k, sep)
  }

  /** The chunked join for any step, as Python's `range` treats it: a zero step raises, a negative one yields no chunks. */
  function ChunkJoin(s: string, step: int, sep: string): (r: Result<string>)
    ensures r.Err? <==> step == 0
    ensures r.Err? ==> r.error == ValueError
    ensures step < 0 ==> r == Ok("")
    ensures step > 0 ==> |r.value| >= |s| && (|s| <= step || sep == [] ==> r.value == s)
  {
    if step == 0 then Err(ValueError)
    else if step < 0 then Ok("")
    else Ok(SplitJoin(s, step, sep))
  }

  /** `tobase`: an unsupported base raises; with a separator, chunks of `chars_per_byte * bytes_per_sep` digits. */
  function ToBase(bits: seq<Bit>, base: int, sep: Option<string>, bytesPerSep: int): (r: Result<string>)
    ensures !ValidBase(base) ==> r == Err(ValueError)
    ensures ValidBase(base) && sep.None? ==> r == BitsToDigits(bits, base)
    ensures ValidBase(base) && sep.Some? ==>
      r == (if BitsToDigits(bits, base).Err? then BitsToDigits(bits, base)
            else ChunkJoin(BitsToDigits(bits, base).value, CharsPerByte(base) * bytesPerSep, sep.value))
  {
    if !ValidBase(base) then Err(ValueError)
    else
      var digits :- BitsToDigits(bits, base);
      if sep.None? then Ok(digits)
      else ChunkJoin(digits, CharsPerByte(base) * bytesPerSep, sep.value)
  }

  /** `to01`: the '0'/'1' text, with `sep` after every `8 * bytes_per_sep` characters when given. */
  function To01(bits: seq<Bit>, sep: Option<string>, bytesPerSep: int): (r: Result<string>)
    ensures r.Err? <==> sep.Some? && bytesPerSep == 0
    ensures r.Ok? && (sep.None? || |bits| <= 8 * bytesPerSep) ==> r.value == BitsToStr(bits)
    ensures sep.Some? && bytesPerSep < 0 ==> r == Ok("")
  {
    if sep.None? then Ok(BitsToStr(bits))
    else ChunkJoin(BitsToStr(bits), 8 * bytesPerSep, sep.value)
  }

  /** `hex`: "0x" and the base-16 digits. */
  function HexString(bits: seq<Bit>, sep: Option<string>, bytesPerSep: int): (r: Result<string>)
    ensures r.Ok? <==> |bits| % 4 == 0 && (sep.None? || bytesPerSep != 0)
    ensures r.Ok? ==> HasPrefix(r.value, "0x")
  {
    var digits :- ToBase(bits, 16, sep, bytesPerSep);
    Ok("0x" + digits)
  }

  /** `oct`: "0o" and the base-8 digits. */
  function OctString(bits: seq<Bit>, sep: Option<string>, bytesPerSep: int): (r: Result<string>)
    ensures r.Ok? <==> |bits| % 3 == 0 && (sep.None? || bytesPerSep != 0)
    ensures r.Ok? ==> HasPrefix(r.value, "0o")
  {
    var digits :- ToBase(bits, 8, sep, bytesPerSep);
    Ok("0o" + digits)
  }

  /** `bin`: "0b" and the '0'/'1' text. */
  function BinString(bits: seq<Bit>, sep: Option<string>, bytesPerSep: int): (r: Result<string>)
    ensures r.Ok? <==> sep.None? || bytesPerSep != 0
    ensures r.Ok? ==> HasPrefix(r.value, "0b")
  {
    var digits :- To01(bits, sep, bytesPerSep);
    Ok("0b" + digits)
  }

  // ---------------------------------------------------------------------------
  // Properties
  // ---------------------------------------------------------------------------

  /** Deleting a separator character from a chunked join gives back the unchunked text. */
  lemma {:induction false} StripSplitJoin(s: string, k: nat, c: char)
    requires k > 0 && IsSeparator(c) && NoSeparators(s)
    ensures StripSeparators(SplitJoin(s, k, [c])) == s
    decreases |s|
  {
    if |s| <= k {
      StripSeparatorsNone(s);
    } else {
      var head, tail := s[..k], s[k..];
      var rest := SplitJoin(tail, k, [c]);
      SplitJoinUnfold(s, k, [c], head, tail);
      NoSeparatorsSplit(s, k);
      StripSplitJoin(tail, k, c);
      StripChunk(head, c, rest);
      assert head + tail == s;
    }
  }

  lemma SplitJoinUnfold(s: string, k: nat, sep: string, head: string, tail: string)
    requires 0 < k < |s| && head == s[..k] && tail == s[k..]
    ensures SplitJoin(s, k, sep) == head + sep + SplitJoin(tail, k, sep)
  {
  }

  predicate NoSeparators(s: string)
  {
    forall i :: 0 <= i < |s| ==> !IsSeparator(s[i])
  }

  lemma NoSeparatorsSplit(s: string, k: nat)
    requires NoSeparators(s) && k <= |s|
    ensures NoSeparators(s[..k]) && NoSeparators(s[k..])
  {
    assert forall i :: 0 <= i < |s[k..]| ==> s[k..][i] == s[i + k];
  }

  /** One chunk free of separators, then a separator, then the rest. */
  lemma StripChunk(head: string, c: char, rest: string)
    requires IsSeparator(c) && NoSeparators(head)
    ensures StripSeparators(head + [c] + rest) == head + StripSeparators(rest)
  {
    StripSeparatorsDrop(head, c, rest);
    StripSeparatorsAppend(head, rest);
    StripSeparatorsNone(head);
  }

  /** A separator may be deleted anywhere first. */
  lemma StripSeparatorsDrop(a: string, c: char, b: string)
    requires IsSeparator(c)
    ensures StripSeparators(a + [c] + b) == StripSeparators(a + b)
  {
    StripSeparatorsAppend(a + [c], b);
    StripSeparatorsAppend(a, [c]);
    StripSeparatorsAppend(a, b);
    assert StripSeparators([c]) == [] by {
      assert [c][1..] == [];
    }
  }

  /** `to01` with a separator from "_- :" parses back to the same bits with `from01`. */
  lemma To01RoundTrip(bits: seq<Bit>, c: char, bytesPerSep: int)
    requires IsSeparator(c) && bytesPerSep > 0
    ensures To01(bits, Some([c]), bytesPerSep).Ok?
    ensures From01(To01(bits, Some([c]), bytesPerSep).value) == Ok(bits)
  {
    var s := BitsToStr(bits);
    StripSplitJoin(s, 8 * bytesPerSep, c);
    BitsDigits(bits);
  }

  /** The '0'/'1' text of a bit sequence is read back as the same bits. */
  lemma {:induction false} BitsDigits(bits: seq<Bit>)
    ensures DigitsToBits(BitsToStr(bits), Bin) == Ok(bits)
  {
    if bits != [] {
      var s := BitsToStr(bits);
      assert s[1..] == BitsToStr(bits[1..]);
      BitsDigits(bits[1..]);
      assert DigitValue(s[0], Bin) == Some(bits[0]);
      assert NatToBits(bits[0], 1) == [bits[0]];
      assert bits == [bits[0]] + bits[1..];
    }
  }

  /** The base whose alphabet a radix reads: 2, 8 or 16. */
  function RadixBase(radix: Radix): (base: int)
    ensures ValidBase(base) && BitsPerDigit(base) == DigitWidth(radix)
  {
    match radix
    case Bin => 2
    case Oct => 8
    case Hex => 16
  }

  /** Hexadecimal rendering without separators parses back with `fromhex`. */
  lemma HexRoundTrip(bits: seq<Bit>)
    requires |bits| % 4 == 0
    ensures HexString(bits, None, 1).Ok?
    ensures FromHex(HexString(bits, None, 1).value) == Ok(bits)
  {
    var digits := BitsToDigits(bits, 16).value;
    DigitsRoundTrip(bits, Hex);
    DigitsNoSeparators(bits, Hex);
    var t := "0x" + digits;
    StripSeparatorsNone(t);
    assert HasPrefix(t, "0x") && t[2..] == digits;
  }

  /** Binary rendering without separators parses back with `frombin`. */
  lemma BinRoundTrip(bits: seq<Bit>)
    ensures BinString(bits, None, 1).Ok?
    ensures FromBin(BinString(bits, None, 1).value) == Ok(bits)
  {
    var digits := BitsToStr(bits);
    var t := "0b" + digits;
    assert HasPrefix(t, "0b") && t[2..] == digits;
    StripSeparatorsNone(digits);
    BitsDigits(bits);
  }

  /** Octal rendering without separators parses back with `fromoct`. */
  lemma OctRoundTrip(bits: seq<Bit>)
    requires |bits| % 3 == 0
    ensures OctString(bits, None, 1).Ok?
    ensures FromOct(OctString(bits, None, 1).value) == Ok(bits)
  {
    var digits := BitsToDigits(bits, 8).value;
    DigitsRoundTrip(bits, Oct);
    DigitsNoSeparators(bits, Oct);
    var t := "0o" + digits;
    StripSeparatorsNone(t);
    assert HasPrefix(t, "0o") && t[2..] == digits;
  }

  /** For bases 2, 8 and 16, reading back the digits of `ba2base` gives the bits. */
  lemma {:induction false} DigitsRoundTrip(bits: seq<Bit>, radix: Radix)
    requires |bits| % DigitWidth(radix) == 0
    ensures DigitsToBits(BitsToDigits(bits, RadixBase(radix)).value, radix) == Ok(bits)
    decreases |bits|
  {
    if bits != [] {
      var base, k := RadixBase(radix), DigitWidth(radix);
      ModStep(|bits|, k);
      var d := BitsToDigits(bits, base).value;
      var rest := BitsToDigits(bits[k..], base).value;
      DigitsRoundTrip(bits[k..], radix);
      var v := Unsigned(bits[..k]);
      AlphabetDigit(radix, v);
      assert d == [Alphabet(base)[v]] + rest;
      assert d[0] == Alphabet(base)[v] && d[1..] == rest;
      NatToBitsOfUnsigned(bits[..k]);
      assert bits == bits[..k] + bits[k..];
    }
  }

  /** The alphabet's character for `v` reads back as the digit `v`. */
  lemma AlphabetDigit(radix: Radix, v: nat)
    requires v < Pow2(DigitWidth(radix))
    ensures DigitValue(Alphabet(RadixBase(radix))[v], radix) == Some(v)
  {
    Pow2Small();
  }

  /** For bases 2, 8 and 16, no digit `ba2base` writes is a separator. */
  lemma {:induction false} DigitsNoSeparators(bits: seq<Bit>, radix: Radix)
    requires |bits| % DigitWidth(radix) == 0
    ensures var d := BitsToDigits(bits, RadixBase(radix)).value;
      forall i :: 0 <= i < |d| ==> !IsSeparator(d[i])
    decreases |bits|
  {
    if bits != [] {
      var base, k := RadixBase(radix), DigitWidth(radix);
      BitsToDigitsUnfold(bits, base);
      DigitsNoSeparators(bits[k..], radix);
      AlphabetDigit(radix, Unsigned(bits[..k]));
      DigitNotSeparator(DigitOf(base, bits[..k]), radix);
    }
  }

  lemma DigitNotSeparator(c: char, radix: Radix)
    requires DigitValue(c, radix).Some?
    ensures !IsSeparator(c)
  {
  }

  lemma OctalDigitBits()
    ensures NatToBits(0, 3) == [0, 0, 0] && NatToBits(1, 3) == [0, 0, 1]
    ensures NatToBits(2, 3) == [0, 1, 0] && NatToBits(7, 3) == [1, 1, 1]
  {
    assert NatToBits(0, 1) == [0] && NatToBits(1, 1) == [1];
    assert NatToBits(0, 2) == [0, 0] && NatToBits(1, 2) == [0, 1] && NatToBits(3, 2) == [1, 1];
  }

  /** Reading one octal digit in front of already-read digits. */
  lemma OctalCons(s: string, d: nat, rest: seq<Bit>)
    requires |s| > 0 && '0' <= s[0] <= '7' && d == s[0] as nat - '0' as nat
    requires DigitsToBits(s[1..], Oct) == Ok(rest)
    ensures DigitsToBits(s, Oct) == Ok(NatToBits(d, 3) + rest)
  {
    assert DigitValue(s[0], Oct) == Some(d);
    assert DigitWidth(Oct) == 3;
  }

  /** `fromoct("12")` is 001010 and `fromoct("0")` is 000: three bits per digit, leading zeros kept. */
  lemma FromOctExamples()
    ensures FromOct("12") == Ok([0, 0, 1, 0, 1, 0])
    ensures FromOct("0") == Ok([0, 0, 0])
  {
    OctalDigitBits();
    assert !HasPrefix("12", "0o") by { assert "12"[0] == '1'; }
    StripSeparatorsNone("12");
    assert "12"[1..] == "2" && "2"[1..] == [];
    OctalCons("2", 2, []);
    assert NatToBits(2, 3) + [] == [0, 1, 0];
    OctalCons("12", 1, [0, 1, 0]);
    assert [0, 0, 1] + [0, 1, 0] == [0, 0, 1, 0, 1, 0];
    assert !HasPrefix("0", "0o");
    StripSeparatorsNone("0");
    assert "0"[1..] == [];
    OctalCons("0", 0, []);
    assert NatToBits(0, 3) + [] == [0, 0, 0];
  }

  /** The constructor reads "0o707" as nine bits. */
  lemma FromStringOctal()
    ensures FromString("0o707") == Ok([1, 1, 1, 0, 0, 0, 1, 1, 1])
  {
    OctalDigitBits();
    assert "707"[1..] == "07" && "07"[1..] == "7" && "7"[1..] == [];
    OctalCons("7", 7, []);
    assert NatToBits(7, 3) + [] == [1, 1, 1];
    OctalCons("07", 0, [1, 1, 1]);
    OctalCons("707", 7, [0, 0, 0] + [1, 1, 1]);
    assert [1, 1, 1] + ([0, 0, 0] + [1, 1, 1]) == [1, 1, 1, 0, 0, 0, 1, 1, 1];
    var t := "0o707";
    StripSeparatorsNone(t);
    assert t[..2] == "0o" && t[2..] == "707";
    assert !HasPrefix(t, "0b") by { assert t[1] == 'o'; }
    assert FromString(t) == FromOct(t);
  }

  lemma StripUnderscore()
    ensures StripSeparators("0x0000_0F0F") == "0x00000F0F"
    ensures StripSeparators("0x00000F0F") == "0x00000F0F"
  {
    var a, b := "0x0000", "0F0F";
    assert "0x0000_0F0F" == a + ['_'] + b;
    assert "0x00000F0F" == a + b;
    StripSeparatorsDrop(a, '_', b);
    StripSeparatorsNone(a + b);
  }

  /** Separators are insignificant: "0x0000_0F0F" and "0x00000F0F" give the same bits. */
  lemma SeparatorsInsignificant()
    ensures FromString("0x0000_0F0F") == FromString("0x00000F0F")
  {
    var a, b := "0x0000_0F0F", "0x00000F0F";
    StripUnderscore();
    FromHexIgnoresSeparators(a, b);
    HexPrefixed(a);
    HexPrefixed(b);
  }

  /** Text starting with "0x" goes to `fromhex`. */
  lemma HexPrefixed(s: string)
    requires |s| >= 2 && s[0] == '0' && s[1] == 'x'
    ensures FromString(s) == FromHex(s)
  {
    assert s[..2] == "0x";
  }

  /** `fromhex` depends only on the text left once separators are deleted. */
  lemma FromHexIgnoresSeparators(a: string, b: string)
    requires StripSeparators(a) == StripSeparators(b)
    ensures FromHex(a) == FromHex(b)
  {
  }

  lemma NibbleValues()
    ensures Unsigned([1, 0, 1, 0]) == 10 && Unsigned([0, 1, 0, 1]) == 5
    ensures Unsigned([0, 0, 1]) == 1 && Unsigned([0, 1, 0]) == 2
  {
    assert [1, 0, 1, 0][..3] == [1, 0, 1] && [1, 0, 1][..2] == [1, 0] && [1, 0][..1] == [1] && [1][..0] == [];
    assert [0, 1, 0, 1][..3] == [0, 1, 0] && [0, 1, 0][..2] == [0, 1] && [0, 1][..1] == [0] && [0][..0] == [];
    assert [0, 0, 1][..2] == [0, 0] && [0, 0][..1] == [0];
  }

  /** `tobase(16)` of 1010 is "a", and `hex` of 10100101 is "0xa5". */
  lemma HexExamples()
    ensures ToBase([1, 0, 1, 0], 16, None, 1) == Ok("a")
    ensures HexString([1, 0, 1, 0, 0, 1, 0, 1], None, 1) == Ok("0xa5")
  {
    NibbleValues();
    Pow2Small();
    var x: seq<Bit> := [1, 0, 1, 0, 0, 1, 0, 1];
    assert x[..4] == [1, 0, 1, 0] && x[4..] == [0, 1, 0, 1];
    assert [0, 1, 0, 1][..4] == [0, 1, 0, 1] && [0, 1, 0, 1][4..] == [];
    assert [1, 0, 1, 0][..4] == [1, 0, 1, 0] && [1, 0, 1, 0][4..] == [];
    assert BitsToDigits([], 16) == Ok("");
    assert BitsToDigits([1, 0, 1, 0], 16) == Ok(['a'] + "");
    assert BitsToDigits([0, 1, 0, 1], 16) == Ok(['5'] + "");
    assert ['5'] + "" == "5" && ['a'] + "" == "a";
    assert Alphabet(16)[Unsigned(x[..4])] == 'a';
    assert BitsToDigits(x, 16) == Ok(['a'] + "5");
    assert ToBase([1, 0, 1, 0], 16, None, 1) == Ok("a");
    assert "0x" + (['a'] + "5") == "0xa5";
  }

  /** `oct` of 001010 is "0o12". */
  lemma OctExample()
    ensures OctString([0, 0, 1, 0, 1, 0], None, 1) == Ok("0o12")
  {
    NibbleValues();
    Pow2Small();
    var x: seq<Bit> := [0, 0, 1, 0, 1, 0];
    assert x[..3] == [0, 0, 1] && x[3..] == [0, 1, 0];
    assert [0, 1, 0][..3] == [0, 1, 0] && [0, 1, 0][3..] == [];
    assert BitsToDigits([], 8) == Ok("");
    assert BitsToDigits([0, 1, 0], 8) == Ok(['2'] + "");
    assert ['2'] + "" == "2";
    assert Alphabet(8)[Unsigned(x[..3])] == '1';
    assert BitsToDigits(x, 8) == Ok(['1'] + "2");
    assert "0o" + (['1'] + "2") == "0o12";
  }
}
