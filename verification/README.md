# bytemaker, modelled in Dafny

bytemaker converts Python values to and from bit sequences. It has four layers, and this project models each one on mathematical bit sequences (`seq<Bit>`, most significant bit first) and proves properties about them.

1. **Bit containers.** `BitVector` and `BitArray` are mutable bit sequences. They can be built from text ("0b…", "0o…", "0x…" or bare 0/1 text), from integers and from bytes. They offer search, replace, join, partition, strip and pad, along with packing to bytes and reading back as integers. The older `Bits` class wraps a Python list of 0/1 integers, which two objects may share.
2. **Integer codec.** `Int.to_bitstring` and `Int.to_pyint` write and read unsigned, two's-complement, ones'-complement and sign-magnitude integers at a given width, and `min_bit_length` picks the smallest such width. The helpers `twos_complement_bit_length` and `twos_complement` do the same for two's complement alone.
3. **Typed bit values.** `BitType` has four kinds:
   - `UInt` and `SInt` hold integers;
   - `Float` holds a float with configurable exponent and mantissa widths;
   - `Buffer` holds raw bits.

   Each object holds exactly `num_bits` bits. Its endianness decides whether `__bytes__` reverses the bytes.
4. **Aggregates.** `to_bits_aggregate` and `from_bits_aggregate` serialise dataclasses whose fields are typed bit values, and recurse into nested dataclasses. Each module has an older (legacy) variant as well.

Modules (one per file):

| module | file | models |
|---|---|---|
| `BitSeq` | bitseq.dfy | bits and bytes as numbers, `bin`, `int.bit_length`, `zfill` |
| `Wrappers` | wrappers.dfy | `Option`, `Result` and the Python exception kinds |
| `Utils` | utils.dfy | the prefix/suffix tries, `twos_complement_bit_length`, `twos_complement` |
| `IntCodec` | intcodec.dfy | `Int.to_pyint`, `Int.min_bit_length`, `Int.to_bitstring` |
| `BitStrings` | bitstrings.dfy | `fromhex`/`fromoct`/`frombin`/`from01`/`fromsize`, the string constructor, `tobase`/`hex`/`oct`/`bin`/`to01` |
| `Search` | search.dfy | `startswith`/`endswith`, `find`/`rfind`/`index`/`rindex`, `replace`, `join`, `partition`, `strip`, `lpad`/`rpad` |
| `BitVectors` | bitvector.dfy | `from_int`, `to_bytes`, `__bytes__`, `to_int`, and the `BitVector`/`BitArray` in-place mutators; the same members stand for the legacy `Bits.to_bytes`, `Bits.from_int` and `Bits.to_int` (bytemaker/bits.py:267-279 and 321-350), which run the same algorithm |
| `LegacyBits` | legacy.dfy | the `Bits` class's byte, string, `binop`, shift and `shrinkequals` logic |
| `LegacyBitsObject` | bits_object.dfy | the `Bits` object: a shared list, `__setitem__`, `append`, `padleft`, `padright`, `pop`, `join` |
| `FloatLayout` | float_layout.dfy | `Float.to_binstring` and its helpers, and the `Float.value` getter |
| `BitTypes` | bittype.dfy | `BitType` construction, the setters and getters of `UInt`/`SInt`/`Float`/`Buffer`, `__bytes__`, `__eq__`, `skip_struct_packing` |
| `Aggregate` | aggregate.dfy | `count_bits_in_*`, `trycast`, `to_bits_aggregate`, `from_bits_individual`, `from_bits_aggregate`, array chunking, in both the current and the legacy version |

Python exceptions are modelled as `Result` errors, with the exception's class name as the error.

## Model

| member | source | states |
|---|---|---|
| Utils.BuildPrefixTrie | bytemaker/utils.py:85-94 | A path is marked as a prefix start exactly when it is one of the prefixes. No suffix markers are set. |
| Utils.BuildSuffixTrie | bytemaker/utils.py:72-82 | A path is marked as a suffix end exactly when its reverse is one of the suffixes. No prefix markers are set. |
| Utils.InsertNodes | bytemaker/utils.py:85-94 | After one insertion, a node exists exactly where it existed before or on the inserted path. |
| Utils.InsertMarkers | bytemaker/utils.py:72-82 | After one insertion, a marker is present exactly where it was before, or at the end of the inserted path. |
| Utils.Insert | bytemaker/utils.py:72-94 | After inserting a path, the path is marked with the given marker. |
| Utils.EmptyTrieLookup | bytemaker/utils.py:65-70 | A fresh trie has only its root and no markers. |
| Utils.TwosComplementBitLengthLeast | bytemaker/utils.py:286-311 | With `log2` taken as exact, the computed width holds `n` in two's complement, and no smaller positive width does. |
| Utils.TwosComplementBitLength | bytemaker/utils.py:286-311 | With `log2` taken as exact, the width holds `n` in two's complement. |
| Utils.TwosComplementBitLengthSmall | test/utils_test.py:45-57 | The widths asserted there: 0→1, 1→2, -1→1, -2→2. |
| Utils.TwosComplementBitLengthPowers | test/utils_test.py:45-57 | The extremes asserted there: 2^7→9, -2^7→8, 2^16→18, -2^16→17. |
| Utils.PowerWidths | bytemaker/utils.py:303-311 | In the exact model, 2^k needs k+2 bits and -2^k only k+1 (the source agrees for k below 53). |
| Utils.TwosComplementDigits | bytemaker/utils.py:314-325 | For -2^w <= n < 2^w, `twos_complement` is exactly w digits: those of n mod 2^w. |
| Utils.TwosComplement | bytemaker/utils.py:314-325 | At least `n_bits` characters. It starts with '-' exactly when the number is below -2^n_bits, so that the shift leaves it negative. |
| IntCodec.ToPyint | bytemaker/bittypes/int.py:51-122 | Raises exactly on empty bits, a signed read in an unsupported format, and 1-bit sign-magnitude or 1-bit ones' complement "1". A result lies in the width's range. Unsigned is the plain value and two's complement the signed value. |
| IntCodec.MinBitLengthIsLeast | bytemaker/bittypes/int.py:125-176 | With `log2` taken as exact, the minimum width admits the value in the chosen signedness and format, and no smaller positive width does. |
| IntCodec.MinBitLength | bytemaker/bittypes/int.py:125-176 | Raises ValueError exactly for a negative unsigned value. A signed value in an unsupported format gives no width. Every width given is at least 1; the widths are the exact ones, with `log2` taken as exact. |
| IntCodec.UnsignedToBits | bytemaker/bittypes/int.py:201-204 | Succeeds exactly for 0 <= n < 2^L, giving the L-bit binary digits of n ("0" for L = 0). Otherwise it raises ValueError. |
| IntCodec.TwosComplementToBits | bytemaker/bittypes/int.py:206-228 | Succeeds exactly for -2^(L-1) <= n < 2^(L-1), giving L bits whose unsigned value is n mod 2^L. |
| IntCodec.OnesComplementToBits | bytemaker/bittypes/int.py:230-243 | Succeeds exactly for \|n\| <= 2^(L-1)-1. Gives the L-bit magnitude, every bit flipped for a negative n. |
| IntCodec.SignMagnitudeToBitsAsWritten | bytemaker/bittypes/int.py:245-255 | The as-written encoder succeeds exactly for the values L sign-magnitude bits hold. |
| IntCodec.SignMagnitudeOneBitZeroIsTwoBits | bytemaker/bittypes/int.py:252-253 | At L = 1, zero is written as the two characters "00". |
| IntCodec.SignMagnitudeToBits | bytemaker/bittypes/int.py:245-255 | The corrected encoder succeeds exactly in range and gives L bits: a sign bit, then the magnitude. |
| IntCodec.ToBitstring | bytemaker/bittypes/int.py:257-282 | A result has the effective width: the given width, or the exact minimum width when none is given. Sign-magnitude goes through the corrected `SignMagnitudeToBits`, so 1-bit zero is "0" where the source writes "00". |
| IntCodec.ToBitstringSucceedsIffInRange | bytemaker/bittypes/int.py:268-282 | With a positive width, encoding succeeds exactly for the values that width holds in the effective format. |
| IntCodec.ToBitstringRejectsNonPositiveWidth | bytemaker/bittypes/int.py:268-269 | A width <= 0 always raises ValueError. |
| IntCodec.ToBitstringDefaultWidth | bytemaker/bittypes/int.py:265-266 | In the model, where the minimum width is exact, encoding without a width succeeds. |
| IntCodec.RoundTrip | bytemaker/bittypes/int.py:51-122 | `to_pyint(to_bitstring(v, L, f), f) == v` whenever encoding succeeds, except for signed 1-bit sign-magnitude. |
| IntCodec.RoundTripUnsigned | bytemaker/bittypes/int.py:94-96 | The unsigned case of the round trip. |
| IntCodec.RoundTripTwos | bytemaker/bittypes/int.py:99-104 | The two's-complement case of the round trip. |
| IntCodec.RoundTripSignMagnitude | bytemaker/bittypes/int.py:106-111 | The sign-magnitude case of the round trip, for widths of at least 2. |
| IntCodec.RoundTripOnes | bytemaker/bittypes/int.py:113-118 | The ones'-complement case of the round trip. |
| IntCodec.DecodeThenEncode | bytemaker/bittypes/int.py:51-122 | Decoding any non-empty bits and re-encoding them at the same width gives them back, in two's complement and unsigned. |
| IntCodec.DecodeExamples | bytemaker/bittypes/int.py:51-88 | 0101 is 5 in two's complement. 101 is -3 in two's complement, -1 in sign-magnitude, -2 in ones' complement and 5 unsigned. |
| IntCodec.NegativeZeros | bytemaker/bittypes/int.py:106-118 | Sign-magnitude 1 followed by zeros and ones' complement all ones read as 0, as do all zeros. |
| BitStrings.StripSeparators | bytemaker/bitvector/bitvector_with_bitarray_speedup.py:239-259 | Never longer than the input. |
| BitStrings.StripSeparatorsNone | bytemaker/bitvector/bitvector_with_bitarray_speedup.py:239-259 | Text without separators is left unchanged. |
| BitStrings.StripSeparatorsClean | bytemaker/bitvector/bitvector_with_bitarray_speedup.py:239-259 | No separator survives. |
| BitStrings.StripSeparatorsAppend | bytemaker/bitvector/bitvector_with_bitarray_speedup.py:239-259 | Deleting separators distributes over concatenation. |
| BitStrings.StripSeparatorsDrop | bytemaker/bitvector/bitvector_with_bitarray_speedup.py:239-259 | A separator anywhere in the text may be deleted first. |
| BitStrings.StripSeparatorsIdempotent | bytemaker/bitvector/bitvector_with_bitarray_speedup.py:239-259 | Deleting separators twice is deleting them once. |
| BitStrings.DigitValue | bytemaker/bitvector/bitvector_with_bitarray_speedup.py:239-281 | A digit's value fits in the digit's bit width (1, 3 or 4 bits). |
| BitStrings.DigitsToBits | bytemaker/bitvector/bitvector_with_bitarray_speedup.py:239-281 | 3 or 4 bits per octal or hex digit, 1 per binary digit. Succeeds exactly when every character is a digit. |
| BitStrings.DigitsToBitsValue | bytemaker/bitvector/bitvector_with_bitarray_speedup.py:239-281 | The bits read from a digit string denote the number the digits denote, and there are exactly width × digits of them. |
| BitStrings.FromHex | bytemaker/bitvector/bitvector_with_bitarray_speedup.py:239-259 | Errors are ValueError. A result has 4 bits per digit, so its length is a multiple of 4. |
| BitStrings.FromOct | bytemaker/bitvector/bitvector_with_bitarray_speedup.py:261-281 | Errors are ValueError. A result has 3 bits per digit, so its length is a multiple of 3. |
| BitStrings.FromBin | bytemaker/bitvector/bitvector_with_bitarray_speedup.py:283-301 | Errors are ValueError. A result has no more bits than the text has characters. |
| BitStrings.FromString | bytemaker/bitvector/bitvector_with_bitarray_speedup.py:172-182 | Errors are ValueError. "0x" text gives a multiple of 4 bits and "0o" text a multiple of 3. Any other text gives no more bits than it has characters. |
| BitStrings.From01 | bytemaker/bitvector/bitvector_with_bitarray_speedup.py:303-321 | On success, the 0/1 text of the bits is the input with its separators deleted. |
| BitStrings.FromSize | bytemaker/bitvector/bitvector_with_bitarray_speedup.py:323-339 | `n` zero bits, and none for a negative `n`. |
| BitStrings.CharsPerByte | bytemaker/bitvector/bitvector_with_bitarray_speedup.py:439-467 | The least number of digits whose bits cover one byte. |
| BitStrings.Alphabet | bytemaker/bitvector/bitvector_with_bitarray_speedup.py:439-467 | The digit alphabet has exactly `base` characters. |
| BitStrings.BitsToDigits | bytemaker/bitvector/bitvector_with_bitarray_speedup.py:439-467 | One digit per group of log2(base) bits. A length that is not a whole number of groups raises. |
| BitStrings.BitsToDigitsAt | bytemaker/bitvector/bitvector_with_bitarray_speedup.py:439-467 | Digit i is the alphabet's character for the value of bits k·i up to k·i+k, where k is the number of bits per digit. |
| BitStrings.DigitsRoundTrip | bytemaker/bitvector/bitvector_with_bitarray_speedup.py:439-467 | For bases 2, 8 and 16, reading back the digits `tobase` writes gives the bits. |
| BitStrings.ToBase | bytemaker/bitvector/bitvector_with_bitarray_speedup.py:439-467 | An unsupported base raises ValueError. For a valid base without a separator, the result is the digits `BitsToDigits` gives. With a separator, those digits are grouped by `ChunkJoin` in chunks of `chars_per_byte * bytes_per_sep`, and a digit error is passed on. |
| BitStrings.SplitJoin | bytemaker/bitvector/bitvector_with_bitarray_speedup.py:460-465 | For a positive step, never shorter than the text, and the text itself when the separator is empty. |
| BitStrings.ChunkJoin | bytemaker/bitvector/bitvector_with_bitarray_speedup.py:460-465 | A zero step raises ValueError, and a negative one gives "". Otherwise the result is never shorter than the text, and is the text itself when it fits in one chunk or the separator is empty. |
| BitStrings.To01 | bytemaker/bitvector/bitvector_with_bitarray_speedup.py:517-531 | Raises ValueError exactly for a separator with bytes_per_sep 0, and a negative bytes_per_sep gives "". Without a separator, or when the bits fit in one chunk, it is the plain 0/1 text. |
| BitStrings.HexString | bytemaker/bitvector/bitvector_with_bitarray_speedup.py:469-484 | Succeeds exactly for a length that is a multiple of 4 and, with a separator, a nonzero bytes_per_sep. The text starts with "0x". |
| BitStrings.OctString | bytemaker/bitvector/bitvector_with_bitarray_speedup.py:486-500 | Succeeds exactly for a length that is a multiple of 3 and, with a separator, a nonzero bytes_per_sep. The text starts with "0o". |
| BitStrings.BinString | bytemaker/bitvector/bitvector_with_bitarray_speedup.py:502-515 | Succeeds exactly without a separator or with a nonzero bytes_per_sep. The text starts with "0b". |
| BitStrings.To01RoundTrip | bytemaker/bitvector/bitvector_with_bitarray_speedup.py:517-531 | `from01(to01(b, sep))` gives `b` back for any separator from "_- :". |
| BitStrings.BitsDigits | bytemaker/bitvector/bitvector_with_bitarray_speedup.py:303-321 | The 0/1 text of any bits reads back as the same bits. |
| BitStrings.HexRoundTrip | bytemaker/bitvector/bitvector_with_bitarray_speedup.py:469-484 | For a length that is a multiple of 4, `hex` succeeds and `fromhex` parses its output back to the bits. |
| BitStrings.OctRoundTrip | bytemaker/bitvector/bitvector_with_bitarray_speedup.py:486-500 | For a length that is a multiple of 3, `oct` succeeds and `fromoct` parses its output back to the bits. |
| BitStrings.BinRoundTrip | bytemaker/bitvector/bitvector_with_bitarray_speedup.py:502-515 | `bin` succeeds, and `frombin` parses its output back to the bits. |
| BitStrings.FromOctExamples | test/bittypes_tests/bitarray_test.py:104-113 | `fromoct("12")` is 001010 and `fromoct("0")` is 000. |
| BitStrings.FromStringOctal | bytemaker/bitvector/bitvector_with_bitarray_speedup.py:172-182 | The constructor reads "0o707" as the nine bits 111000111. |
| BitStrings.SeparatorsInsignificant | bytemaker/bitvector/bitvector_with_bitarray_speedup.py:239-259 | "0x0000_0F0F" and "0x00000F0F" give the same bits. |
| BitStrings.HexPrefixed | bytemaker/bitvector/bitvector_with_bitarray_speedup.py:172-182 | Text starting with "0x" goes to `fromhex`. |
| BitStrings.FromHexIgnoresSeparators | bytemaker/bitvector/bitvector_with_bitarray_speedup.py:239-259 | `fromhex` depends only on the text that remains once separators are deleted. |
| BitStrings.HexExamples | test/bittypes_tests/bitarray_test.py:179-185 | `tobase(16)` of 1010 is "a", and `hex` of 10100101 is "0xa5". |
| BitStrings.OctExample | test/bittypes_tests/bitarray_test.py:192-197 | `oct` of 001010 is "0o12". |
| Search.Window | bytemaker/bitvector/bitvector_with_bitarray_speedup.py:1098-1184 | The searched window is never longer than the bits. |
| Search.StartsWith | bytemaker/bitvector/bitvector_with_bitarray_speedup.py:1098-1184 | Walking the prefix trie bit by bit returns true exactly when some candidate is a prefix of the window. |
| Search.EndsWith | bytemaker/bitvector/bitvector_with_bitarray_speedup.py:1186-1256 | Walking the suffix trie backwards returns true exactly when some candidate is a suffix of the window. |
| Search.Find | bytemaker/bitvector/bitvector_with_bitarray_speedup.py:1258-1280 | The least in-window index where `sub` occurs and fits, with no earlier one, or -1 when it occurs nowhere in the window. |
| Search.RFind | bytemaker/bitvector/bitvector_with_bitarray_speedup.py:1282-1305 | The greatest such index, with no later one, or -1. |
| Search.Index | bytemaker/bitvector/bitvector_with_bitarray_speedup.py:1307-1337 | As `find`, but a missing subsequence raises ValueError. |
| Search.RIndex | bytemaker/bitvector/bitvector_with_bitarray_speedup.py:1339-1371 | As `rfind`, but a missing subsequence raises ValueError. |
| Search.FindRFindAgree | bytemaker/bitvector/bitvector_with_bitarray_speedup.py:1258-1305 | `find` and `rfind` agree on whether the subsequence occurs, and `find <= rfind`. |
| Search.FindEmpty | bytemaker/bitvector/bitvector_with_bitarray_speedup.py:1258-1280 | The empty subsequence is found at the clamped start when that does not pass the stop, and otherwise not at all. |
| Search.Clamp | bytemaker/bitvector/bitvector_with_bitarray_speedup.py:1258-1280 | A slice bound is clamped into 0..n, and a bound already there is kept. |
| Search.ReplaceSelf | bytemaker/bitvector/bitvector_with_bitarray_speedup.py:1373-1427 | Replacing a pattern by itself changes nothing. |
| Search.ReplaceNothing | bytemaker/bitvector/bitvector_with_bitarray_speedup.py:1373-1427 | With no occurrence, or a count <= 0, the bits come back unchanged. |
| Search.ReplaceRest | bytemaker/bitvector/bitvector_with_bitarray_speedup.py:1395-1419 | A replacement no shorter than the pattern never shortens the bits. |
| Search.Replace | bytemaker/bitvector/bitvector_with_bitarray_speedup.py:1373-1427 | A count <= 0 leaves the bits unchanged, and a replacement no shorter than the pattern never shortens them. |
| Search.ReplaceRestLength | bytemaker/bitvector/bitvector_with_bitarray_speedup.py:1395-1410 | Equal-length replacement keeps the length, which is the case the source performs in place. |
| Search.ReplaceExample | bytemaker/bitvector/bitvector_with_bitarray_speedup.py:1373-1427 | Replacing "10" by "01" in 101010 gives 010101. |
| Search.JoinBits | bytemaker/bitvector/bitvector_with_bitarray_speedup.py:1437-1456 | Joining no items gives nothing, and joining one item gives that item. |
| Search.Join | bytemaker/bitvector/bitvector_with_bitarray_speedup.py:1437-1456 | `join` through 0/1 text always succeeds, and gives the items with the separator between consecutive ones. |
| Search.FromStringOfBits | bytemaker/bitvector/bitvector_with_bitarray_speedup.py:172-182 | The 0/1 text of any bits is parsed back by the string constructor. |
| Search.Partition | bytemaker/bitvector/bitvector_with_bitarray_speedup.py:1458-1482 | The three parts concatenate to the input. When `sep` occurs, the middle is `sep` and the head holds no earlier occurrence. Otherwise the first part is everything. |
| Search.RPartition | bytemaker/bitvector/bitvector_with_bitarray_speedup.py:1484-1508 | The mirror image: split at the last occurrence. Otherwise everything comes last. |
| Search.LStrip | bytemaker/bitvector/bitvector_with_bitarray_speedup.py:1510-1544 | The result is a suffix. Everything removed is the strip bit, and the result does not start with it. |
| Search.RStrip | bytemaker/bitvector/bitvector_with_bitarray_speedup.py:1546-1581 | The result is a prefix. Everything removed is the strip bit, and the result does not end with it. |
| Search.StripShape | bytemaker/bitvector/bitvector_with_bitarray_speedup.py:1583-1597 | The input is a run of the strip bit, the `strip` result, and another run of that bit. |
| Search.Strip | bytemaker/bitvector/bitvector_with_bitarray_speedup.py:1583-1597 | Never longer than the input, and neither starts nor ends with the strip bit. |
| Search.StripIdempotent | bytemaker/bitvector/bitvector_with_bitarray_speedup.py:1583-1597 | Stripping twice is stripping once. |
| Search.LStripUnique | bytemaker/bitvector/bitvector_with_bitarray_speedup.py:1510-1544 | Any split into a run of the strip bit and a rest that does not start with it is the `lstrip` split. |
| Search.LStripExample | bytemaker/bitvector/bitvector_with_bitarray_speedup.py:1510-1544 | `lstrip()` of 001010 is 1010. |
| Search.LPad | bytemaker/bitvector/bitvector_with_bitarray_speedup.py:1599-1602 | The result is max(width, len) long, ends with the input, and is filled on the left. |
| Search.RPad | bytemaker/bitvector/bitvector_with_bitarray_speedup.py:1604-1607 | The result is max(width, len) long, starts with the input, and is filled on the right. |
| Search.LPadZerosValue | bytemaker/bitvector/bitvector_with_bitarray_speedup.py:1599-1602 | Zero padding on the left keeps the unsigned value. |
| Search.LPadZerosStrip | bytemaker/bitvector/bitvector_with_bitarray_speedup.py:1510-1544 | `lstrip` of zero-padded bits is `lstrip` of the bits. |
| BitVectors.LowBits | bytemaker/bitvector/bitvector_with_bitarray_speedup.py:1641-1644 | The `(integer >> i) & 1` loop builds exactly w bits. |
| BitVectors.LowBitsValue | bytemaker/bitvector/bitvector_with_bitarray_speedup.py:1641-1644 | Read unsigned, those bits are n mod 2^w, for negative n too. |
| BitVectors.LowBitsTwos | bytemaker/bitvector/bitvector_with_bitarray_speedup.py:1627-1646 | Within the signed w-bit range, the low bits read back as n in two's complement. |
| BitVectors.LowBitsAgreesWithCodec | bytemaker/bitvector/bitvector_with_bitarray_speedup.py:1627-1646 | `from_int` agrees with the codec's two's-complement encoding wherever that succeeds. |
| BitVectors.FromInt | bytemaker/bitvector/bitvector_with_bitarray_speedup.py:1627-1646 | Raises ValueError exactly when the bit length of \|integer\| exceeds `size`. Otherwise it gives the `size` low bits, `size` defaulting to `twos_complement_bit_length`. In the model, where that default is exact, it always succeeds and reads back as the integer in two's complement. |
| BitVectors.OneShortWidthMisreads | bytemaker/bitvector/bitvector_with_bitarray_speedup.py:1633-1644 | With a width one below the exact default, as the source's rounded `log2` gives for 2^k with k >= 53, the bit-length check passes for 2^k and the k+1 bits read back as -2^k. |
| BitVectors.PackBytesLength | bytemaker/bitvector/bitvector_with_bitarray_speedup.py:1668-1680 | `to_bytes` gives one byte per started group of 8 bits. |
| BitVectors.PackBytes | bytemaker/bitvector/bitvector_with_bitarray_speedup.py:1668-1680 | At least one byte per 8 bits, and never more bytes than bits. |
| BitVectors.PackByte | bytemaker/bitvector/bitvector_with_bitarray_speedup.py:1668-1680 | The inner loop packs the bits of one byte into their unsigned value. |
| BitVectors.PackBytesChunk | bytemaker/bitvector/bitvector_with_bitarray_speedup.py:1668-1680 | Byte j is the unsigned value of bits 8j up to 8j+8, or up to the end. |
| BitVectors.ToBytes | bytemaker/bitvector/bitvector_with_bitarray_speedup.py:1668-1680 | The packing loop gives the packed bytes, reversed on request. |
| BitVectors.ReverseBytes | bytemaker/bitvector/bitvector_with_bitarray_speedup.py:1677-1678 | Same length, and byte i is the input's byte n-1-i. |
| BitVectors.PackBytesValue | bytemaker/bitvector/bitvector_with_bitarray_speedup.py:1668-1680 | Packing a whole number of bytes keeps the unsigned value. |
| BitVectors.PackBytesSign | bytemaker/bitvector/bitvector_with_bitarray_speedup.py:1668-1680 | The leading byte's top bit is set exactly when the first bit is 1. |
| BitVectors.ToBytesPaddedAligned | bytemaker/bitvector/bitvector_with_bitarray_speedup.py:921-927 | On whole bytes, `__bytes__` and `to_bytes` agree. |
| BitVectors.ToBytesPadded | bytemaker/bitvector/bitvector_with_bitarray_speedup.py:921-927 | `__bytes__` gives ceil(n/8) bytes. |
| BitVectors.ToBytesPaddedLastByte | bytemaker/bitvector/bitvector_with_bitarray_speedup.py:921-927 | Otherwise `__bytes__` pads the last byte on the right, which shifts its value up, while `to_bytes` keeps it low. |
| BitVectors.ToBytesVersusBytes | bytemaker/bitvector/bitvector_with_bitarray_speedup.py:921-927 | For the bits "1", `to_bytes` gives byte 1 and `__bytes__` gives byte 128. |
| BitVectors.ToIntAsWrittenPositive | test/bits_test.py:110-121 | 0101 reads as 5. The test exercises the legacy `Bits.to_int` (bytemaker/bits.py:339-350), which runs the same algorithm. |
| BitVectors.ToIntAsWrittenNegative | test/bits_test.py:110-121 | 101 reads as -3. The test exercises the legacy `Bits.to_int` (bytemaker/bits.py:339-350), which runs the same algorithm. |
| BitVectors.ToIntAsWrittenNegativeLonger | test/bits_test.py:110-121 | 10101 reads as -11. The test exercises the legacy `Bits.to_int` (bytemaker/bits.py:339-350), which runs the same algorithm. |
| BitVectors.FromBytes | bytemaker/bitvector/bitvector_with_bitarray_speedup.py:1655-1666 | `int.from_bytes` is below 2^(8n). An unsigned read is non-negative, and a negative result comes from a signed read of at least one byte and is at least -2^(8n). |
| BitVectors.ToIntAsWritten | bytemaker/bitvector/bitvector_with_bitarray_speedup.py:1655-1666 | No bits read as 0, and an unsigned read is non-negative. |
| BitVectors.ToInt | bytemaker/bitvector/bitvector_with_bitarray_speedup.py:1655-1666 | The corrected reading: no bits read as 0, and an unsigned read is non-negative. |
| BitVectors.ToIntAsWrittenMisaligned | bytemaker/bitvector/bitvector_with_bitarray_speedup.py:1655-1666 | As written, the 10-bit 0100000000 (256) reads as 16384. |
| BitVectors.ToIntBigEndian | bytemaker/bitvector/bitvector_with_bitarray_speedup.py:1655-1666 | The corrected `to_int` is the two's-complement (signed) or unsigned reading of any bits. |
| BitVectors.ToIntAsWrittenAgrees | bytemaker/bitvector/bitvector_with_bitarray_speedup.py:1655-1666 | Where the source already pads correctly (a whole number of bytes, or signed with a leading 1), it agrees with the corrected reading. |
| BitVectors.InsertAt | bytemaker/bitvector/bitvector_with_bitarray_speedup.py:995-1005 | One bit longer, with `b` at position i. |
| BitVectors.RemoveAt | bytemaker/bitvector/bitvector_with_bitarray_speedup.py:1007-1034 | One bit shorter. |
| BitVectors.RemoveInserted | bytemaker/bitvector/bitvector_with_bitarray_speedup.py:995-1034 | Removing an inserted bit restores the bits. |
| BitVectors.InsertRemoved | bytemaker/bitvector/bitvector_with_bitarray_speedup.py:995-1034 | Re-inserting a removed bit restores the bits. |
| BitVectors.FirstIndexOf | bytemaker/bitvector/bitvector_with_bitarray_speedup.py:1036-1045 | The least position holding `b`, or -1 exactly when there is none. |
| BitVectors.BitVector.constructor | bytemaker/bitvector/bitvector_with_bitarray_speedup.py:193-199 | The vector holds the given bits. |
| BitVectors.BitVector.Append | bytemaker/bitvector/bitvector_with_bitarray_speedup.py:974-980 | The bits become old + [value]. |
| BitVectors.BitVector.Extend | bytemaker/bitvector/bitvector_with_bitarray_speedup.py:982-993 | The bits become old + values. |
| BitVectors.BitVector.Insert | bytemaker/bitvector/bitvector_with_bitarray_speedup.py:995-1005 | Python `insert`: a negative index counts from the end, and indices are clamped to the ends. |
| BitVectors.BitVector.Pop | bytemaker/bitvector/bitvector_with_bitarray_speedup.py:1007-1034 | The default index is the last. Out of range (negative included) returns the default or raises IndexError and leaves the bits unchanged. Otherwise it returns that bit and removes it. |
| BitVectors.BitVector.Remove | bytemaker/bitvector/bitvector_with_bitarray_speedup.py:1036-1045 | Removes the first occurrence of the bit. Without one it raises ValueError and leaves the bits unchanged. |
| BitVectors.BitVector.Reverse | bytemaker/bitvector/bitvector_with_bitarray_speedup.py:1059-1064 | The bits become their reverse. |
| BitVectors.BitVector.Replace | bytemaker/bitvector/bitvector_with_bitarray_speedup.py:1373-1427 | The result is `Search.Replace` of the old bits. With equal-length pattern and replacement the vector becomes that result in place; otherwise the vector is unchanged. |
| BitVectors.BitArray.constructor | bytemaker/BitArray_with_bitarray_speedup.py:200-210 | The array holds the given bits. |
| BitVectors.BitArray.Pop | bytemaker/BitArray_with_bitarray_speedup.py:979-990 | An empty array returns the default or raises. An out-of-range index with a default returns it. Otherwise Python `list.pop` rules apply, a negative index included. |
| LegacyBits.BytesToBits | bytemaker/bits.py:42-43 | Eight bits per byte. |
| LegacyBits.BytesToBitsRoundTrip | bytemaker/bits.py:267-279 | `Bits(b).to_bytes() == b`. |
| LegacyBits.FromBytesAsWritten | bytemaker/bits.py:281-286 | Without reversal, the bytes' bits. With reversal, the byte values are taken as list elements, so the call raises unless every byte is 0 or 1. |
| LegacyBits.FromBytesReversedRaises | bytemaker/bits.py:281-286 | The reversed bytes 01 02 raise. |
| LegacyBits.FromBytes | bytemaker/bits.py:281-286 | The corrected version gives 8 bits per byte. |
| LegacyBits.FromBytesRoundTrip | bytemaker/bits.py:267-286 | Packing the corrected result gives back the bytes, reversed when asked. |
| LegacyBits.DropUnderscores | bytemaker/bits.py:288-319 | No underscore remains, and the text is no longer than before. |
| LegacyBits.LStripZeros | bytemaker/bits.py:288-319 | A suffix that does not start with '0', after a run of '0's. |
| LegacyBits.BinList | bytemaker/bits.py:288-319 | On success, the bits' 0/1 text is the digits themselves. |
| LegacyBits.BareBinaryString | bytemaker/bits.py:288-319 | As written, any bare 0/1 text raises UnboundLocalError. The corrected parser reads it back. |
| LegacyBits.AllZeroHexDigits | bytemaker/bits.py:288-319 | As written, "0x00" raises. The corrected parser gives eight zero bits. |
| LegacyBits.PrefixedKeepsZeroDigits | bytemaker/bits.py:288-319 | Wherever the as-written digit branch succeeds, it gives the digit-by-digit reading. |
| LegacyBits.FromStringBinaryExample | test/bits_test.py:99-108 | "0b101" gives 101. |
| LegacyBits.FromStringUnderscoreExample | bytemaker/bits.py:288-319 | "0b1_01" gives 101. |
| LegacyBits.FromStringHexExample | test/bits_test.py:99-108 | "0xFE" gives 11111110. |
| LegacyBits.PrefixedAsWritten | bytemaker/bits.py:288-319 | Errors are ValueError, and digits that are all '0' raise. A result has at least 3 or 4 bits per digit. |
| LegacyBits.FromStringAsWritten | bytemaker/bits.py:288-319 | Wherever the as-written parser succeeds, it agrees with the corrected one. |
| LegacyBits.FromString | bytemaker/bits.py:288-319 | The corrected parser raises only ValueError or AssertionError. |
| LegacyBits.Pairwise | bytemaker/bits.py:131-133 | As long as the operands. |
| LegacyBits.Binop | bytemaker/bits.py:106-137 | The three loops compute `Combine`: with `expand`, the longer operand's excess bits, then the pairs. Without it, the pairs from the left. |
| LegacyBits.Combine | bytemaker/bits.py:106-137 | The result is as long as the longer operand with `expand`, and as the shorter one without it. |
| LegacyBits.CombineShape | bytemaker/bits.py:106-137 | The length is the longer operand's with `expand` and the shorter's without, together with the exact bits. |
| LegacyBits.CombineFromTheLeft | bytemaker/bits.py:123-133 | Without `expand`, 10 & 1 is 1, although 10 ends in 0. |
| LegacyBits.CombineAligned | bytemaker/bits.py:106-137 | The corrected `binop`: operands paired from the right. |
| LegacyBits.CombineExpandAgrees | bytemaker/bits.py:106-137 | With `expand`, the as-written and the corrected versions agree. |
| LegacyBits.CombineAlignedPlain | bytemaker/bits.py:106-137 | Without `expand`, the corrected version is the pairs of the shared trailing bits. |
| LegacyBits.PairwiseOrAnd | bytemaker/bits.py:361-365 | On equal lengths, `a \| b == a & b` exactly when a == b. |
| LegacyBits.ShrinkEqualsAsWrittenPrefix | bytemaker/bits.py:361-365 | As written, `shrinkequals` holds exactly when the shared leading bits agree. |
| LegacyBits.ShrinkEqualsAsWritten | bytemaker/bits.py:361-365 | Equal operands are `shrinkequals`. |
| LegacyBits.ShrinkEquals | bytemaker/bits.py:361-365 | Corrected: equal operands are `shrinkequals`. |
| LegacyBits.ShrinkEqualsStripped | bytemaker/bits.py:361-365 | Corrected, as the docstring says: it holds exactly when the longer operand's excess leading bits are zeros and the rest of it is the shorter operand. |
| LegacyBits.ShrinkEqualsValue | bytemaker/bits.py:361-365 | Corrected: it holds exactly when the two have the same unsigned value. |
| LegacyBits.ShrinkEqualsSameLength | bytemaker/bits.py:361-365 | On operands of equal length, both versions are plain equality. |
| LegacyBits.ShrinkEqualsLeadingZeros | bytemaker/bits.py:361-365 | Leading zeros on the longer operand are ignored by the corrected version. As written, 01 against 1 is not equal. |
| LegacyBits.ShrinkEqualsExample | test/bits_test.py:133-137 | 1100 and 0111 are not `shrinkequals`. |
| LegacyBits.Drop | bytemaker/bits.py:164 | Python `s[k:]` for k >= 0: len - k bits, or none when k >= len. |
| LegacyBits.LShift | bytemaker/bits.py:160-164 | The length is \|s\|+k with `expand`, and the larger of \|s\| and k without it. The last k bits are 0. |
| LegacyBits.RShiftAsWritten | bytemaker/bits.py:169-173 | k zeros come first, and with `expand` there are \|s\|+k bits. Without `expand`, k = 0 leaves no bits. |
| LegacyBits.RShift | bytemaker/bits.py:169-173 | k zeros come first, with the same lengths as `lshift`. `rshift(0)` without `expand` leaves the bits as they are. |
| LegacyBits.RShiftZero | bytemaker/bits.py:169-173 | As written, `rshift(0)` empties a non-empty vector. The corrected shift keeps it. |
| LegacyBits.RShiftAgrees | bytemaker/bits.py:169-173 | For k > 0, or with `expand`, the two agree. |
| LegacyBits.LShiftValue | bytemaker/bits.py:160-164 | For 0 <= k <= len, the plain left shift keeps the length and multiplies the value by 2^k mod 2^len. |
| LegacyBits.LShiftExpandValue | bytemaker/bits.py:160-164 | With `expand`, the left shift multiplies by 2^k. |
| LegacyBits.RShiftValue | bytemaker/bits.py:169-173 | The corrected plain right shift keeps the length and divides by 2^k. |
| LegacyBits.RShiftExpandValue | bytemaker/bits.py:169-173 | With `expand`, the right shift keeps the unsigned value. |
| LegacyBitsObject.ListIndex | bytemaker/bits.py:101-104 | Python list indexing: valid exactly for -n <= i < n, giving a position below n congruent to i mod n. |
| LegacyBitsObject.PopBit | bytemaker/bits.py:259-265 | IndexError exactly for an index outside -n..n-1. Otherwise it gives the bit at that position and one bit fewer. |
| LegacyBitsObject.PopBitRestores | bytemaker/bits.py:259-265 | Putting the popped bit back where it was restores the list. |
| LegacyBitsObject.PopLast | bytemaker/bits.py:259-265 | The default `pop()` takes the last bit of a non-empty list. |
| LegacyBitsObject.SetBit | bytemaker/bits.py:101-104 | ValueError exactly for a value outside 0..1, and IndexError exactly for a bad index. Otherwise the length is kept, the addressed bit becomes the value and every other bit is unchanged. |
| LegacyBitsObject.BitList.constructor | bytemaker/bits.py:22-62 | A fresh list holding the items. |
| LegacyBitsObject.BitList.Pop | bytemaker/bits.py:259-265 | `list.pop(index)` on the shared list. |
| LegacyBitsObject.Bits.constructor | bytemaker/bits.py:22-62 | A fresh object over a fresh list. |
| LegacyBitsObject.Bits.Copy | bytemaker/bits.py:28-29 | `Bits(other)` shares the other object's list. With `deep`, it gets a fresh copy. |
| LegacyBitsObject.Bits.SetItem | bytemaker/bits.py:101-104 | Writes through to the shared list, so every object sharing it sees the change. |
| LegacyBitsObject.Bits.Append | bytemaker/bits.py:225-233 | A bad value raises. In place, it appends to the shared list and returns self. Otherwise it returns a fresh object and leaves the list unchanged. |
| LegacyBitsObject.Bits.PadLeft | bytemaker/bits.py:235-245 | A target below the length leaves the list as it is. A fill other than 0 or 1 raises AssertionError and changes nothing: this is the corrected in-place path, which the source does not check. Otherwise it pads on the left to the target with the fill. In place, it rebinds this object to a fresh list, so sharers keep the old bits. Otherwise it returns a fresh object and leaves this one unchanged. |
| LegacyBitsObject.Bits.PadRight | bytemaker/bits.py:247-257 | Pads on the right, with the same outcomes as `PadLeft`. |
| LegacyBitsObject.PaddedLeftAsWritten | bytemaker/bits.py:235-245 | `[padvalue] * n + bitlist`: max(target, length) long, ending with the list, and filled with `padvalue` whatever its value. |
| LegacyBitsObject.PadLeftStoresNonBit | bytemaker/bits.py:235-245 | As written, padding [1] to 2 with fill 2 in place stores [2, 1], an element that `__setitem__` refuses. |
| LegacyBitsObject.PadLeftAgrees | bytemaker/bits.py:235-245 | For a fill of 0 or 1, the as-written list is the left pad. |
| LegacyBitsObject.Bits.Pop | bytemaker/bits.py:259-265 | In place, it pops from the shared list. Otherwise it pops from a deep copy and leaves the list unchanged. |
| LegacyBitsObject.FromIterable | bytemaker/bits.py:43-58 | An iterable source is accepted exactly when every element is 0 or 1, and raises AssertionError otherwise. |
| LegacyBitsObject.ConcatIsJoin | bytemaker/bits.py:377-379 | Joining with an empty separator is concatenation. |
| LegacyBitsObject.Concat | bytemaker/bits.py:377-379 | The result starts with the first item, and one item is returned as it is. |
| LegacyBitsObject.JoinLength | bytemaker/bits.py:380-385 | The length is the items' total plus one separator fewer than there are items. |
| LegacyBitsObject.ConcatLength | bytemaker/bits.py:377-379 | The concatenation keeps every bit. |
| LegacyBitsObject.Join | bytemaker/bits.py:372-385 | An empty separator concatenates. Otherwise the separator goes between consecutive items, and an empty iterable raises IndexError. |
| FloatLayout.SubclassWidths | bytemaker/bittypes/float.py:192-222 | Float16/32/64, BFloat16, TF19 and FP24 are 16, 32, 64, 16, 19 and 24 bits wide. |
| FloatLayout.NormalizeExact | bytemaker/bittypes/float.py:114-119 | Fails exactly on all-zero digits. Otherwise a leading 1 followed by the mantissa has the digits' value, and the exponent is the mantissa length less the fraction length. |
| FloatLayout.Normalize | bytemaker/bittypes/float.py:114-119 | Errors are ValueError. The mantissa is shorter than the digits, and the exponent is the mantissa length less the fraction length. |
| FloatLayout.BiasValues | bytemaker/bittypes/float.py:121-122 | The bias is 2^(e-1)-1: 127 for 8 bits, 15 for 5, 1023 for 11. |
| FloatLayout.Bias | bytemaker/bittypes/float.py:121-122 | The bias is non-negative, and 2·bias + 2 = 2^e. |
| FloatLayout.MantissaField | bytemaker/bittypes/float.py:128-135 | Exactly m bits: the mantissa cut or zero-padded on the right. |
| FloatLayout.IntToBinaryText | bytemaker/bittypes/float.py:124-126 | `int_to_binary` is a '-' for a negative integer followed by its low bits. |
| FloatLayout.ParseAssembled | bytemaker/bittypes/float.py:128-135 | Read as bits, the assembled text is the sign bit, the surviving exponent bits and the mantissa field. |
| FloatLayout.AssembledShape | bytemaker/bittypes/float.py:128-135 | The assembled text is the sign digit, a '-' for a negative biased exponent, then the digits of the surviving exponent bits and the mantissa field. |
| FloatLayout.ParsedExponentInRange | bytemaker/bittypes/float.py:124-126 | A biased exponent in 0..2^e-1 comes out as exactly its e bits. |
| FloatLayout.SpecialPatterns | bytemaker/bittypes/float.py:90-95 | Each special pattern (zero, ±inf) has 1+e+m digits, and -0.0 gives the pattern of 0.0. |
| FloatLayout.ToBinstring | bytemaker/bittypes/float.py:82-160 | Only a finite input can raise, and then with ValueError. |
| FloatLayout.ToBinstringFinite | bytemaker/bittypes/float.py:137-160 | A finite input that normalises gives the assembled text, with exp + bias as its biased exponent. |
| FloatLayout.EncodeAsWritten | bytemaker/bittypes/float.py:72-80 | The value setter as written: a non-float raises ValueError. A stored result is always 1+e+m bits. |
| FloatLayout.Encode | bytemaker/bittypes/float.py:72-80 | The corrected setter: a non-float raises ValueError. A stored result is always 1+e+m bits. |
| FloatLayout.EncodeAgrees | bytemaker/bittypes/float.py:137-160 | The two setters differ only where the biased exponent is out of range. |
| FloatLayout.EncodeFinite | bytemaker/bittypes/float.py:137-160 | A finite input that normalises with its exponent in range is stored as the sign, e exponent bits and the mantissa field. |
| FloatLayout.EncodeFiniteFails | bytemaker/bittypes/float.py:137-160 | A finite input fails exactly when it cannot be normalised or its biased exponent does not fit. |
| FloatLayout.WeightedSumIsUnsigned | bytemaker/bittypes/float.py:40-70 | The getter's weighted sum is the unsigned value of the bits. |
| FloatLayout.Decode | bytemaker/bittypes/float.py:40-70 | Fails exactly when fewer than 1+e+m bits are given. |
| FloatLayout.FieldsValueExact | bytemaker/bittypes/float.py:61-68 | With m mantissa bits worth u, `sign · 2^exponent · (1 + u/2^m)` as an integral part and fraction bits: an integer when the exponent is at least m, otherwise m − exponent fraction bits worth 2^m + u in all. |
| FloatLayout.DecodedValue | bytemaker/bittypes/float.py:40-70 | The float the getter computes from stored bits is the exact value of the sign, exponent and mantissa fields `Decode` reads. |
| FloatLayout.DecodeFields | bytemaker/bittypes/float.py:40-70 | Stored fields read back as the sign, the unbiased exponent and the mantissa. |
| FloatLayout.DecodeEncode | bytemaker/bittypes/float.py:40-80 | Round trip: what the corrected setter stores reads back as the input's sign, normalised exponent and mantissa field. |
| FloatLayout.AllZeroDecodes | bytemaker/bittypes/float.py:40-70 | The getter has no special cases: all zeros reads as exponent -bias, not as zero. |
| FloatLayout.OneAsFloat32 | bytemaker/bittypes/float.py:137-160 | 1.0 in Float32 is 0, 01111111 and 23 zeros. |
| FloatLayout.NegativeExponentMisread | bytemaker/bittypes/float.py:124-135 | As written, 0.125 with 2 exponent bits is stored as 0 10 0… and reads back as exponent 1. The corrected setter raises. |
| FloatLayout.EighthNormalizes | bytemaker/bittypes/float.py:114-119 | 0.125 normalises to an empty mantissa with exponent -3. |
| FloatLayout.MisreadDecoded | bytemaker/bittypes/float.py:40-70 | The stored bits 0, 10, zeros read as sign +1, exponent 1, mantissa 0. |
| BitTypes.FixedWidths | bytemaker/bittypes/buffer.py:95-96 | Buffer4, UInt8, SInt32, Float32 and BFloat16 are 4, 8, 32, 32 and 16 bits wide. |
| BitTypes.CheckBits | bytemaker/bittypes/bittype.py:149-159 | The `bits` setter accepts exactly `num_bits` bits and stores them unchanged. Otherwise it raises ValueError. |
| BitTypes.UIntStoredAsWritten | bytemaker/bittypes/int.py:537-538 | The UInt setter as written: succeeds exactly for a non-negative int, giving at least one bit whose unsigned value is the int. A negative int raises ValueError, and a non-int raises TypeError. |
| BitTypes.StoredByValue | bytemaker/bittypes/int.py:351-360 | The value setters (UInt through the corrected one). A UInt given a non-int raises TypeError, and a Float given a non-float raises ValueError. A Buffer accepts anything but a float, and stores an integer k as max(k, 0) bits. |
| BitTypes.NonIntSigned | bytemaker/bittypes/int.py:257-282 | `to_bitstring` of a non-integer always raises: UnboundLocalError exactly for a positive width in a supported format, and ValueError otherwise. |
| BitTypes.SIntNonIntValue | bytemaker/bittypes/int.py:355-360 | An SInt given a float or a bit list raises that same error. |
| BitTypes.GetterValue | bytemaker/bittypes/bittype.py:55-58 | `source.value` as a Python object: it raises exactly where the getter does. A UInt or SInt gives its integer, and a Buffer its bit list. |
| BitTypes.FloatGetterValue | bytemaker/bittypes/float.py:40-70 | The float a Float's getter returns has the sign field's sign and the exact value 2^exponent · (1 + mantissa/2^m). |
| BitTypes.ReadValue | bytemaker/bittypes/int.py:532-535 | The getters: UInt and SInt give integers, Buffer gives its bits. UInt raises exactly on no bits, and otherwise gives a value below 2^n. |
| BitTypes.PyType | bytemaker/bittypes/int.py:45 | `py_type`: a result is of the class's type, a value already of that type is kept, and it fails exactly for a list where a number is wanted, a float for a Buffer, or an infinity for `int`. |
| BitTypes.IntTruncates | bytemaker/bittypes/int.py:45 | `int` of a finite float keeps its sign and the magnitude of its integral part. |
| BitTypes.IntOfFloatOfInt | bytemaker/bittypes/float.py:28 | `int(float(n))` gives n back. |
| BitTypes.PyTypeIdempotent | bytemaker/bittypes/int.py:45 | Converting twice is converting once. |
| BitTypes.StoredWidth | bytemaker/bittypes/int.py:355-360 | Every value that an SInt or Float setter accepts, or that the corrected UInt setter accepts, is stored at exactly `num_bits`. The UInt setter as written is `UIntStoredAsWritten`, which does not pad. |
| BitTypes.UIntRoundTrip | bytemaker/bittypes/int.py:533-538 | The (corrected) UInt setter accepts exactly 0 <= v < 2^n, and the getter returns v. |
| BitTypes.SIntRoundTrip | bytemaker/bittypes/int.py:351-360 | The SInt setter accepts exactly the values the instance's format holds in n >= 1 bits. Apart from 1-bit sign-magnitude, the getter returns them. |
| BitTypes.FloatRoundTrip | bytemaker/bittypes/float.py:40-80 | A stored float reads back as its sign, normalised exponent and mantissa field. |
| BitTypes.BufferRoundTrip | bytemaker/bittypes/buffer.py:49-55 | The getter returns the bits. The value setter stores any bit list without checking it. |
| BitTypes.UIntSetterUnpadded | bytemaker/bittypes/int.py:537-538 | As written, UInt12 value 5 stores 101, which the width-checked setter refuses. The corrected setter stores 000000000101. |
| BitTypes.Resolve | bytemaker/bittypes/bittype.py:54-81 | A failed conversion of a source raises. An explicit endianness wins. Under "source_else_big", a bit-value source lends its endianness, otherwise the endianness is big. |
| BitTypes.ConstructExactlyOne | bytemaker/bittypes/bittype.py:83-90 | With neither value nor bits, or both after resolving the source, construction raises ValueError. |
| BitTypes.Construct | bytemaker/bittypes/bittype.py:47-90 | Both value and bits, or neither with no source, raise ValueError. A stored UInt, SInt or Float has `num_bits` bits (UInt values through the corrected setter), and an explicit little endianness is kept. |
| BitTypes.ConstructFromBitVector | bytemaker/bittypes/bittype.py:47-90 | A BitVector source is stored as-is exactly when it has `num_bits` bits, with big as the default endianness. |
| BitTypes.ConstructFromBitType | bytemaker/bittypes/bittype.py:54-81 | A bit-value source goes through the value setter and lends its endianness. |
| BitTypes.BufferListSourceUnchecked | bytemaker/bittypes/buffer.py:53-55 | A bit list handed to a Buffer as a source is stored at any length. |
| BitTypes.FromBitsToBits | bytemaker/bittypes/bittype.py:252-274 | `from_bits(b).to_bits() == b` exactly when \|b\| = `num_bits`. Otherwise it raises ValueError. |
| BitTypes.BitType.Init | bytemaker/bittypes/bittype.py:47-90 | A fresh object with the given class, format and endianness, and no bits yet. |
| BitTypes.BitType.SetBits | bytemaker/bittypes/bittype.py:149-159 | Stores the bits exactly when `CheckBits` accepts them. Otherwise the object is unchanged. |
| BitTypes.BitType.SetValue | bytemaker/bittypes/int.py:355-360 | Stores what `StoredByValue` gives, UInt values through the corrected setter. An error leaves the object unchanged. |
| BitTypes.New | bytemaker/bittypes/bittype.py:47-90 | The new object holds exactly what `Construct` computes (UInt values through the corrected setter), or the construction error. |
| BitTypes.Populated | bytemaker/bittypes/bittype.py:83-90 | The value setter (for UInt, the corrected one) when there is a value, else the bits setter, on a fresh object. |
| BitTypes.BytesToBitType | bytemaker/bittypes/bittype.py:349-360 | `T(bits=BitVector(bs))`: succeeds exactly when 8×\|bs\| = `num_bits`, holding a fresh object with the bytes' bits, big endian. Otherwise it raises ValueError. |
| BitTypes.ToBytes | bytemaker/bittypes/bittype.py:223-238 | `__bytes__` gives ceil(n/8) bytes. |
| BitTypes.LittleIsReversedBig | bytemaker/bittypes/bittype.py:223-238 | The little-endian bytes are the big-endian bytes reversed, in both directions. |
| BitTypes.BytesRoundTrip | bytemaker/bittypes/bittype.py:349-360 | For whole bytes, `bytes_to_bittype(bytes(x))` restores x's bits. For little endian, the bytes are reversed first. |
| BitTypes.Equals | bytemaker/bittypes/bittype.py:190-205 | The same class compares values, and any other operand is compared with this object's value. A failing getter raises. |
| BitTypes.NotEquals | bytemaker/bittypes/bittype.py:207-221 | Exactly the negation of `__eq__`, with the same errors. |
| BitTypes.EqualsSymmetric | bytemaker/bittypes/bittype.py:190-205 | Equality between objects of one class is symmetric. |
| BitTypes.SignedZerosEqual | bytemaker/bittypes/bittype.py:194-195 | Sign-magnitude +0 (0000) and -0 (1000) have different bits but compare equal. |
| BitTypes.PackingFormat | bytemaker/bittypes/bittype.py:310-329 | '<' or '>' by endianness, then the struct letter. |
| BitTypes.SkipStructPacking | bytemaker/bittypes/int.py:396-397 | Struct packing is only used when the instance's format is two's complement. |
| BitTypes.SkipStructPackingAsWritten | bytemaker/bittypes/int.py:441-447 | The specialised classes follow the corrected rule. A difference needs a fixed class whose configured and instance formats disagree about two's complement. |
| BitTypes.SkipStructPackingAgrees | bytemaker/bittypes/int.py:441-447 | The fixed classes agree with the corrected rule when the instance uses the configured format, and the specialised classes always do. |
| BitTypes.SInt8IgnoresInstanceFormat | bytemaker/bittypes/int.py:441-447 | An SInt8 in ones' complement while the global default is two's complement is still packed with struct, which writes -1 as 11111111, whereas the instance's format stores 11111110. The corrected rule skips packing. |
| Aggregate.SumWidthsAppend | bytemaker/conversions/aggregate_types.py:55-70 | Widths add up over consecutive runs of fields. |
| Aggregate.WidthIsLeafSum | bytemaker/conversions/aggregate_types.py:31-52 | A type's width is the sum of the widths of its leaf unit types, however deeply its records nest. |
| Aggregate.CountBitsInUnitType | bytemaker/conversions/aggregate_types.py:31-52 | The recursive count of bits equals the declared width. |
| Aggregate.CountBitsInAggregateType | bytemaker/conversions/aggregate_types.py:55-70 | The same for the aggregate entry point. |
| Aggregate.Declared | bytemaker/conversions/aggregate_types.py:225-245 | The fields' declared types, in order. |
| Aggregate.Values | bytemaker/conversions/aggregate_types.py:225-245 | The fields' values, in order. |
| Aggregate.Rebuilt | bytemaker/conversions/aggregate_types.py:293-306 | Field i pairs the i-th declared type with the i-th read value. |
| Aggregate.SourceOf | bytemaker/bittypes/bittype.py:55-76 | A plain value is the constructor's source as it is. Another BitType instance lends its value, and fails exactly where its getter raises. Nothing else gives a source. |
| Aggregate.Cast | bytemaker/conversions/aggregate_types.py:192-195 | Only a BitType field can be cast into; a native or record target raises TypeError. The object, or another BitType instance's value, is converted with the class's `py_type` and stored by the value setter, giving an instance of the unit type. A failed conversion, or any other object, raises ValueError, and a setter error is passed on. |
| Aggregate.TryCast | bytemaker/conversions/aggregate_types.py:192-195 | An instance is kept unchanged. Anything accepted is an instance of the type. |
| Aggregate.LegacyTryCast | bytemaker/aggregate_types.py:157-161 | A non-instance whose cast raises TypeError is kept uncast. Any error it raises is the cast's own error, never TypeError. |
| Aggregate.LegacyCast | bytemaker/ytypes.py:131-137 | For a plain value that reaches `value_type(value)`, a successful legacy cast gives an instance of the target unit type. |
| Aggregate.LegacyCastAgrees | bytemaker/ytypes.py:131-137 | On plain values, the legacy cast differs from the current one only on a failed conversion, where it raises TypeError instead of ValueError. Every other value raises TypeError in the legacy cast. |
| Aggregate.FieldsSerialised | bytemaker/conversions/aggregate_types.py:225-245 | On success, one bit sequence per field. |
| Aggregate.ItemsAppend | bytemaker/conversions/aggregate_types.py:246-248 | Serialising an iterable is compositional over concatenation. |
| Aggregate.ItemsCons | bytemaker/conversions/aggregate_types.py:246-248 | An iterable serialises as its first item's bits followed by the rest's. |
| Aggregate.Serialised | bytemaker/conversions/aggregate_types.py:198-258 | A record raises the first failing field's cast error. An empty iterable gives no bits, and an object matching no branch raises. |
| Aggregate.ToBitsAggregate | bytemaker/conversions/aggregate_types.py:198-258 | The loops over items and fields compute exactly `Serialised`. |
| Aggregate.SerialiseFields | bytemaker/conversions/aggregate_types.py:225-245 | The field loop gives exactly `FieldsSerialised`: each field's bits in order, or the first failing field's error. |
| Aggregate.SerialiseItems | bytemaker/conversions/aggregate_types.py:246-248 | The item loop gives exactly `ItemsSerialised`: the items' bits concatenated, or the first failing item's error. |
| Aggregate.FromBitsIndividual | bytemaker/conversions/aggregate_types.py:116-145 | Succeeds exactly when the bits are the unit's width, giving that unit's instance of those bits. Otherwise it raises. |
| Aggregate.FieldsRead | bytemaker/conversions/aggregate_types.py:293-304 | When it succeeds, it reads one value per declared field. |
| Aggregate.LengthMismatchRaises | bytemaker/conversions/aggregate_types.py:283-291 | Bits of the wrong total length for a record raise. |
| Aggregate.Deserialised | bytemaker/conversions/aggregate_types.py:261-306 | On success the bits have the type's width and the value is an instance of the type. Every failure is the raised exception. |
| Aggregate.FromBitsAggregate | bytemaker/conversions/aggregate_types.py:261-306 | The counting, the check and the field-by-field slicing loop compute exactly `Deserialised`. |
| Aggregate.FieldsRoundTrip | bytemaker/conversions/aggregate_types.py:261-306 | The concatenated field bits are read back into the same values. |
| Aggregate.RoundTrip | test/aggregate_types_test.py:91-101 | For a value conforming to its type, serialising succeeds, has exactly `Width(t)` bits, and `from_bits_aggregate` gives the value back. |
| Aggregate.RecordReadBack | bytemaker/conversions/aggregate_types.py:261-306 | When bits of a record's width read back field by field as a record's values, `from_bits_aggregate` gives that record. |
| Aggregate.LegacyAgrees | bytemaker/aggregate_types.py:164-190 | On conforming values, the legacy serialiser writes the same bits as the current one. |
| Aggregate.LegacyRoundTrip | bytemaker/aggregate_types.py:193-218 | The legacy round trip holds for conforming values. |
| Aggregate.LegacySerialised | bytemaker/aggregate_types.py:164-190 | A non-empty iterable raises AttributeError, and an empty one gives no bits. An object matching no branch gives no bits. |
| Aggregate.LegacyKeepsUncastValue | bytemaker/aggregate_types.py:157-161 | An infinity in a UInt8 field: the current serialiser raises ValueError, while the legacy one keeps the value uncast and writes its own bits. |
| Aggregate.CastTruncatesFloat | bytemaker/conversions/aggregate_types.py:192-195 | 2.5 in a UInt8 field is converted with `int`, and both serialisers write 00000010. |
| Aggregate.ChunksCover | bytemaker/conversions/aggregate_types.py:426-441 | The array chunks concatenate back to the input exactly. |
| Aggregate.ChunkSizes | bytemaker/conversions/aggregate_types.py:426-441 | Every chunk is non-empty and at most `size` long, and all but the last are exactly `size`. |
| Aggregate.ChunkCount | bytemaker/aggregate_types.py:304-312 | There are ceil(n/size) chunks. |
| Aggregate.CastsUIntByValue | bytemaker/bittypes/bittype.py:55-65 | A small UInt of one width in a field of another UInt width is cast through its value to the same number in the declared width. |
| Aggregate.CastsOtherClassByValue | bytemaker/bittypes/bittype.py:55-65 | `UInt16(5)` in a `UInt8` field becomes `UInt8(5)`, and the record serialises to 00000101. |
| Aggregate.UIntGetter | bytemaker/bittypes/int.py:532-535 | A UInt holding i in its n bits reads back as the integer i. |
| Aggregate.CurrentFieldSerialised | bytemaker/conversions/aggregate_types.py:225-245 | A one-field record whose field casts to an instance serialises to that instance's bits. |
| Aggregate.TwoInstancesSerialised | bytemaker/conversions/aggregate_types.py:225-245 | A record of two instances of their declared types serialises to their bits in order. |
| Aggregate.SIntStoresTwos | bytemaker/bittypes/int.py:354-360 | A non-negative value in range is stored by a two's complement SInt as its plain binary digits. |
| Aggregate.BufferStoresList | bytemaker/bittypes/buffer.py:54-56 | A bit list given to a Buffer as its value is stored as it is. |
| Aggregate.BitTypeFieldsExample | test/aggregate_types_test.py:175-179 | `SInt32(382)` stores 0x0000017E in 32 bits, and `Buffer4([0, 1, 0, 0])` stores 0100. |
| Aggregate.BitTypeRecordExample | test/aggregate_types_test.py:175-188 | The record of those two instances serialises to 0x0000017E followed by 0100. |
| Aggregate.Chunks | bytemaker/conversions/aggregate_types.py:426-441 | No chunks exactly for no data. The first chunk is the first min(size, n) bytes. |
| Aggregate.ArrayChunks | bytemaker/conversions/aggregate_types.py:426-441 | A size of 0 raises ValueError. Otherwise the chunk loop gives exactly `Chunks`. |

## Left out

- Struct fast paths (`StructPackedBitType.value`, bittype.py 331-346) are not modelled. Only the decision `skip_struct_packing` is, plus the one `struct.pack('b')` result that shows the SInt8 finding.
- Float arithmetic is left out: `frac_to_bin` and `int(abs_num)`. A float input is modelled by its integral part and its fraction bits, and the getter by its sign, exponent and mantissa fields.
- BitTypes.GetterValue: the float the getter returns is taken as the exact value of its fields. Rounding for mantissas wider than a Python float's, values below its normal range, and the overflow of very large exponents are not modelled.
- The NaN branch of `to_binstring` is left out, because `num == float("NaN")` is never true in Python, so the branch is unreachable. A NaN input falls through to `int(abs_num)` (float.py:141), which raises ValueError. NaN is not a value of `FloatLayout.FloatInput`, so FloatLayout.ToBinstring states nothing about it.
- Python and ctypes values inside aggregates (pytypes and ctypes conversions) are not modelled. They appear through `Env.native`, a parameter that gives their bits.
- Aggregate.Cast: casts into native (Python or ctypes) unit types and into records are not modelled. They raise TypeError here, because the native conversions are not part of this model.
- Aggregate.Cast: a native instance (held here only as its bits) handed to a BitType field is treated as an object `py_type` cannot convert, and raises ValueError. The model does not keep the Python object the source would convert. The same holds for a record or an iterable of items.
- Aggregate.SourceOf: another BitType instance lends big endianness. Instances inside aggregates do not keep their endianness, and the stored bits do not depend on it.
- Aggregate.LegacyCast: the legacy serialiser takes its unit classes from bytemaker/ytypes.py. The model stands in the BitType class of the same width for each YType. Only the YType constructor's last step is modelled: `value_type(value)`, and the TypeError it raises when that fails. YType's own storage and validation are not.
- Aggregate.LegacyCast: the branches the YType constructor tries before `value_type(value)` (ytypes.py:118-131) are not modelled. These are another YType, `Bits`, bytes, any other `Bits` constructor argument, and byte-convertible objects. So an integer or a bit list in a YType of another value type goes through `from_bits` in the source, but is converted with the value type here. A YType or other non-plain value raises TypeError here.
- Utils.TwosComplementBitLength: the source computes `ceil(log2(abs_val + 1))` and `int(log2(abs_val))` (utils.py:308, 310) in floating point. The model takes `log2` as exact, so its width is the exact bit length. From 2^53 up, `abs_val + 1` is rounded to a double first, and the source's width can be one short: `twos_complement_bit_length(2**53)` is 54 there and 55 here.
- Utils.TwosComplementBitLengthLeast: "no smaller width holds n" is a fact about the exact model. The source's width can be one short from 2^53 up, as the line above says.
- Utils.PowerWidths: "2^k needs k+2 bits" is a fact about the exact model. The source gives k+1 for k >= 53.
- IntCodec.MinBitLength: each `ceil(log2(...))` of `min_bit_length` (int.py:149, 164, 171, 176) is taken as exact. From 2^53 up, the source's width can be one short; unsigned 2^53 gets 53 bits there and 54 here.
- IntCodec.MinBitLengthIsLeast: the least width is exact in the model. The source's width can be one short from 2^53 up.
- IntCodec.ToBitstring: the default width is the exact minimum width. The source's can be one short from 2^53 up, so `to_bitstring(2**53)` without a width raises ValueError at int.py:202-203 there and succeeds here.
- IntCodec.ToBitstringDefaultWidth: "encoding without a width succeeds" is a fact about the exact model. The source raises from 2^53 up where its rounded width is one short.
- BitVectors.FromInt: the default size is the exact `twos_complement_bit_length`. In the source it can be one short from 2^53 up: `from_int(2**53)` then passes the bit-length check, writes 54 bits and reads back as -2^53, which BitVectors.OneShortWidthMisreads states for that width.
- BitTypes.PyType: `float(n)` of an integer is taken as exact. Rounding above 2^53 and the overflow of very large integers are not modelled, because floats are modelled by their integral part and fraction bits.
- Search.Replace / Search.ReplaceRest: with an empty pattern and no count, the source's loop never ends (bitvector_with_bitarray_speedup.py:1408-1419), since `find` keeps returning the same index. A total function cannot model the hang, so both require a non-empty pattern or a count.
- BitStrings.ToBase: the round trip is proved for bases 2, 8 and 16 only. `frombase` passes those bases to `frombin`, `fromoct` and `fromhex`, which are modelled. For the other bases (4, 32, 64) it calls bitarray's `base2ba`, which is not part of this model.
- Aggregate.LegacyTryCast: the cast of a value that is already an instance is taken as the identity.
- Dataclass identity is structural here (same field types), not nominal.
- The byte-oriented field loop of `from_bytes_aggregate`, `reverse_endianness` on aggregates, and its non-array length check are not modelled. Only the array chunking is.
- `count_bytes_in_unit_type` is not modelled, because no core path uses it.
- Multi-character `str` items inside iterables are left out.
- The endianness of instances inside aggregates is left out: aggregates serialise `bits`, which ignores it.
- Python cross-type equality, text codecs (`from_chararray`, `to_chararray`), class registries and `specialize` naming are not modelled.
- `__str__`, `__repr__` and `__format__` are not modelled.
- bitarray's own internals (buffer sharing, `__sizeof__`, endianness of the C object) are not modelled.
- Python `int()` leniency (whitespace, signs, underscores inside `int(...)`) is not modelled. Only digit strings are.
- The BitVector operators (`+`, `*`, `&`, `|`, `^`, `<<`, `>>`, `~`, comparisons) are not modelled, because they delegate directly to bitarray.
- `count` and `clear` are not modelled, because they delegate to bitarray without bytemaker logic.
- The tries are immutable values rebuilt along the inserted path, not node objects updated in place. The node structure and markers are the same, but object identity is not modelled.
- bytemaker/bittypes_new.py is not modelled separately. It duplicates the bittype, int, float and buffer classes of bytemaker/bittypes/, which are modelled.

## Findings

| source | as written | input that shows it | evidently intended | confidence | as-written member | corrected member |
|---|---|---|---|---|---|---|
| bytemaker/bitvector/bitvector_with_bitarray_speedup.py:1655-1666 | `to_int` pads only signed vectors with a leading 1, so other lengths that are not a multiple of 8 are packed from the left | 0100000000 (256) reads as 16384 | pad with the sign bit to whole bytes, then read | not executed | BitVectors.ToIntAsWrittenMisaligned | BitVectors.ToIntBigEndian |
| bytemaker/bits.py:106-137 | without `expand`, `binop` pairs the operands from the left | 10 & 1 gives 1 | operands aligned at their least significant bit | not executed | LegacyBits.CombineFromTheLeft | LegacyBits.CombineAlignedPlain |
| bytemaker/bits.py:361-365 | `shrinkequals` compares the shared leading bits | 01 against 1 is not equal | leading zeros of the longer operand are ignored | not executed | LegacyBits.ShrinkEqualsAsWrittenPrefix | LegacyBits.ShrinkEqualsStripped |
| bytemaker/bits.py:169-173 | `rshift(0)` slices `bitlist[:-0]`, which is empty | 101 >> 0 gives no bits | the bits unchanged | not executed | LegacyBits.RShiftZero | LegacyBits.RShiftValue |
| bytemaker/bits.py:288-319 | a bare 0/1 string never assigns `binstring` | "101" raises UnboundLocalError | read bit by bit | not executed | LegacyBits.BareBinaryString | LegacyBits.BareBinaryString |
| bytemaker/bits.py:288-319 | "0o"/"0x" digits that are all zero become `int('', base)` | "0x00" raises | zero bits, 4 per digit | not executed | LegacyBits.AllZeroHexDigits | LegacyBits.PrefixedKeepsZeroDigits |
| bytemaker/bits.py:281-286 | `reversed(bytes)` is an iterator of byte values, not bytes | bytes 01 02 with reversal raise | the bytes reversed, 8 bits each | not executed | LegacyBits.FromBytesReversedRaises | LegacyBits.FromBytesRoundTrip |
| bytemaker/bittypes/float.py:124-135 | a negative biased exponent is written with a '-' that the string constructor drops as a separator | 0.125 with 2 exponent bits reads back as 2.0 | refuse (or encode as subnormal) an exponent out of range | not executed | FloatLayout.NegativeExponentMisread | FloatLayout.DecodeEncode |
| bytemaker/bittypes/int.py:537-538 | the `UInt` setter stores `bin(value)` unpadded and unchecked | UInt12 value 5 stores 3 bits | `num_bits` bits through the checked setter | not executed | BitTypes.UIntSetterUnpadded | BitTypes.UIntRoundTrip |
| bytemaker/bittypes/int.py:245-255 | sign-magnitude at width 1 zero-fills the magnitude to width 0, which leaves "0" | 0 at width 1 gives "00" | exactly L bits | not executed | IntCodec.SignMagnitudeOneBitZeroIsTwoBits | IntCodec.SignMagnitudeToBits |
| bytemaker/bittypes/int.py:441-447 | SInt8 decides struct packing from the global format, not the instance's | SInt8(-1) in ones' complement, global two's complement, packs 11111111 instead of 11111110 | decide by the instance's `int_format` | not executed | BitTypes.SInt8IgnoresInstanceFormat | BitTypes.SkipStructPackingAgrees |
| bytemaker/bits.py:235-257 | `padleft`/`padright` in place store the fill value without checking it | [1] padded to 2 with fill 2 stores [2, 1] | reject a fill other than 0 or 1, as the constructor and `__setitem__` do | not executed | LegacyBitsObject.PadLeftStoresNonBit | LegacyBitsObject.Bits.PadLeft |
