/**
 * The bit trie used for prefix and suffix matching, and the two's-complement helpers
 * of `bytemaker/utils.py`.
 */
module Utils {
  import opened BitSeq
  import opened Wrappers

  // ---------------------------------------------------------------------------
  // Trie
  // ---------------------------------------------------------------------------

  /**
   * A trie node: at most one child per bit value and the two end markers.
   * The source's `children` dictionary only ever has the keys 0 and 1.
   */
  datatype Trie = Trie(zero: Option<Trie>, one: Option<Trie>, isEndOfSuffix: bool, isStartOfPrefix: bool)

  /** Which end marker an insertion sets. */
  datatype Marker = EndOfSuffix | StartOfPrefix

  function EmptyTrie(): Trie
  {
    Trie(None, None, false, false)
  }

  function Child(t: Trie, b: Bit): Option<Trie>
  {
    if b == 0 then t.zero else t.one
  }

  function WithChild(t: Trie, b: Bit, c: Trie): (r: Trie)
    ensures Child(r, b) == Some(c) && Child(r, 1 - b) == Child(t, 1 - b)
    ensures r.isEndOfSuffix == t.isEndOfSuffix && r.isStartOfPrefix == t.isStartOfPrefix
  {
    if b == 0 then t.(zero := Some(c)) else t.(one := Some(c))
  }

  predicate HasMarker(t: Trie, m: Marker)
  {
    match m
    case EndOfSuffix => t.isEndOfSuffix
    case StartOfPrefix => t.isStartOfPrefix
  }

  function SetMarker(t: Trie, m: Marker): (r: Trie)
    ensures HasMarker(r, m) && r.zero == t.zero && r.one == t.one
    ensures forall m' :: m' != m ==> (HasMarker(r, m') <==> HasMarker(t, m'))
  {
    match m
    case EndOfSuffix => t.(isEndOfSuffix := true)
    case StartOfPrefix => t.(isStartOfPrefix := true)
  }

  /** The node reached by following `path` from `t`, if every child on the way exists. */
  function Lookup(t: Trie, path: seq<Bit>): Option<Trie>
    decreases |path|
  {
    if path == [] then Some(t)
    else match Child(t, path[0])
      case None => None
      case Some(c) => Lookup(c, path[1..])
  }

  /** `path` leads to a node carrying marker `m`. */
  predicate Marked(t: Trie, path: seq<Bit>, m: Marker)
  {
    Lookup(t, path).Some? && HasMarker(Lookup(t, path).value, m)
  }

  /** One step of the walk: the node after `p + [b]` is the `b` child of the node after `p`. */
  lemma {:induction false} LookupStep(t: Trie, p: seq<Bit>, b: Bit)
    ensures Lookup(t, p + [b]) == if Lookup(t, p).None? then None else Child(Lookup(t, p).value, b)
    decreases |p|
  {
    if p == [] {
      assert [b][1..] == [];
    } else {
      assert (p + [b])[0] == p[0] && (p + [b])[1..] == p[1..] + [b];
      match Child(t, p[0])
      case None =>
      case Some(c) => LookupStep(c, p[1..], b);
    }
  }

  /** Every node on the way to an existing node exists. */
  lemma {:induction false} LookupPrefixClosed(t: Trie, p: seq<Bit>, q: seq<Bit>)
    requires Lookup(t, p + q).Some?
    ensures Lookup(t, p).Some?
    decreases |p|
  {
    if p != [] {
      assert (p + q)[0] == p[0] && (p + q)[1..] == p[1..] + q;
      LookupPrefixClosed(Child(t, p[0]).value, p[1..], q);
    }
  }

  /**
   * Insert `path`, creating each missing child (an existing child is kept) and marking the
   * last node with `m`: the body of the inner loop of both trie builders.
   */
  function Insert(t: Trie, path: seq<Bit>, m: Marker): (r: Trie)
    ensures Marked(r, path, m)
    decreases |path|
  {
    if path == [] then SetMarker(t, m)
    else
      var c := match Child(t, path[0]) case Some(c) => c case None => EmptyTrie();
      WithChild(t, path[0], Insert(c, path[1..], m))
  }

  /** After an insertion a node exists exactly where one existed before or on the inserted path. */
  lemma {:induction false} InsertNodes(t: Trie, path: seq<Bit>, m: Marker, p: seq<Bit>)
    ensures Lookup(Insert(t, path, m), p).Some? <==> Lookup(t, p).Some? || IsPrefix(p, path)
    decreases |path|
  {
    if p != [] && path != [] {
      var c := match Child(t, path[0]) case Some(c) => c case None => EmptyTrie();
      if p[0] == path[0] {
        InsertNodes(c, path[1..], m, p[1..]);
        EmptyTrieLookup(p[1..]);
        assert IsPrefix(p, path) <==> IsPrefix(p[1..], path[1..]) by {
          if |p| <= |path| {
            assert path[..|p|] == [path[0]] + path[1..][..|p| - 1];
            assert p == [p[0]] + p[1..];
          }
        }
      }
    }
  }

  /** After an insertion a marker is present exactly where it was before, or at the end of the inserted path. */
  lemma {:induction false} InsertMarkers(t: Trie, path: seq<Bit>, m: Marker, p: seq<Bit>, m': Marker)
    ensures Marked(Insert(t, path, m), p, m') <==> Marked(t, p, m') || (p == path && m' == m)
    decreases |path|
  {
    if p != [] && path != [] {
      var c := match Child(t, path[0]) case Some(c) => c case None => EmptyTrie();
      if p[0] == path[0] {
        InsertMarkers(c, path[1..], m, p[1..], m');
        EmptyTrieLookup(p[1..]);
        assert p == path <==> p[1..] == path[1..] by {
          if p[1..] == path[1..] {
            assert p == [p[0]] + p[1..] && path == [path[0]] + path[1..];
          }
        }
      }
    } else if p == [] && path != [] {
    } else if p != [] && path == [] {
    }
  }

  lemma {:induction false} EmptyTrieLookup(p: seq<Bit>)
    ensures Lookup(EmptyTrie(), p).Some? <==> p == []
    ensures forall m :: !Marked(EmptyTrie(), p, m)
  {
  }

  /**
   * `Trie.build_prefix_trie`: insert every candidate in order. Afterwards a node is marked as the
   * start of a prefix exactly at the candidates, and nothing is marked as the end of a suffix.
   */
  method BuildPrefixTrie(prefixes: seq<seq<Bit>>) returns (root: Trie)
    ensures forall p :: Marked(root, p, StartOfPrefix) <==> p in prefixes
    ensures forall p :: !Marked(root, p, EndOfSuffix)
  {
    root := EmptyTrie();
    var i := 0;
    while i < |prefixes|
      invariant 0 <= i <= |prefixes|
      invariant forall p :: Marked(root, p, StartOfPrefix) <==> p in prefixes[..i]
      invariant forall p :: !Marked(root, p, EndOfSuffix)
    {
      ghost var before := root;
      root := Insert(root, prefixes[i], StartOfPrefix);
      forall p
        ensures Marked(root, p, StartOfPrefix) <==> p in prefixes[..i + 1]
        ensures !Marked(root, p, EndOfSuffix)
      {
        InsertMarkers(before, prefixes[i], StartOfPrefix, p, StartOfPrefix);
        InsertMarkers(before, prefixes[i], StartOfPrefix, p, EndOfSuffix);
        assert prefixes[..i + 1] == prefixes[..i] + [prefixes[i]];
      }
      i := i + 1;
    }
    assert prefixes[..i] == prefixes;
  }

  /**
   * `Trie.build_suffix_trie`: insert every candidate reversed. Afterwards a node is marked as the
   * end of a suffix exactly at the reversed candidates, and nothing is marked as the start of a prefix.
   */
  method BuildSuffixTrie(suffixes: seq<seq<Bit>>) returns (root: Trie)
    ensures forall p :: Marked(root, p, EndOfSuffix) <==> Reverse(p) in suffixes
    ensures forall p :: !Marked(root, p, StartOfPrefix)
  {
    root := EmptyTrie();
    var i := 0;
    while i < |suffixes|
      invariant 0 <= i <= |suffixes|
      invariant forall p :: Marked(root, p, EndOfSuffix) <==> Reverse(p) in suffixes[..i]
      invariant forall p :: !Marked(root, p, StartOfPrefix)
    {
      ghost var before := root;
      root := Insert(root, Reverse(suffixes[i]), EndOfSuffix);
      forall p
        ensures Marked(root, p, EndOfSuffix) <==> Reverse(p) in suffixes[..i + 1]
        ensures !Marked(root, p, StartOfPrefix)
      {
        InsertMarkers(before, Reverse(suffixes[i]), EndOfSuffix, p, EndOfSuffix);
        InsertMarkers(before, Reverse(suffixes[i]), EndOfSuffix, p, StartOfPrefix);
        assert suffixes[..i + 1] == suffixes[..i] + [suffixes[i]];
        ReverseReverse(p);
        ReverseReverse(suffixes[i]);
      }
      i := i + 1;
    }
    assert suffixes[..i] == suffixes;
  }

  // ---------------------------------------------------------------------------
  // Two's complement helpers
  // ---------------------------------------------------------------------------

  /** The test `abs_val & (abs_val - 1) == 0` for a positive `a`: `a` is a power of two. */
  predicate IsPowerOfTwo(a: nat)
  {
    a == 1 || (a > 1 && a % 2 == 0 && IsPowerOfTwo(a / 2))
  }

  lemma {:induction false} PowerOfTwoIsPow2(a: nat)
    requires a > 0 && IsPowerOfTwo(a)
    ensures a == Pow2(BitLength(a) - 1)
  {
    if a > 1 {
      PowerOfTwoIsPow2(a / 2);
    }
  }

  /**
   * `twos_complement_bit_length` with its `ceil(log2(|n| + 1))` taken as the exact bit length:
   * the least two's-complement width of `n`, not the double-rounded width the source gets from 2^53 up.
   */
  function TwosComplementBitLength(n: int): (r: nat)
    ensures FitsTwos(n, r)
  {
    if n == 0 then 1
    else if n >= 0 || !IsPowerOfTwo(Abs(n)) then BitLength(Abs(n)) + 1
    else
      PowerOfTwoIsPow2(Abs(n));
      BitLength(Abs(n))
  }

  /** The signed range of a `k`-bit two's-complement field. */
  predicate FitsTwos(n: int, k: nat)
  {
    k >= 1 && -(Pow2(k - 1) as int) <= n < Pow2(k - 1)
  }

  /** `twos_complement_bit_length` is the least positive width whose two's-complement range holds `n`. */
  lemma TwosComplementBitLengthLeast(n: int)
    ensures FitsTwos(n, TwosComplementBitLength(n))
    ensures forall k: nat :: 1 <= k < TwosComplementBitLength(n) ==> !FitsTwos(n, k)
  {
    if n > 0 {
      PositiveWidthLeast(n);
    } else if n < 0 && IsPowerOfTwo(Abs(n)) {
      NegativePowerWidthLeast(n);
    } else if n < 0 {
      NegativeWidthLeast(n);
    }
  }

  lemma PositiveWidthLeast(n: int)
    requires n > 0
    ensures FitsTwos(n, TwosComplementBitLength(n))
    ensures forall k: nat :: 1 <= k < TwosComplementBitLength(n) ==> !FitsTwos(n, k)
  {
    var bl := BitLength(n);
    assert TwosComplementBitLength(n) == bl + 1;
    forall k: nat | 1 <= k < bl + 1
      ensures !FitsTwos(n, k)
    {
      Pow2Monotone(k - 1, bl - 1);
    }
  }

  lemma NegativeWidthLeast(n: int)
    requires n < 0 && !IsPowerOfTwo(Abs(n))
    ensures FitsTwos(n, TwosComplementBitLength(n))
    ensures forall k: nat :: 1 <= k < TwosComplementBitLength(n) ==> !FitsTwos(n, k)
  {
    var a := Abs(n);
    var bl := BitLength(a);
    assert TwosComplementBitLength(n) == bl + 1;
    PowerOfTwoFromPow2(bl - 1);
    assert a != Pow2(bl - 1);
    forall k: nat | 1 <= k < bl + 1
      ensures !FitsTwos(n, k)
    {
      Pow2Monotone(k - 1, bl - 1);
    }
  }

  lemma NegativePowerWidthLeast(n: int)
    requires n < 0 && IsPowerOfTwo(Abs(n))
    ensures FitsTwos(n, TwosComplementBitLength(n))
    ensures forall k: nat :: 1 <= k < TwosComplementBitLength(n) ==> !FitsTwos(n, k)
  {
    var a := Abs(n);
    var bl := BitLength(a);
    assert TwosComplementBitLength(n) == bl;
    PowerOfTwoIsPow2(a);
    NegativePowerFits(n, bl);
  }

  lemma NegativePowerFits(n: int, w: nat)
    requires w >= 1 && n == -(Pow2(w - 1) as int)
    ensures FitsTwos(n, w)
    ensures forall k: nat :: 1 <= k < w ==> !FitsTwos(n, k)
  {
    forall k: nat | 1 <= k < w
      ensures !FitsTwos(n, k)
    {
      Pow2Monotone(k - 1, w - 2);
      assert Pow2(w - 1) == 2 * Pow2(w - 2);
    }
  }

  /** The widths asserted in `test/utils_test.py`: 0 needs 1 bit, 1 needs 2, -1 needs 1 and -2 needs 2. */
  lemma TwosComplementBitLengthSmall()
    ensures TwosComplementBitLength(0) == 1 && TwosComplementBitLength(1) == 2
    ensures TwosComplementBitLength(-1) == 1 && TwosComplementBitLength(-2) == 2
  {
    assert BitLength(2) == 2;
  }

  /** The extremes asserted in `test/utils_test.py`: 2^7 needs 9 bits but -2^7 only 8; 2^16 needs 18 but -2^16 only 17. */
  lemma TwosComplementBitLengthPowers()
    ensures TwosComplementBitLength(128) == 9 && TwosComplementBitLength(-128) == 8
    ensures TwosComplementBitLength(65536) == 18 && TwosComplementBitLength(-65536) == 17
  {
    Pow2Values();
    PowerWidths(7);
    PowerWidths(16);
  }

  lemma Pow2Values()
    ensures Pow2(7) == 128 && Pow2(16) == 65536
  {
    assert Pow2(4) == 16;
    Pow2Add(4, 3);
    Pow2Add(4, 4);
    Pow2Add(8, 8);
  }

  /** In the exact model, 2^k needs k + 2 bits and -2^k only k + 1. */
  lemma PowerWidths(k: nat)
    ensures TwosComplementBitLength(Pow2(k)) == k + 2
    ensures TwosComplementBitLength(-(Pow2(k) as int)) == k + 1
  {
    var a := Pow2(k);
    BitLengthPow2(k);
    PowerOfTwoFromPow2(k);
    assert Abs(a) == a && Abs(-(a as int)) == a;
    assert TwosComplementBitLength(a) == BitLength(a) + 1;
    assert TwosComplementBitLength(-(a as int)) == BitLength(a);
  }

  lemma {:induction false} BitLengthPow2(k: nat)
    ensures BitLength(Pow2(k)) == k + 1
  {
    if k > 0 {
      BitLengthPow2(k - 1);
    }
  }

  lemma {:induction false} PowerOfTwoFromPow2(k: nat)
    ensures IsPowerOfTwo(Pow2(k))
  {
    if k > 0 {
      PowerOfTwoFromPow2(k - 1);
    }
  }

  /**
   * `twos_complement(number, n_bits)`: a negative number is first shifted by 2^n_bits, then written
   * in binary zero-padded to `n_bits` characters (a still negative number keeps its '-' sign).
   */
  function TwosComplement(number: int, nBits: nat): (r: string)
    ensures |r| >= nBits
    ensures (|r| > 0 && r[0] == '-') <==> number < -(Pow2(nBits) as int)
  {
    var x := if number < 0 then Pow2(nBits) + number else number;
    if x >= 0 then BitsToStr(ZeroFill(BinDigits(x), nBits))
    else "-" + BitsToStr(ZeroFill(BinDigits(-x), nBits - 1))
  }

  /** Inside -2^w <= n < 2^w the string has exactly `w` binary digits: those of n mod 2^w. */
  lemma TwosComplementDigits(number: int, nBits: nat)
    requires nBits >= 1 && -(Pow2(nBits) as int) <= number < Pow2(nBits)
    ensures TwosComplement(number, nBits) == BitsToStr(NatToBits(number % Pow2(nBits), nBits))
    ensures |TwosComplement(number, nBits)| == nBits
  {
    var x := if number < 0 then Pow2(nBits) + number else number;
    DivModUnique(number, Pow2(nBits), if number < 0 then -1 else 0, x);
    ZeroFillDigits(x, nBits);
  }
}
