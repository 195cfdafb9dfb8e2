/**
 * Bits, bytes and the arithmetic readings of a bit sequence shared by every part of the model.
 * A bit sequence is most-significant bit first, as in every container of the library.
 */
module BitSeq {

  type Bit = x: int | 0 <= x <= 1
  type Byte = x: int | 0 <= x < 256

  function Pow2(n: nat): (r: nat)
    ensures r >= 1
  {
    if n == 0 then 1 else 2 * Pow2(n - 1)
  }

  lemma {:induction false} Pow2Add(a: nat, b: nat)
    ensures Pow2(a + b) == Pow2(a) * Pow2(b)
  {
    if b > 0 {
      Pow2Add(a, b - 1);
      assert Pow2(a + b) == 2 * Pow2(a + b - 1);
    }
  }

  lemma {:induction false} Pow2Monotone(a: nat, b: nat)
    requires a <= b
    ensures Pow2(a) <= Pow2(b)
  {
    if a < b {
      Pow2Monotone(a, b - 1);
    }
  }

  function Abs(n: int): nat
  {
    if n < 0 then -n else n
  }

  /** `n` copies of the bit `b`. */
  function Repeat(b: Bit, n: nat): (r: seq<Bit>)
    ensures |r| == n && forall i :: 0 <= i < n ==> r[i] == b
  {
    seq(n, _ => b)
  }

  lemma RepeatConcat(b: Bit, k: nat, m: nat)
    ensures Repeat(b, k) + Repeat(b, m) == Repeat(b, k + m)
  {
  }

  /** The unsigned value of a most-significant-first bit sequence (Python `int(s, 2)`). */
  function Unsigned(s: seq<Bit>): (r: nat)
    ensures r < Pow2(|s|)
  {
    if |s| == 0 then 0 else 2 * Unsigned(s[..|s| - 1]) + s[|s| - 1]
  }

  lemma {:induction false} UnsignedAppend(a: seq<Bit>, b: seq<Bit>)
    ensures Unsigned(a + b) == Unsigned(a) * Pow2(|b|) + Unsigned(b)
  {
    if |b| == 0 {
      assert a + b == a;
    } else {
      var b' := b[..|b| - 1];
      var last := b[|b| - 1];
      assert (a + b)[..|a + b| - 1] == a + b';
      assert (a + b)[|a + b| - 1] == last;
      assert Unsigned(a + b) == 2 * Unsigned(a + b') + last;
      UnsignedAppend(a, b');
      assert Unsigned(b) == 2 * Unsigned(b') + last;
      assert Pow2(|b|) == 2 * Pow2(|b'|);
      DoubleShift(Unsigned(a), Pow2(|b'|), Unsigned(b'), last);
    }
  }

  lemma DoubleShift(x: int, p: int, u: int, c: int)
    ensures 2 * (x * p + u) + c == x * (2 * p) + (2 * u + c)
  {
  }

  /** The unsigned value of the leading bit followed by the rest. */
  lemma UnsignedHead(s: seq<Bit>)
    requires |s| > 0
    ensures Unsigned(s) == s[0] * Pow2(|s| - 1) + Unsigned(s[1..])
  {
    var head, rest := [s[0]], s[1..];
    assert s == head + rest;
    UnsignedAppend(head, rest);
    UnsignedSingle(s[0]);
    assert Unsigned(s) == Unsigned(head) * Pow2(|rest|) + Unsigned(rest);
  }

  lemma UnsignedSingle(b: Bit)
    ensures Unsigned([b]) == b
  {
    assert [b][..0] == [];
  }

  lemma {:induction false} UnsignedRepeat(b: Bit, n: nat)
    ensures Unsigned(Repeat(b, n)) == b * (Pow2(n) - 1)
  {
    if n > 0 {
      assert Repeat(b, n)[..n - 1] == Repeat(b, n - 1);
      UnsignedRepeat(b, n - 1);
    }
  }

  /** Leading zeros do not change the unsigned value. */
  lemma UnsignedLeadingZeros(k: nat, s: seq<Bit>)
    ensures Unsigned(Repeat(0, k) + s) == Unsigned(s)
  {
    UnsignedAppend(Repeat(0, k), s);
    UnsignedRepeat(0, k);
  }

  /** The low `w` bits of `n`, most significant first (the `(n >> i) & 1` loop of the library). */
  function NatToBits(n: nat, w: nat): (r: seq<Bit>)
    ensures |r| == w
  {
    if w == 0 then [] else NatToBits(n / 2, w - 1) + [n % 2]
  }

  lemma {:induction false} UnsignedNatToBits(n: nat, w: nat)
    ensures Unsigned(NatToBits(n, w)) == n % Pow2(w)
  {
    if w > 0 {
      var r := NatToBits(n, w);
      var h, c, p := n / 2, n % 2, Pow2(w - 1);
      assert r[..w - 1] == NatToBits(h, w - 1);
      UnsignedNatToBits(h, w - 1);
      assert Unsigned(r) == 2 * (h % p) + c;
      var q, m := h / p, h % p;
      DivModParts(h, p);
      DoubleShift(q, p, m, c);
      assert n == (2 * p) * q + (2 * m + c) by {
        assert q * (2 * p) == (2 * p) * q;
        assert p * q == q * p;
      }
      DivModUnique(n, 2 * p, q, 2 * m + c);
    }
  }

  lemma DivModUnique(n: int, d: int, q: int, r: int)
    requires d > 0 && 0 <= r < d && n == d * q + r
    ensures n % d == r && n / d == q
  {
    var q0, r0 := n / d, n % d;
    assert n == d * q0 + r0;
    if q > q0 {
      MulAtLeast(d, q - q0);
    } else if q < q0 {
      MulAtLeast(d, q0 - q);
    }
  }

  lemma DivModParts(n: int, d: int)
    requires d > 0
    ensures n == d * (n / d) + n % d && 0 <= n % d < d
  {
  }

  lemma MulAtLeast(d: int, k: int)
    requires d > 0 && k >= 1
    ensures d * k >= d
  {
  }

  lemma {:induction false} NatToBitsOfUnsigned(s: seq<Bit>)
    ensures NatToBits(Unsigned(s), |s|) == s
  {
    if |s| > 0 {
      var init := s[..|s| - 1];
      var u := Unsigned(s);
      assert u == 2 * Unsigned(init) + s[|s| - 1];
      DivModUnique(u, 2, Unsigned(init), s[|s| - 1]);
      NatToBitsOfUnsigned(init);
      assert s == init + [s[|s| - 1]];
    }
  }

  /** Python's `int.bit_length()` of a non-negative integer. */
  function BitLength(n: nat): (r: nat)
    ensures n < Pow2(r)
    ensures n > 0 ==> r > 0 && Pow2(r - 1) <= n
    ensures n == 0 <==> r == 0
  {
    if n == 0 then 0 else 1 + BitLength(n / 2)
  }

  /** `BitLength` is the least width whose range holds `n`. */
  lemma {:induction false} BitLengthLeast(n: nat, k: nat)
    requires n < Pow2(k)
    ensures BitLength(n) <= k
  {
    if n > 0 {
      assert k > 0;
      BitLengthLeast(n / 2, k - 1);
    }
  }

  /** The two's-complement reading of a bit sequence: a leading 1 subtracts 2^n. */
  function TwosValue(s: seq<Bit>): (r: int)
    ensures |s| > 0 ==> -(Pow2(|s| - 1) as int) <= r < Pow2(|s| - 1)
  {
    if |s| == 0 then 0
    else
      UnsignedHead(s);
      if s[0] == 1 then Unsigned(s) - Pow2(|s|) else Unsigned(s)
  }

  /** Every bit flipped. */
  function Complement(s: seq<Bit>): (r: seq<Bit>)
    ensures |r| == |s| && forall i :: 0 <= i < |s| ==> r[i] == 1 - s[i]
  {
    seq(|s|, i requires 0 <= i < |s| => 1 - s[i])
  }

  lemma {:induction false} UnsignedComplement(s: seq<Bit>)
    ensures Unsigned(Complement(s)) == Pow2(|s|) - 1 - Unsigned(s)
  {
    if |s| > 0 {
      var init := s[..|s| - 1];
      assert Complement(s)[..|s| - 1] == Complement(init);
      UnsignedComplement(init);
    }
  }

  /** `sub` occurs in `s` at position `i`. */
  predicate OccursAt(s: seq<Bit>, sub: seq<Bit>, i: int)
  {
    0 <= i && i + |sub| <= |s| && s[i..i + |sub|] == sub
  }

  predicate IsPrefix(p: seq<Bit>, s: seq<Bit>)
  {
    |p| <= |s| && s[..|p|] == p
  }

  predicate IsSuffix(p: seq<Bit>, s: seq<Bit>)
  {
    |p| <= |s| && s[|s| - |p|..] == p
  }

  /** The bits in reverse order. */
  function Reverse(s: seq<Bit>): (r: seq<Bit>)
    ensures |r| == |s| && forall i :: 0 <= i < |s| ==> r[i] == s[|s| - 1 - i]
  {
    seq(|s|, i requires 0 <= i < |s| => s[|s| - 1 - i])
  }

  lemma ReverseReverse(s: seq<Bit>)
    ensures Reverse(Reverse(s)) == s
  {
  }

  /** Widening the low-bit rendering of a small enough number only adds leading zeros. */
  lemma NatToBitsWiden(x: nat, k: nat, w: nat)
    requires k <= w && x < Pow2(k)
    ensures NatToBits(x, w) == Repeat(0, w - k) + NatToBits(x, k)
  {
    var s := Repeat(0, w - k) + NatToBits(x, k);
    UnsignedLeadingZeros(w - k, NatToBits(x, k));
    UnsignedNatToBits(x, k);
    DivModUnique(x, Pow2(k), 0, x);
    NatToBitsOfUnsigned(s);
  }

  function BitChar(b: Bit): char
  {
    if b == 0 then '0' else '1'
  }

  /** The text `0`/`1` rendering of a bit sequence. */
  function BitsToStr(s: seq<Bit>): (r: string)
    ensures |r| == |s| && forall i :: 0 <= i < |s| ==> r[i] == BitChar(s[i])
  {
    seq(|s|, i requires 0 <= i < |s| => BitChar(s[i]))
  }

  /** Python `bin(n)[2:]` for a non-negative `n`: no leading zeros, and "0" for zero. */
  function BinDigits(n: nat): (r: seq<Bit>)
    ensures |r| >= 1 && Unsigned(r) == n
    ensures n > 0 ==> r[0] == 1
  {
    UnsignedNatToBits(n, if n == 0 then 1 else BitLength(n));
    DivModUnique(n, Pow2(if n == 0 then 1 else BitLength(n)), 0, n);
    if n > 0 then
      var r := NatToBits(n, BitLength(n));
      UnsignedHead(r);
      r
    else [0]
  }

  /** Python `str.zfill`/zero-padded format: left-fill with zeros up to width `w`. */
  function ZeroFill(s: seq<Bit>, w: int): (r: seq<Bit>)
    ensures |s| >= w ==> r == s
    ensures |s| < w ==> r == Repeat(0, w - |s|) + s
  {
    if |s| >= w then s else Repeat(0, w - |s|) + s
  }

  /** Zero-filling the digits of `n` to a width that holds it gives the `w` low bits of `n`. */
  lemma ZeroFillDigits(n: nat, w: nat)
    requires w >= 1 && n < Pow2(w)
    ensures ZeroFill(BinDigits(n), w) == NatToBits(n, w)
  {
    var d := BinDigits(n);
    var k := |d|;
    NatToBitsOfUnsigned(d);
    assert k <= w by {
      if n > 0 {
        BitLengthLeast(n, w);
      }
    }
    NatToBitsWiden(n, k, w);
  }
}
