/**
 * The mutable side of the older `Bits` class (bytemaker/bits.py): the Python list behind a `Bits`
 * object, which a second `Bits` built from the first shares, and the operations that change it
 * (`__setitem__`, `append`, `padleft`, `padright`, `pop`), with `join`.
 */
module LegacyBitsObject {
  import opened BitSeq
  import opened Wrappers
  import Search
  import BitVectors

  // ---------------------------------------------------------------------------
  // Python list indexing
  // ---------------------------------------------------------------------------

  /** Python's list index rule: `-n <= index < n` is valid, a negative index counting from the end. */
  function ListIndex(index: int, n: nat): (r: Option<nat>)
    ensures r.Some? <==> -(n as int) <= index < n
    ensures r.Some? ==> r.value < n && r.value % n == index % n
  {
    if 0 <= index < n then Some(index)
    else if -(n as int) <= index < 0 then
      DivModParts(index, n);
      assert index + n == n * (index / n + 1) + index % n;
      DivModUnique(index + n, n, index / n + 1, index % n);
      Some(index + n)
    else None
  }

  /** `list.pop(index)`: the bit at the position and the rest, or `IndexError`. */
  function PopBit(s: seq<Bit>, index: int): (r: Result<(Bit, seq<Bit>)>)
    ensures r.Err? <==> !(-|s| <= index < |s|)
    ensures r.Err? ==> r.error == IndexError
    ensures r.Ok? ==> r.value.0 == s[ListIndex(index, |s|).value] && |r.value.1| == |s| - 1
  {
    match ListIndex(index, |s|)
    case None => Err(IndexError)
    case Some(j) => Ok((s[j], BitVectors.RemoveAt(s, j)))
  }

  /** A pop takes out exactly one bit: putting it back where it was restores the list. */
  lemma PopBitRestores(s: seq<Bit>, index: int)
    ensures PopBit(s, index).Ok? ==>
      var (b, rest) := PopBit(s, index).value;
      BitVectors.InsertAt(rest, ListIndex(index, |s|).value, b) == s
  {
    if -|s| <= index < |s| {
      BitVectors.InsertRemoved(s, ListIndex(index, |s|).value);
    }
  }

  /** The default `pop()` takes the last bit. */
  lemma PopLast(s: seq<Bit>)
    requires |s| > 0
    ensures PopBit(s, -1) == Ok((s[|s| - 1], s[..|s| - 1]))
  {
    assert BitVectors.RemoveAt(s, |s| - 1) == s[..|s| - 1];
  }

  /**
   * `__setitem__`: a value other than 0 or 1 raises `ValueError`, then a bad index `IndexError`;
   * otherwise exactly the addressed bit changes.
   */
  function SetBit(s: seq<Bit>, index: int, value: int): (r: Result<seq<Bit>>)
    ensures r == Err(ValueError) <==> !(0 <= value <= 1)
    ensures r == Err(IndexError) <==> 0 <= value <= 1 && !(-|s| <= index < |s|)
    ensures r.Ok? ==>
      var j := ListIndex(index, |s|).value;
      |r.value| == |s| && r.value[j] == value && forall k :: 0 <= k < |s| && k != j ==> r.value[k] == s[k]
  {
    if !(0 <= value <= 1) then Err(ValueError)
    else
      match ListIndex(index, |s|)
      case None => Err(IndexError)
      case Some(j) => Ok(s[j := value])
  }

  // ---------------------------------------------------------------------------
  // Padding
  // ---------------------------------------------------------------------------

  /**
   * The list `padleft` builds as written, on Python integers: `[padvalue] * n + bitlist`, where
   * nothing checks `padvalue`; a target no longer than the list leaves it as it is.
   */
  function PaddedLeftAsWritten(items: seq<int>, upToSize: int, padvalue: int): (r: seq<int>)
    ensures |r| == Search.Max(|items|, upToSize)
    ensures r[|r| - |items|..] == items
    ensures forall i :: 0 <= i < |r| - |items| ==> r[i] == padvalue
  {
    if upToSize <= |items| then items else seq(upToSize - |items|, _ => padvalue) + items
  }

  /**
   * As written, an in-place `padleft` with fill 2 leaves a 2 in the list, a value that `Bits(...)`
   * and `__setitem__` refuse.
   */
  lemma PadLeftStoresNonBit()
    ensures PaddedLeftAsWritten([1], 2, 2) == [2, 1]
    ensures SetBit([1], 0, 2) == Err(ValueError)
  {
  }

  /** A pad is carried out when it adds nothing, or adds copies of a fill that is 0 or 1. */
  predicate PadAccepted(n: nat, upToSize: int, padvalue: int)
  {
    upToSize == n || (upToSize > n && 0 <= padvalue <= 1)
  }

  /** The fill as a bit (any bit when nothing is added). */
  function Fill(padvalue: int): Bit
  {
    if 0 <= padvalue <= 1 then padvalue else 0
  }

  /** With a 0/1 fill, the corrected `padleft` builds the same list as the code as written. */
  lemma PadLeftAgrees(items: seq<Bit>, upToSize: int, padvalue: Bit)
    ensures Search.LPad(items, upToSize, padvalue) == PaddedLeftAsWritten(items, upToSize, padvalue)
  {
    var r := PaddedLeftAsWritten(items, upToSize, padvalue);
    var p := Search.LPad(items, upToSize, padvalue);
    assert |p| == |r|;
    forall i | 0 <= i < |r|
      ensures p[i] == r[i]
    {
      if i >= |r| - |items| {
        assert r[i] == r[|r| - |items|..][i - (|r| - |items|)];
      }
    }
  }

  // ---------------------------------------------------------------------------
  // The list and the object
  // ---------------------------------------------------------------------------

  /** The Python list of 0/1 integers behind a `Bits` object. */
  class BitList {
    var items: seq<Bit>

    constructor(items: seq<Bit>)
      ensures this.items == items
    {
      this.items := items;
    }

    /** `list.pop(index)`: on `IndexError` the list is unchanged. */
    method Pop(index: int) returns (r: Result<Bit>)
      modifies this
      ensures PopBit(old(items), index).Err? ==> r == Err(IndexError) && items == old(items)
      ensures PopBit(old(items), index).Ok? ==>
        r == Ok(PopBit(old(items), index).value.0) && items == PopBit(old(items), index).value.1
    {
      if !(-|items| <= index < |items|) {
        return Err(IndexError);
      }
      var j := if index < 0 then index + |items| else index;
      r := Ok(items[j]);
      items := items[..j] + items[j + 1..];
    }
  }

  /** A `Bits` object: a reference to a list, which another `Bits` may share. */
  class Bits {
    var list: BitList

    /** `Bits(iterable)`: a fresh list holding the bits. */
    constructor(source: seq<Bit>)
      ensures fresh(list) && list.items == source
    {
      list := new BitList(source);
    }

    /** `Bits(other, deep=deep)`: shares `other`'s list unless `deep`, which copies it. */
    constructor Copy(other: Bits, deep: bool)
      ensures deep ==> fresh(list) && list.items == other.list.items
      ensures !deep ==> list == other.list
    {
      if deep {
        list := new BitList(other.list.items);
      } else {
        list := other.list;
      }
    }

    /** `self[index] = value`, through the shared list. */
    method SetItem(index: int, value: int) returns (r: Result<()>)
      modifies list
      ensures SetBit(old(list.items), index, value).Err? ==>
        r == Err(SetBit(old(list.items), index, value).error) && list.items == old(list.items)
      ensures SetBit(old(list.items), index, value).Ok? ==>
        r == Ok(()) && list.items == SetBit(old(list.items), index, value).value
    {
      if !(0 <= value <= 1) {
        return Err(ValueError);
      }
      if !(-|list.items| <= index < |list.items|) {
        return Err(IndexError);
      }
      var j := if index < 0 then index + |list.items| else index;
      list.items := list.items[j := value];
      r := Ok(());
    }

    /**
     * `append(value, inplace)`: a value other than 0 or 1 raises `ValueError`; in place the shared
     * list grows and the result is this object, otherwise a new object holds the longer list.
     */
    method Append(value: int, inplace: bool) returns (r: Result<Bits>)
      modifies list
      ensures !(0 <= value <= 1) ==> r == Err(ValueError) && list.items == old(list.items)
      ensures 0 <= value <= 1 && inplace ==> r == Ok(this) && list.items == old(list.items) + [value]
      ensures 0 <= value <= 1 && !inplace ==>
        r.Ok? && fresh(r.value) && fresh(r.value.list)
        && r.value.list.items == old(list.items) + [value] && list.items == old(list.items)
    {
      if !(0 <= value <= 1) {
        return Err(ValueError);
      }
      if inplace {
        list.items := list.items + [value];
        return Ok(this);
      }
      var b := new Bits(list.items + [value]);
      return Ok(b);
    }

    /**
     * `padleft(up_to_size, padvalue, inplace)`: a longer object is returned as it is; a fill that
     * is not 0 or 1 raises `AssertionError` (as the new object's constructor does out of place);
     * otherwise in place the object gets a new list (no longer shared), and out of place a new
     * object.
     */
    method PadLeft(upToSize: int, padvalue: int, inplace: bool) returns (r: Result<Bits>)
      modifies this
      ensures upToSize < |old(list.items)| ==> r == Ok(this) && list == old(list)
      ensures upToSize > |old(list.items)| && !(0 <= padvalue <= 1) ==> r == Err(AssertionError) && list == old(list)
      ensures PadAccepted(|old(list.items)|, upToSize, padvalue) && inplace ==>
        r == Ok(this) && fresh(list) && list.items == Search.LPad(old(list.items), upToSize, Fill(padvalue))
      ensures PadAccepted(|old(list.items)|, upToSize, padvalue) && !inplace ==>
        r.Ok? && fresh(r.value) && fresh(r.value.list)
        && r.value.list.items == Search.LPad(old(list.items), upToSize, Fill(padvalue)) && list == old(list)
    {
      var numBitsToAdd := upToSize - |list.items|;
      if numBitsToAdd < 0 {
        return Ok(this);
      }
      if numBitsToAdd > 0 && !(0 <= padvalue <= 1) {
        return Err(AssertionError);
      }
      var bitsToAdd := Repeat(Fill(padvalue), numBitsToAdd);
      if inplace {
        list := new BitList(bitsToAdd + list.items);
        return Ok(this);
      }
      var b := new Bits(bitsToAdd + list.items);
      r := Ok(b);
    }

    /** `padright(up_to_size, padvalue, inplace)`: as `padleft`, the fill going on the right. */
    method PadRight(upToSize: int, padvalue: int, inplace: bool) returns (r: Result<Bits>)
      modifies this
      ensures upToSize < |old(list.items)| ==> r == Ok(this) && list == old(list)
      ensures upToSize > |old(list.items)| && !(0 <= padvalue <= 1) ==> r == Err(AssertionError) && list == old(list)
      ensures PadAccepted(|old(list.items)|, upToSize, padvalue) && inplace ==>
        r == Ok(this) && fresh(list) && list.items == Search.RPad(old(list.items), upToSize, Fill(padvalue))
      ensures PadAccepted(|old(list.items)|, upToSize, padvalue) && !inplace ==>
        r.Ok? && fresh(r.value) && fresh(r.value.list)
        && r.value.list.items == Search.RPad(old(list.items), upToSize, Fill(padvalue)) && list == old(list)
    {
      var numBitsToAdd := upToSize - |list.items|;
      if numBitsToAdd < 0 {
        return Ok(this);
      }
      if numBitsToAdd > 0 && !(0 <= padvalue <= 1) {
        return Err(AssertionError);
      }
      var bitsToAdd := Repeat(Fill(padvalue), numBitsToAdd);
      if inplace {
        list := new BitList(list.items + bitsToAdd);
        return Ok(this);
      }
      var b := new Bits(list.items + bitsToAdd);
      r := Ok(b);
    }

    /** `pop(index, inplace)`: out of place the pop acts on a deep copy, so the list is left alone. */
    method Pop(index: int, inplace: bool) returns (r: Result<Bit>)
      modifies list
      ensures PopBit(old(list.items), index).Err? ==> r == Err(IndexError) && list.items == old(list.items)
      ensures PopBit(old(list.items), index).Ok? ==> r == Ok(PopBit(old(list.items), index).value.0)
      ensures PopBit(old(list.items), index).Ok? ==>
        list.items == if inplace then PopBit(old(list.items), index).value.1 else old(list.items)
    {
      var target := this;
      if !inplace {
        target := new Bits.Copy(this, true);
      }
      r := target.list.Pop(index);
    }
  }

  /**
   * `Bits(iterable)` from arbitrary integers: every element must be 0 or 1, else the constructor's
   * assertion fails.
   */
  method FromIterable(data: seq<int>) returns (r: Result<Bits>)
    ensures (forall i :: 0 <= i < |data| ==> 0 <= data[i] <= 1) <==> r.Ok?
    ensures r.Err? ==> r.error == AssertionError
    ensures r.Ok? ==> fresh(r.value) && fresh(r.value.list) && r.value.list.items == data
  {
    if forall i :: 0 <= i < |data| ==> 0 <= data[i] <= 1 {
      var bits: seq<Bit> := data;
      var b := new Bits(bits);
      return Ok(b);
    }
    return Err(AssertionError);
  }

  // ---------------------------------------------------------------------------
  // join
  // ---------------------------------------------------------------------------

  /** The bits of the items one after another: `[bit for bitobj in bitobjs for bit in bitobj]`. */
  function Concat(items: seq<seq<Bit>>): (r: seq<Bit>)
    ensures items != [] ==> |r| >= |items[0]| && r[..|items[0]|] == items[0]
    ensures |items| == 1 ==> r == items[0]
  {
    if items == [] then [] else items[0] + Concat(items[1..])
  }

  /** Joining with an empty separator is concatenation. */
  lemma {:induction false} ConcatIsJoin(items: seq<seq<Bit>>)
    ensures Concat(items) == Search.JoinBits([], items)
  {
    if |items| > 1 {
      ConcatIsJoin(items[1..]);
      assert items[0] + [] == items[0];
    } else if |items| == 1 {
      assert items[1..] == [];
    }
  }

  /** The total number of bits in the items. */
  function TotalLength(items: seq<seq<Bit>>): nat
  {
    if items == [] then 0 else |items[0]| + TotalLength(items[1..])
  }

  /** The separator goes only between consecutive items: one fewer separators than items. */
  lemma {:induction false} JoinLength(sep: seq<Bit>, items: seq<seq<Bit>>)
    requires items != []
    ensures |Search.JoinBits(sep, items)| == TotalLength(items) + |sep| * (|items| - 1)
  {
    if |items| > 1 {
      JoinLength(sep, items[1..]);
    } else {
      assert items[1..] == [];
    }
  }

  /** The items' bits come out whole and in order: concatenation keeps every bit. */
  lemma {:induction false} ConcatLength(items: seq<seq<Bit>>)
    ensures |Concat(items)| == TotalLength(items)
  {
    if items != [] {
      ConcatLength(items[1..]);
    }
  }

  lemma JoinStep(sep: seq<Bit>, items: seq<seq<Bit>>, i: nat)
    requires i + 1 < |items|
    ensures Search.JoinBits(sep, items[i..]) == items[i] + sep + Search.JoinBits(sep, items[i + 1..])
  {
    assert items[i..][1..] == items[i + 1..];
  }

  /**
   * `join(bitobjs)` on the separator `sep`: an empty separator concatenates; otherwise every item
   * but the last is followed by the separator, and the last is taken with `bitobjs[-1]`, which
   * raises `IndexError` on an empty list.
   */
  method Join(sep: seq<Bit>, items: seq<seq<Bit>>) returns (r: Result<seq<Bit>>)
    ensures sep == [] ==> r == Ok(Concat(items))
    ensures sep != [] && items == [] ==> r == Err(IndexError)
    ensures sep != [] && items != [] ==> r == Ok(Search.JoinBits(sep, items))
  {
    if |sep| == 0 {
      return Ok(Concat(items));
    }
    var front := if items == [] then [] else items[..|items| - 1];
    var retBits: seq<Bit> := [];
    for i := 0 to |front|
      invariant items != [] ==> retBits + Search.JoinBits(sep, items[i..]) == Search.JoinBits(sep, items)
    {
      JoinStep(sep, items, i);
      retBits := retBits + front[i] + sep;
    }
    if items == [] {
      return Err(IndexError);
    }
    assert items[|front|..] == [items[|items| - 1]];
    r := Ok(retBits + items[|items| - 1]);
  }
}
