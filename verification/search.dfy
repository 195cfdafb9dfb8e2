/**
 * The read-only sequence operations of `BitVector` (`bytemaker/bitvector/bitvector_with_bitarray_speedup.py`):
 * `startswith`/`endswith` (trie walks), `find`/`rfind`/`index`/`rindex`, the value `replace` computes,
 * `join`, `partition`/`rpartition`, `lstrip`/`rstrip`/`strip` and `lpad`/`rpad`.
 * Each works on the bit sequence a `BitVector` holds and returns a new one.
 */
module Search {
  import opened BitSeq
  import opened Wrappers
  import opened Utils
  import BitStrings

  // ---------------------------------------------------------------------------
  // startswith / endswith
  // ---------------------------------------------------------------------------

  function Max(a: int, b: int): int { if a < b then b else a }
  function Min(a: int, b: int): int { if a < b then a else b }

  /** The bits `startswith` and `endswith` look at: `start` raised to 0, `stop` lowered to the length. */
  function Window(s: seq<Bit>, start: int, stop: Option<int>): (w: seq<Bit>)
    ensures |w| <= |s|
  {
    var lo := Max(0, start);
    var hi := if stop.None? then |s| else Min(|s|, stop.value);
    if lo < hi then s[lo..hi] else []
  }

  /** No candidate of length at most `n` is a prefix of `w`. */
  predicate NoPrefixUpTo(candidates: seq<seq<Bit>>, w: seq<Bit>, n: int)
  {
    forall c :: c in candidates && |c| <= n ==> !IsPrefix(c, w)
  }

  /** No candidate of length at most `n` is a suffix of `w`. */
  predicate NoSuffixUpTo(candidates: seq<seq<Bit>>, w: seq<Bit>, n: int)
  {
    forall c :: c in candidates && |c| <= n ==> !IsSuffix(c, w)
  }

  /** A walk that leaves the prefix trie after `n + 1` bits rules out every longer candidate. */
  lemma PrefixWalkMissing(trie: Trie, candidates: seq<seq<Bit>>, w: seq<Bit>, n: nat)
    requires forall p :: Marked(trie, p, StartOfPrefix) <==> p in candidates
    requires n < |w| && Lookup(trie, w[..n + 1]).None?
    requires NoPrefixUpTo(candidates, w, n)
    ensures NoPrefixUpTo(candidates, w, |w|)
  {
    forall c | c in candidates && IsPrefix(c, w) && |c| > n
      ensures false
    {
      assert c == w[..n + 1] + c[n + 1..];
      assert Marked(trie, c, StartOfPrefix);
      LookupPrefixClosed(trie, w[..n + 1], c[n + 1..]);
    }
  }

  /** An unmarked node after `n + 1` bits rules out the candidate of that length. */
  lemma PrefixWalkUnmarked(trie: Trie, candidates: seq<seq<Bit>>, w: seq<Bit>, n: nat)
    requires forall p :: Marked(trie, p, StartOfPrefix) <==> p in candidates
    requires n < |w| && !Marked(trie, w[..n + 1], StartOfPrefix)
    requires NoPrefixUpTo(candidates, w, n)
    ensures NoPrefixUpTo(candidates, w, n + 1)
  {

  }

  /** A walk that leaves the suffix trie at the bits from `k` on rules out every longer candidate. */
  lemma SuffixWalkMissing(trie: Trie, candidates: seq<seq<Bit>>, w: seq<Bit>, k: nat)
    requires forall p :: Marked(trie, p, EndOfSuffix) <==> Reverse(p) in candidates
    requires k < |w| && Lookup(trie, Reverse(w[k..])).None?
    requires NoSuffixUpTo(candidates, w, |w| - k - 1)
    ensures NoSuffixUpTo(candidates, w, |w|)
  {
    forall c | c in candidates && IsSuffix(c, w) && |c| > |w| - k - 1
      ensures false
    {
      var j := |c| - (|w| - k);
      assert c[j..] == w[k..];
      assert c == c[..j] + c[j..];
      ReverseAppend(c[..j], c[j..]);
      ReverseReverse(c);
      assert Marked(trie, Reverse(c), EndOfSuffix);
      LookupPrefixClosed(trie, Reverse(w[k..]), Reverse(c[..j]));
    }
  }

  /** An unmarked node at the bits from `k` on rules out the candidate of that length. */
  lemma SuffixWalkUnmarked(trie: Trie, candidates: seq<seq<Bit>>, w: seq<Bit>, k: nat)
    requires forall p :: Marked(trie, p, EndOfSuffix) <==> Reverse(p) in candidates
    requires k < |w| && !Marked(trie, Reverse(w[k..]), EndOfSuffix)
    requires NoSuffixUpTo(candidates, w, |w| - k - 1)
    ensures NoSuffixUpTo(candidates, w, |w| - k)
  {
    forall c | c in candidates && |c| <= |w| - k
      ensures !IsSuffix(c, w)
    {
      ReverseReverse(c);
    }
  }

  /** A marked node after `n + 1` bits is a candidate that starts `w`. */
  lemma PrefixWalkFound(trie: Trie, candidates: seq<seq<Bit>>, w: seq<Bit>, n: nat)
    requires forall p :: Marked(trie, p, StartOfPrefix) <==> p in candidates
    requires n < |w| && Marked(trie, w[..n + 1], StartOfPrefix)
    ensures exists c :: c in candidates && IsPrefix(c, w)
  {
    assert IsPrefix(w[..n + 1], w);
  }

  /** A marked node at the bits from `k` on is a candidate that ends `w`. */
  lemma SuffixWalkFound(trie: Trie, candidates: seq<seq<Bit>>, w: seq<Bit>, k: nat)
    requires forall p :: Marked(trie, p, EndOfSuffix) <==> Reverse(p) in candidates
    requires k < |w| && Marked(trie, Reverse(w[k..]), EndOfSuffix)
    ensures exists c :: c in candidates && IsSuffix(c, w)
  {
    ReverseReverse(w[k..]);
    assert IsSuffix(w[k..], w);
  }

  lemma NoPrefixAtAll(candidates: seq<seq<Bit>>, w: seq<Bit>)
    requires NoPrefixUpTo(candidates, w, |w|)
    ensures !exists c :: c in candidates && IsPrefix(c, w)
  {
  }

  lemma NoSuffixAtAll(candidates: seq<seq<Bit>>, w: seq<Bit>)
    requires NoSuffixUpTo(candidates, w, |w|)
    ensures !exists c :: c in candidates && IsSuffix(c, w)
  {
  }

  /**
   * One step of the `startswith` walk at bit `k` of the window: what the next node, if any, tells
   * about the candidates.
   */
  lemma PrefixStep(trie: Trie, candidates: seq<seq<Bit>>, w: seq<Bit>, k: nat, current: Trie)
    requires forall p :: Marked(trie, p, StartOfPrefix) <==> p in candidates
    requires k < |w| && Lookup(trie, w[..k]) == Some(current)
    requires NoPrefixUpTo(candidates, w, k)
    ensures Child(current, w[k]).None? ==> !exists c :: c in candidates && IsPrefix(c, w)
    ensures Child(current, w[k]).Some? ==> Lookup(trie, w[..k + 1]) == Child(current, w[k])
    ensures Child(current, w[k]).Some? && Child(current, w[k]).value.isStartOfPrefix ==>
      exists c :: c in candidates && IsPrefix(c, w)
    ensures Child(current, w[k]).Some? && !Child(current, w[k]).value.isStartOfPrefix ==>
      NoPrefixUpTo(candidates, w, k + 1)
  {
    assert w[..k + 1] == w[..k] + [w[k]];
    LookupStep(trie, w[..k], w[k]);
    if Child(current, w[k]).None? {
      PrefixWalkMissing(trie, candidates, w, k);
      NoPrefixAtAll(candidates, w);
    } else if Child(current, w[k]).value.isStartOfPrefix {
      PrefixWalkFound(trie, candidates, w, k);
    } else {
      PrefixWalkUnmarked(trie, candidates, w, k);
    }
  }

  /**
   * One step of the `endswith` walk at bit `k` of the window, walking backwards: what the next
   * node, if any, tells about the candidates.
   */
  lemma SuffixStep(trie: Trie, candidates: seq<seq<Bit>>, w: seq<Bit>, k: nat, current: Trie)
    requires forall p :: Marked(trie, p, EndOfSuffix) <==> Reverse(p) in candidates
    requires k < |w| && Lookup(trie, Reverse(w[k + 1..])) == Some(current)
    requires NoSuffixUpTo(candidates, w, |w| - k - 1)
    ensures Child(current, w[k]).None? ==> !exists c :: c in candidates && IsSuffix(c, w)
    ensures Child(current, w[k]).Some? ==> Lookup(trie, Reverse(w[k..])) == Child(current, w[k])
    ensures Child(current, w[k]).Some? && Child(current, w[k]).value.isEndOfSuffix ==>
      exists c :: c in candidates && IsSuffix(c, w)
    ensures Child(current, w[k]).Some? && !Child(current, w[k]).value.isEndOfSuffix ==>
      NoSuffixUpTo(candidates, w, |w| - k)
  {
    assert w[k..] == [w[k]] + w[k + 1..];
    ReverseAppend([w[k]], w[k + 1..]);
    assert Reverse([w[k]]) == [w[k]];
    LookupStep(trie, Reverse(w[k + 1..]), w[k]);
    if Child(current, w[k]).None? {
      SuffixWalkMissing(trie, candidates, w, k);
      NoSuffixAtAll(candidates, w);
    } else if Child(current, w[k]).value.isEndOfSuffix {
      SuffixWalkFound(trie, candidates, w, k);
    } else {
      SuffixWalkUnmarked(trie, candidates, w, k);
    }
  }

  /** `PrefixStep` in the terms of the `startswith` loop: bit `i` of `s`, window `s[lo..hi]`. */
  lemma PrefixLoopStep(trie: Trie, candidates: seq<seq<Bit>>, s: seq<Bit>, lo: nat, hi: nat, w: seq<Bit>, i: nat, current: Trie)
    requires forall p :: Marked(trie, p, StartOfPrefix) <==> p in candidates
    requires lo <= i < hi <= |s| && w == s[lo..hi]
    requires Lookup(trie, w[..i - lo]) == Some(current)
    requires NoPrefixUpTo(candidates, w, i - lo)
    ensures Child(current, s[i]).None? ==> !exists c :: c in candidates && IsPrefix(c, w)
    ensures Child(current, s[i]).Some? ==> Lookup(trie, w[..i + 1 - lo]) == Child(current, s[i])
    ensures Child(current, s[i]).Some? && Child(current, s[i]).value.isStartOfPrefix ==>
      exists c :: c in candidates && IsPrefix(c, w)
    ensures Child(current, s[i]).Some? && !Child(current, s[i]).value.isStartOfPrefix ==>
      NoPrefixUpTo(candidates, w, i + 1 - lo)
  {
    var k := i - lo;
    assert w[k] == s[i] && i + 1 - lo == k + 1;
    PrefixStep(trie, candidates, w, k, current);
  }

  /** `SuffixStep` in the terms of the `endswith` loop: bit `i` of `s`, window `s[lo..hi]`. */
  lemma SuffixLoopStep(trie: Trie, candidates: seq<seq<Bit>>, s: seq<Bit>, lo: nat, hi: nat, w: seq<Bit>, i: nat, current: Trie)
    requires forall p :: Marked(trie, p, EndOfSuffix) <==> Reverse(p) in candidates
    requires lo <= i < hi <= |s| && w == s[lo..hi]
    requires Lookup(trie, Reverse(w[i + 1 - lo..])) == Some(current)
    requires NoSuffixUpTo(candidates, w, hi - 1 - i)
    ensures Child(current, s[i]).None? ==> !exists c :: c in candidates && IsSuffix(c, w)
    ensures Child(current, s[i]).Some? ==> Lookup(trie, Reverse(w[i - lo..])) == Child(current, s[i])
    ensures Child(current, s[i]).Some? && Child(current, s[i]).value.isEndOfSuffix ==>
      exists c :: c in candidates && IsSuffix(c, w)
    ensures Child(current, s[i]).Some? && !Child(current, s[i]).value.isEndOfSuffix ==>
      NoSuffixUpTo(candidates, w, hi - i)
  {
    var k := i - lo;
    assert w[k] == s[i] && i + 1 - lo == k + 1 && hi - 1 - i == |w| - k - 1 && hi - i == |w| - k;
    SuffixStep(trie, candidates, w, k, current);
  }

  lemma TakeSnoc(s: seq<Bit>, lo: nat, hi: nat, i: nat)
    requires lo <= i < hi <= |s|
    ensures s[lo..hi][..i + 1 - lo] == s[lo..hi][..i - lo] + [s[i]]
  {
  }

  lemma ReverseDropSnoc(s: seq<Bit>, lo: nat, hi: nat, i: nat)
    requires lo <= i < hi <= |s|
    ensures Reverse(s[lo..hi][i - lo..]) == Reverse(s[lo..hi][i + 1 - lo..]) + [s[i]]
  {
    var w := s[lo..hi];
    assert w[i - lo..] == [s[i]] + w[i + 1 - lo..];
    ReverseAppend([s[i]], w[i + 1 - lo..]);
  }

  lemma ReverseAppend(a: seq<Bit>, b: seq<Bit>)
    ensures Reverse(a + b) == Reverse(b) + Reverse(a)
  {
  }

  /**
   * `startswith`: an empty candidate matches at once; otherwise walk the prefix trie of the
   * candidates along the window and succeed at the first node marked as a whole candidate.
   */
  method StartsWith(s: seq<Bit>, candidates: seq<seq<Bit>>, start: int, stop: Option<int>) returns (r: bool)
    ensures r <==> exists c :: c in candidates && IsPrefix(c, Window(s, start, stop))
  {
    var lo := Max(0, start);
    var hi := if stop.None? then |s| else Min(|s|, stop.value);
    ghost var w := Window(s, start, stop);
    if exists c :: c in candidates && |c| == 0 {
      var c :| c in candidates && |c| == 0;
      assert IsPrefix(c, w);
      return true;
    }
    var trie := BuildPrefixTrie(candidates);
    var current := trie;
    var i := lo;
    while i < hi
      invariant lo <= i && (lo < hi ==> i <= hi && w == s[lo..hi])
      invariant lo < hi ==> Lookup(trie, w[..i - lo]) == Some(current)
      invariant NoPrefixUpTo(candidates, w, i - lo)
    {
      PrefixLoopStep(trie, candidates, s, lo, hi, w, i, current);
      if Child(current, s[i]).None? {
        return false;
      }
      current := Child(current, s[i]).value;
      if current.isStartOfPrefix {
        return true;
      }
      i := i + 1;
    }
    NoPrefixAtAll(candidates, w);
    return false;
  }

  /**
   * `endswith`: an empty candidate matches at once; otherwise walk the suffix trie of the
   * candidates from the last bit of the window backwards and succeed at the first node that
   * ends a whole candidate.
   */
  method EndsWith(s: seq<Bit>, candidates: seq<seq<Bit>>, start: int, stop: Option<int>) returns (r: bool)
    ensures r <==> exists c :: c in candidates && IsSuffix(c, Window(s, start, stop))
  {
    var lo := Max(0, start);
    var hi := if stop.None? then |s| else Min(|s|, stop.value);
    ghost var w := Window(s, start, stop);
    if exists c :: c in candidates && |c| == 0 {
      var c :| c in candidates && |c| == 0;
      assert IsSuffix(c, w);
      return true;
    }
    var trie := BuildSuffixTrie(candidates);
    var current := trie;
    var i := hi - 1;
    while i >= lo
      invariant lo < hi ==> lo - 1 <= i < hi && w == s[lo..hi]
      invariant lo >= hi ==> i < lo && w == []
      invariant lo < hi ==> Lookup(trie, Reverse(w[i + 1 - lo..])) == Some(current)
      invariant NoSuffixUpTo(candidates, w, hi - 1 - i)
    {
      SuffixLoopStep(trie, candidates, s, lo, hi, w, i, current);
      if Child(current, s[i]).None? {
        return false;
      }
      current := Child(current, s[i]).value;
      if current.isEndOfSuffix {
        return true;
      }
      ghost var consumed := w[i - lo..];
      i := i - 1;
      assert w[i + 1 - lo..] == consumed;
    }
    NoSuffixAtAll(candidates, w);
    return false;
  }

  // ---------------------------------------------------------------------------
  // find / rfind / index / rindex
  // ---------------------------------------------------------------------------

  /** A slice bound made absolute and clamped to `[0, n]`, as bitarray adjusts `start` and `stop`. */
  function Clamp(i: int, n: nat): (r: nat)
    ensures r <= n
    ensures 0 <= i <= n ==> r == i
  {
    if i < 0 then (if i + n < 0 then 0 else i + n) else if i > n then n else i
  }

  /** The first position in `[i, last]` where `sub` occurs, or -1. */
  function FirstFrom(s: seq<Bit>, sub: seq<Bit>, i: nat, last: int): (r: int)
    ensures r == -1 || (i <= r <= last && OccursAt(s, sub, r))
    ensures forall j :: i <= j <= last && (r == -1 || j < r) ==> !OccursAt(s, sub, j)
    decreases last - i + 1
  {
    if i > last then -1
    else if OccursAt(s, sub, i) then i
    else FirstFrom(s, sub, i + 1, last)
  }

  /** The last position in `[first, i]` where `sub` occurs, or -1. */
  function LastFrom(s: seq<Bit>, sub: seq<Bit>, first: nat, i: int): (r: int)
    ensures r == -1 || (first <= r <= i && OccursAt(s, sub, r))
    ensures forall j :: first <= j <= i && (r == -1 || j > r) ==> !OccursAt(s, sub, j)
    decreases i - first + 1
  {
    if i < first then -1
    else if OccursAt(s, sub, i) then i
    else LastFrom(s, sub, first, i - 1)
  }

  /** The absolute `stop`, with `None` meaning the length (`stop = len(self)`). */
  function Stop(s: seq<Bit>, stop: Option<int>): nat
  {
    Clamp(if stop.None? then |s| else stop.value, |s|)
  }

  /** `find`: the least index in the slice where `sub` starts and fits, or -1. */
  function Find(s: seq<Bit>, sub: seq<Bit>, start: int, stop: Option<int>): (r: int)
    ensures r != -1 ==> Clamp(start, |s|) <= r && r + |sub| <= Stop(s, stop) && OccursAt(s, sub, r)
    ensures forall j :: Clamp(start, |s|) <= j && j + |sub| <= Stop(s, stop) && (r == -1 || j < r) ==>
      !OccursAt(s, sub, j)
  {
    FirstFrom(s, sub, Clamp(start, |s|), Stop(s, stop) - |sub|)
  }

  /** `rfind`: the greatest index in the slice where `sub` starts and fits, or -1. */
  function RFind(s: seq<Bit>, sub: seq<Bit>, start: int, stop: Option<int>): (r: int)
    ensures r != -1 ==> Clamp(start, |s|) <= r && r + |sub| <= Stop(s, stop) && OccursAt(s, sub, r)
    ensures forall j :: Clamp(start, |s|) <= j && j + |sub| <= Stop(s, stop) && (r == -1 || j > r) ==>
      !OccursAt(s, sub, j)
  {
    LastFrom(s, sub, Clamp(start, |s|), Stop(s, stop) - |sub|)
  }

  /** `index`: as `find`, but a missing subsequence raises. */
  function Index(s: seq<Bit>, sub: seq<Bit>, start: int, stop: Option<int>): (r: Result<nat>)
    ensures r.Err? <==> Find(s, sub, start, stop) == -1
    ensures r.Ok? ==> r.value == Find(s, sub, start, stop)
  {
    var i := Find(s, sub, start, stop);
    if i == -1 then Err(ValueError) else Ok(i)
  }

  /** `rindex`: as `rfind`, but a missing subsequence raises. */
  function RIndex(s: seq<Bit>, sub: seq<Bit>, start: int, stop: Option<int>): (r: Result<nat>)
    ensures r.Err? <==> RFind(s, sub, start, stop) == -1
    ensures r.Ok? ==> r.value == RFind(s, sub, start, stop)
  {
    var i := RFind(s, sub, start, stop);
    if i == -1 then Err(ValueError) else Ok(i)
  }

  /** `find` and `rfind` agree on whether the subsequence occurs at all. */
  lemma FindRFindAgree(s: seq<Bit>, sub: seq<Bit>, start: int, stop: Option<int>)
    ensures (Find(s, sub, start, stop) == -1) <==> (RFind(s, sub, start, stop) == -1)
    ensures Find(s, sub, start, stop) != -1 ==> Find(s, sub, start, stop) <= RFind(s, sub, start, stop)
  {
  }

  /** An empty subsequence is found at the start of a non-empty slice. */
  lemma FindEmpty(s: seq<Bit>, start: int, stop: Option<int>)
    ensures Find(s, [], start, stop) == (if Clamp(start, |s|) <= Stop(s, stop) then Clamp(start, |s|) else -1)
  {
  }

  // ---------------------------------------------------------------------------
  // replace
  // ---------------------------------------------------------------------------

  /** The `while float(num_replacements) < max_replacements` guard. */
  predicate MayReplace(made: nat, count: Option<int>)
  {
    count.None? || made < count.value
  }

  /** A termination measure for the replacement loop. */
  function Remaining(made: nat, count: Option<int>): nat
  {
    if count.Some? && made < count.value then count.value - made else 0
  }

  /**
   * What `replace` produces from the bits `rest` still to be scanned, after `made` replacements:
   * search for `old` from the start of `rest`, copy the bits before it, emit `new`, and resume just
   * past the match. (`find(old, index)` on the whole vector is `index` plus `find(old)` on the bits
   * from `index` on: `FindShift` below.) An empty `old` without a `count` never ends in the source,
   * so one of the two is required.
   */
  function ReplaceRest(rest: seq<Bit>, pattern: seq<Bit>, replacement: seq<Bit>, made: nat, count: Option<int>): (r: seq<Bit>)
    requires |pattern| > 0 || count.Some?
    ensures |replacement| >= |pattern| ==> |r| >= |rest|
    decreases Remaining(made, count), |rest|
  {
    if !MayReplace(made, count) then rest
    else
      var f := Find(rest, pattern, 0, None);
      if f == -1 then rest
      else rest[..f] + replacement + ReplaceRest(rest[f + |pattern|..], pattern, replacement, made + 1, count)
  }

  /** `replace(pattern, replacement, count)`: the first `count` (or all) non-overlapping occurrences, left to right. */
  function Replace(s: seq<Bit>, pattern: seq<Bit>, replacement: seq<Bit>, count: Option<int>): (r: seq<Bit>)
    requires |pattern| > 0 || count.Some?
    ensures count.Some? && count.value <= 0 ==> r == s
    ensures |replacement| >= |pattern| ==> |r| >= |s|
  {
    ReplaceRest(s, pattern, replacement, 0, count)
  }

  /** One step of the scan: the bits before the first match, `new`, then the scan resumed past the match. */
  lemma ReplaceRestUnfold(rest: seq<Bit>, pattern: seq<Bit>, replacement: seq<Bit>, made: nat, count: Option<int>, f: int)
    requires |pattern| > 0 || count.Some?
    requires MayReplace(made, count) && f == Find(rest, pattern, 0, None) && f != -1
    ensures ReplaceRest(rest, pattern, replacement, made, count)
      == rest[..f] + replacement + ReplaceRest(rest[f + |pattern|..], pattern, replacement, made + 1, count)
  {
  }

  /** `ReplaceRestUnfold` with the resumed scan and the new count given by name. */
  lemma ReplaceRestStep(rest: seq<Bit>, pattern: seq<Bit>, replacement: seq<Bit>, made: nat, count: Option<int>,
                        f: int, after: seq<Bit>, nextMade: nat)
    requires |pattern| > 0 || count.Some?
    requires MayReplace(made, count) && f == Find(rest, pattern, 0, None) && f != -1
    requires after == rest[f + |pattern|..] && nextMade == made + 1
    ensures ReplaceRest(rest, pattern, replacement, made, count)
      == rest[..f] + replacement + ReplaceRest(after, pattern, replacement, nextMade, count)
  {
    ReplaceRestUnfold(rest, pattern, replacement, made, count, f);
  }

  /** Replacing a subsequence by itself changes nothing. */
  lemma {:induction false} ReplaceRestSelf(rest: seq<Bit>, pattern: seq<Bit>, made: nat, count: Option<int>)
    requires |pattern| > 0 || count.Some?
    ensures ReplaceRest(rest, pattern, pattern, made, count) == rest
    decreases Remaining(made, count), |rest|
  {
    if MayReplace(made, count) {
      var f := Find(rest, pattern, 0, None);
      if f != -1 {
        var next := f + |pattern|;
        ReplaceRestSelf(rest[next..], pattern, made + 1, count);
        SplitThree(rest, f, next);
      }
    }
  }

  lemma SplitThree(s: seq<Bit>, i: nat, j: nat)
    requires i <= j <= |s|
    ensures s == s[..i] + s[i..j] + s[j..]
  {
  }

  lemma ReplaceSelf(s: seq<Bit>, pattern: seq<Bit>, count: Option<int>)
    requires |pattern| > 0 || count.Some?
    ensures Replace(s, pattern, pattern, count) == s
  {
    ReplaceRestSelf(s, pattern, 0, count);
  }

  /** With no occurrence of `old`, or a count of at most zero, the bits come back unchanged. */
  lemma ReplaceNothing(s: seq<Bit>, pattern: seq<Bit>, replacement: seq<Bit>, count: Option<int>)
    requires |pattern| > 0 || count.Some?
    requires Find(s, pattern, 0, None) == -1 || (count.Some? && count.value <= 0)
    ensures Replace(s, pattern, replacement, count) == s
  {
  }

  /** Equal-length replacement keeps the length: the case the source performs in place. */
  lemma {:induction false} ReplaceRestLength(rest: seq<Bit>, pattern: seq<Bit>, replacement: seq<Bit>, made: nat, count: Option<int>)
    requires |pattern| > 0 || count.Some?
    requires |pattern| == |replacement|
    ensures |ReplaceRest(rest, pattern, replacement, made, count)| == |rest|
    decreases Remaining(made, count), |rest|
  {
    if MayReplace(made, count) {
      var f := Find(rest, pattern, 0, None);
      if f != -1 {
        var after, nextMade := rest[f + |pattern|..], made + 1;
        ReplaceRestStep(rest, pattern, replacement, made, count, f, after, nextMade);
        ReplaceRestLength(after, pattern, replacement, nextMade, count);
      }
    }
  }

  /** `find` from `i` on the whole sequence is `i` plus `find` on the bits from `i` on. */
  lemma FindShift(s: seq<Bit>, sub: seq<Bit>, i: nat)
    requires i <= |s|
    ensures var g := Find(s[i..], sub, 0, None);
      Find(s, sub, i, None) == if g == -1 then -1 else i + g
  {
    FirstFromShift(s, sub, i, i, |s| - |sub|);
  }

  lemma {:induction false} FirstFromShift(s: seq<Bit>, sub: seq<Bit>, i: nat, j: nat, last: int)
    requires i <= j && i <= |s|
    ensures var g := FirstFrom(s[i..], sub, j - i, last - i);
      FirstFrom(s, sub, j, last) == if g == -1 then -1 else i + g
    decreases last - j + 1
  {
    if j <= last {
      assert OccursAt(s, sub, j) <==> OccursAt(s[i..], sub, j - i) by {
        if j + |sub| <= |s| {
          assert s[i..][j - i..j - i + |sub|] == s[j..j + |sub|];
        }
      }
      FirstFromShift(s, sub, i, j + 1, last);
    }
  }

  /** Replacement of "10" by "01" in 101010 gives 010101. */
  lemma ReplaceExample(s: seq<Bit>, p: seq<Bit>, q: seq<Bit>)
    requires s == [1, 0, 1, 0, 1, 0] && p == [1, 0] && q == [0, 1]
    ensures Replace(s, p, q, None) == [0, 1, 0, 1, 0, 1]
  {
    var r1, r2 := s[2..], s[4..];
    assert r1 == [1, 0, 1, 0] && r2 == [1, 0];
    assert s[0..2] == p && r1[0..2] == p && r2[0..2] == p;
    assert Find(s, p, 0, None) == 0 && Find(r1, p, 0, None) == 0 && Find(r2, p, 0, None) == 0;
    assert r2[2..] == [];
    var third := ReplaceRest(r2, p, q, 2, None);
    assert third == [] + q + ReplaceRest([], p, q, 3, None) == q;
    var second := ReplaceRest(r1, p, q, 1, None);
    assert second == [] + q + third;
    assert ReplaceRest(s, p, q, 0, None) == [] + q + second;
  }

  // ---------------------------------------------------------------------------
  // join
  // ---------------------------------------------------------------------------

  /** The items with `sep` between consecutive ones. */
  function JoinBits(sep: seq<Bit>, items: seq<seq<Bit>>): (r: seq<Bit>)
    ensures items == [] ==> r == []
    ensures |items| == 1 ==> r == items[0]
  {
    if items == [] then []
    else if |items| == 1 then items[0]
    else items[0] + sep + JoinBits(sep, items[1..])
  }

  /** Python's `str.join` on the '0'/'1' texts. */
  function JoinText(sep: string, items: seq<string>): string
  {
    if items == [] then ""
    else if |items| == 1 then items[0]
    else items[0] + sep + JoinText(sep, items[1..])
  }

  function Texts(items: seq<seq<Bit>>): (r: seq<string>)
    ensures |r| == |items| && forall i :: 0 <= i < |items| ==> r[i] == BitsToStr(items[i])
  {
    seq(|items|, i requires 0 <= i < |items| => BitsToStr(items[i]))
  }

  /**
   * `join`: render the separator and each item as '0'/'1' text, join the texts, and parse the
   * result with the string constructor.
   */
  function Join(sep: seq<Bit>, items: seq<seq<Bit>>): (r: Result<seq<Bit>>)
    ensures r == Ok(JoinBits(sep, items))
  {
    JoinTextOfBits(sep, items);
    FromStringOfBits(JoinBits(sep, items));
    BitStrings.FromString(JoinText(BitsToStr(sep), Texts(items)))
  }

  lemma BitsToStrAppend(a: seq<Bit>, b: seq<Bit>)
    ensures BitsToStr(a + b) == BitsToStr(a) + BitsToStr(b)
  {
  }

  lemma {:induction false} JoinTextOfBits(sep: seq<Bit>, items: seq<seq<Bit>>)
    ensures JoinText(BitsToStr(sep), Texts(items)) == BitsToStr(JoinBits(sep, items))
  {
    if |items| > 1 {
      JoinTextOfBits(sep, items[1..]);
      assert Texts(items)[1..] == Texts(items[1..]);
      BitsToStrAppend(items[0] + sep, JoinBits(sep, items[1..]));
      BitsToStrAppend(items[0], sep);
    } else if |items| == 0 {
      assert BitsToStr([]) == "";
    }
  }

  /** The '0'/'1' text of any bits is parsed back by the string constructor. */
  lemma FromStringOfBits(b: seq<Bit>)
    ensures BitStrings.FromString(BitsToStr(b)) == Ok(b)
  {
    var t := BitsToStr(b);
    assert !BitStrings.HasPrefix(t, "0b") && !BitStrings.HasPrefix(t, "0o") && !BitStrings.HasPrefix(t, "0x") by {
      if |t| >= 2 {
        assert t[..2][1] == t[1];
        assert t[1] == '0' || t[1] == '1';
      }
    }
    BitStrings.StripSeparatorsNone(t);
    BitStrings.BitsDigits(b);
  }

  // ---------------------------------------------------------------------------
  // partition / rpartition
  // ---------------------------------------------------------------------------

  /** `partition`: split around the first occurrence of `sep`; when absent, all bits come first. */
  function Partition(s: seq<Bit>, sep: seq<Bit>): (r: (seq<Bit>, seq<Bit>, seq<Bit>))
    ensures r.0 + r.1 + r.2 == s
    ensures Find(s, sep, 0, None) == -1 ==> r == (s, [], [])
    ensures Find(s, sep, 0, None) != -1 ==>
      r.1 == sep && forall j :: 0 <= j < |r.0| ==> !OccursAt(s, sep, j)
  {
    var i := Find(s, sep, 0, None);
    if i == -1 then (s, [], [])
    else
      assert s[..i] + sep + s[i + |sep|..] == s;
      (s[..i], sep, s[i + |sep|..])
  }

  /** `rpartition`: split around the last occurrence of `sep`; when absent, all bits come last. */
  function RPartition(s: seq<Bit>, sep: seq<Bit>): (r: (seq<Bit>, seq<Bit>, seq<Bit>))
    ensures r.0 + r.1 + r.2 == s
    ensures RFind(s, sep, 0, None) == -1 ==> r == ([], [], s)
    ensures RFind(s, sep, 0, None) != -1 ==>
      r.1 == sep && forall j :: |r.0| < j && j + |sep| <= |s| ==> !OccursAt(s, sep, j)
  {
    var i := RFind(s, sep, 0, None);
    if i == -1 then ([], [], s)
    else
      assert s[..i] + sep + s[i + |sep|..] == s;
      (s[..i], sep, s[i + |sep|..])
  }

  // ---------------------------------------------------------------------------
  // lstrip / rstrip / strip / lpad / rpad
  // ---------------------------------------------------------------------------

  /** The bit `lstrip`/`rstrip` remove: 0 when `bits` is absent or 0, 1 for any other value. */
  function StripBit(bits: Option<int>): Bit
  {
    if bits.None? || bits.value == 0 then 0 else 1
  }

  /** `lstrip`: drop the leading run of the strip bit, found as the first occurrence of the other bit. */
  function LStrip(s: seq<Bit>, bits: Option<int>): (r: seq<Bit>)
    ensures |r| <= |s| && s == Repeat(StripBit(bits), |s| - |r|) + r
    ensures r == [] || r[0] != StripBit(bits)
  {
    var b := StripBit(bits);
    var i := Find(s, [1 - b], 0, None);
    if i == -1 then
      assert forall j :: 0 <= j < |s| ==> s[j] == b by {
        forall j | 0 <= j < |s| ensures s[j] == b {
          assert !OccursAt(s, [1 - b], j);
          assert s[j..j + 1] == [s[j]];
        }
      }
      assert s == Repeat(b, |s|);
      []
    else
      assert forall j :: 0 <= j < i ==> s[j] == b by {
        forall j | 0 <= j < i ensures s[j] == b {
          assert !OccursAt(s, [1 - b], j);
          assert s[j..j + 1] == [s[j]];
        }
      }
      assert s[i..i + 1] == [s[i]];
      assert s[..i] == Repeat(b, i);
      assert s == s[..i] + s[i..];
      s[i..]
  }

  /** `rstrip`: drop the trailing run of the strip bit, found as the last occurrence of the other bit. */
  function RStrip(s: seq<Bit>, bits: Option<int>): (r: seq<Bit>)
    ensures |r| <= |s| && s == r + Repeat(StripBit(bits), |s| - |r|)
    ensures r == [] || r[|r| - 1] != StripBit(bits)
  {
    var b := StripBit(bits);
    var i := RFind(s, [1 - b], 0, None);
    if i == -1 then
      assert forall j :: 0 <= j < |s| ==> s[j] == b by {
        forall j | 0 <= j < |s| ensures s[j] == b {
          assert !OccursAt(s, [1 - b], j);
          assert s[j..j + 1] == [s[j]];
        }
      }
      assert s == Repeat(b, |s|);
      []
    else
      assert forall j :: i < j < |s| ==> s[j] == b by {
        forall j | i < j < |s| ensures s[j] == b {
          assert !OccursAt(s, [1 - b], j);
          assert s[j..j + 1] == [s[j]];
        }
      }
      assert s[i..i + 1] == [s[i]];
      assert s[i + 1..] == Repeat(b, |s| - i - 1);
      assert s == s[..i + 1] + s[i + 1..];
      s[..i + 1]
  }

  /** `strip`: `lstrip` then `rstrip` with the same bit. */
  function Strip(s: seq<Bit>, bits: Option<int>): (r: seq<Bit>)
    ensures |r| <= |s|
    ensures r == [] || (r[0] != StripBit(bits) && r[|r| - 1] != StripBit(bits))
  {
    var l := LStrip(s, bits);
    var r := RStrip(l, bits);
    if r == [] then r
    else
      assert l == r + Repeat(StripBit(bits), |l| - |r|);
      assert l[0] == r[0];
      r
  }

  /** The bits `strip` removes were all the strip bit: a run of it before, and one after. */
  lemma StripShape(s: seq<Bit>, bits: Option<int>)
    ensures exists k, m :: 0 <= k && 0 <= m && s == Repeat(StripBit(bits), k) + Strip(s, bits) + Repeat(StripBit(bits), m)
  {
    var b := StripBit(bits);
    var l := LStrip(s, bits);
    var r := RStrip(l, bits);
    var k, m := |s| - |l|, |l| - |r|;
    ConcatAssoc(Repeat(b, k), r, Repeat(b, m));
  }

  lemma SingletonSlice(s: seq<Bit>, i: nat)
    requires i < |s|
    ensures s[i..i + 1] == [s[i]]
  {
  }

  lemma ConcatAssoc(a: seq<Bit>, b: seq<Bit>, c: seq<Bit>)
    ensures a + (b + c) == a + b + c
  {
  }

  /** Stripping twice is stripping once. */
  lemma StripIdempotent(s: seq<Bit>, bits: Option<int>)
    ensures Strip(Strip(s, bits), bits) == Strip(s, bits)
  {
    var r := Strip(s, bits);
    StripShape(s, bits);
    LStripClean(r, bits);
    RStripClean(r, bits);
  }

  lemma LStripClean(s: seq<Bit>, bits: Option<int>)
    requires s == [] || s[0] != StripBit(bits)
    ensures LStrip(s, bits) == s
  {
  }

  lemma RStripClean(s: seq<Bit>, bits: Option<int>)
    requires s == [] || s[|s| - 1] != StripBit(bits)
    ensures RStrip(s, bits) == s
  {
  }

  /** `lstrip()` of 001010 is 1010. */
  lemma LStripExample()
    ensures LStrip([0, 0, 1, 0, 1, 0], None) == [1, 0, 1, 0]
  {
    var s: seq<Bit> := [0, 0, 1, 0, 1, 0];
    assert s[0..1] == [0] && s[1..2] == [0] && s[2..3] == [1];
    assert FirstFrom(s, [1], 2, 5) == 2;
    assert FirstFrom(s, [1], 1, 5) == 2;
    assert FirstFrom(s, [1], 0, 5) == 2;
    assert Find(s, [1], 0, None) == 2;
    assert s[2..] == [1, 0, 1, 0];
  }

  /** `lpad`: fill on the left with `fill` up to `width`; longer bits are returned as they are. */
  function LPad(s: seq<Bit>, width: int, fill: Bit): (r: seq<Bit>)
    ensures |r| == Max(|s|, width)
    ensures r == Repeat(fill, |r| - |s|) + s
  {
    if |s| >= width then
      assert Repeat(fill, 0) + s == s;
      s
    else Repeat(fill, width - |s|) + s
  }

  /** `rpad`: fill on the right with `fill` up to `width`; longer bits are returned as they are. */
  function RPad(s: seq<Bit>, width: int, fill: Bit): (r: seq<Bit>)
    ensures |r| == Max(|s|, width)
    ensures r == s + Repeat(fill, |r| - |s|)
  {
    if |s| >= width then
      assert s + Repeat(fill, 0) == s;
      s
    else s + Repeat(fill, width - |s|)
  }

  /** Zero padding on the left keeps the unsigned value. */
  lemma LPadZerosValue(s: seq<Bit>, width: int)
    ensures Unsigned(LPad(s, width, 0)) == Unsigned(s)
  {
    UnsignedLeadingZeros(|LPad(s, width, 0)| - |s|, s);
  }

  /** `lstrip` undoes zero padding on the left. */
  lemma LPadZerosStrip(s: seq<Bit>, width: int)
    ensures LStrip(LPad(s, width, 0), None) == LStrip(s, None)
  {
    var p := LPad(s, width, 0);
    var l := LStrip(s, None);
    var k, m := |p| - |s|, |s| - |l|;
    RepeatConcat(0, k, m);
    var z := Repeat(0, k + m);
    assert p == Repeat(0, k) + (Repeat(0, m) + l);
    ConcatAssoc(Repeat(0, k), Repeat(0, m), l);
    LStripUnique(p, z, l, None);
  }

  /** `lstrip` is determined by the shape it guarantees. */
  lemma LStripUnique(s: seq<Bit>, z: seq<Bit>, l: seq<Bit>, bits: Option<int>)
    requires z == Repeat(StripBit(bits), |z|) && s == z + l && (l == [] || l[0] != StripBit(bits))
    ensures LStrip(s, bits) == l
  {
    var b := StripBit(bits);
    var sub: seq<Bit> := [1 - b];
    var i := Find(s, sub, 0, None);
    forall j | 0 <= j < |z|
      ensures !OccursAt(s, sub, j)
    {
      assert s[j] == z[j];
    }
    if l == [] {
      assert i == -1;
    } else {
      assert s[|z|] == l[0] == 1 - b;
      SingletonSlice(s, |z|);
      assert OccursAt(s, sub, |z|);
      assert i != -1 && i <= |z|;
      assert OccursAt(s, sub, i);
      assert i == |z|;
      assert s[|z|..] == l;
    }
  }
}
