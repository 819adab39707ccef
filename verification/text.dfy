/** The word-at-a-time and sixteen-at-a-time loops of kstl/string.hpp against the
    byte-at-a-time definitions they stand for. */
module Text {
  import opened Lanes
  import opened Logarithm

  type byte = x: int | 0 <= x < 0x100

  /** What a search that finds nothing returns. */
  const NPOS: nat := 0xFFFF_FFFF

  const BLOCK := 16

  // Substring search.

  ghost predicate MatchesAt(hay: seq<byte>, needle: seq<byte>, p: nat) {
    p + |needle| <= |hay| && hay[p..p + |needle|] == needle
  }

  /** The plain search: try each position in turn. */
  ghost function FindNaive(hay: seq<byte>, needle: seq<byte>, from: nat): nat
    decreases |hay| - from
  {
    if from + |needle| > |hay| then NPOS
    else if MatchesAt(hay, needle, from) then from
    else FindNaive(hay, needle, from + 1)
  }

  /** It returns the least position at or after `from` that matches, or says there is none. */
  lemma {:induction false} FindNaiveIsLeast(hay: seq<byte>, needle: seq<byte>, from: nat)
    requires |hay| <= NPOS && (needle == [] ==> |hay| < NPOS)
    ensures var r := FindNaive(hay, needle, from);
      if r == 0xFFFF_FFFF then forall p: nat :: from <= p ==> !MatchesAt(hay, needle, p)
      else from <= r && MatchesAt(hay, needle, r) && forall p: nat :: from <= p < r ==> !MatchesAt(hay, needle, p)
    decreases |hay| - from
  {
    if from + |needle| <= |hay| && !MatchesAt(hay, needle, from) {
      FindNaiveIsLeast(hay, needle, from + 1);
    }
  }

  lemma {:induction false} FindNaiveSkips(hay: seq<byte>, needle: seq<byte>, from: nat, upto: nat)
    requires from <= upto && forall p: nat :: from <= p < upto ==> !MatchesAt(hay, needle, p)
    requires upto + |needle| <= |hay| + 1
    ensures FindNaive(hay, needle, from) == FindNaive(hay, needle, upto)
    decreases upto - from
  {
    if from < upto {
      assert !MatchesAt(hay, needle, from);
      FindNaiveSkips(hay, needle, from + 1, upto);
    }
  }

  /** The lanes of sixteen candidate positions whose first and last bytes both match: two
      block loads, both inside the haystack. */
  function EndsMatch(hay: seq<byte>, needle: seq<byte>, i: nat): seq<bool>
    requires needle != [] && i + BLOCK + |needle| - 1 <= |hay|
  {
    seq(BLOCK, b requires 0 <= b < BLOCK =>
      hay[i + b] == needle[0] && hay[i + b + |needle| - 1] == needle[|needle| - 1])
  }

  /** Compare the middle of the needle at p, its ends being known to match. */
  method MiddleMatches(hay: seq<byte>, needle: seq<byte>, p: nat) returns (b: bool)
    requires needle != [] && p + |needle| <= |hay|
    requires hay[p] == needle[0] && hay[p + |needle| - 1] == needle[|needle| - 1]
    ensures b <==> MatchesAt(hay, needle, p)
  {
    var j := 1;
    while j + 1 < |needle| && hay[p + j] == needle[j]
      invariant 1 <= j && (j == 1 || j < |needle|)
      invariant forall k :: 1 <= k < j ==> hay[p + k] == needle[k]
    {
      j := j + 1;
    }
    b := j + 1 >= |needle|;
    if b {
      forall k | 0 <= k < |needle|
        ensures hay[p..p + |needle|][k] == needle[k]
      {
      }
    } else {
      assert hay[p..p + |needle|][j] != needle[j];
    }
  }

  lemma EndsDiffer(hay: seq<byte>, needle: seq<byte>, p: nat)
    requires needle != [] && p + |needle| <= |hay|
    requires hay[p] != needle[0] || hay[p + |needle| - 1] != needle[|needle| - 1]
    ensures !MatchesAt(hay, needle, p)
  {
    assert hay[p..p + |needle|][0] == hay[p];
    assert hay[p..p + |needle|][|needle| - 1] == hay[p + |needle| - 1];
  }

  const UNSIGNED := 0x1_0000_0000

  /** The block loop's guard, its sum taken in 32 bits. */
  predicate Guard(i: nat, last: nat) {
    (i + BLOCK) % UNSIGNED <= last + 1
  }

  /** The positions the block loop can stand at. */
  predicate Reached(from: nat, last: nat, i: nat) {
    from <= i <= last + 1 && (i - from) % BLOCK == 0
  }

  /** Sixteen past the last of those positions there is still a 32-bit number. */
  predicate ScanFits(n: nat, m: nat, from: nat) {
    m == 0 || m > n || from > n - m || from + BLOCK * ((n - m + 1 - from) / BLOCK) + BLOCK < UNSIGNED
  }

  /** The guard says what it means, that a whole block is left, at every position the loop can stand at
      if and only if the scan fits. */
  lemma GuardIsRight(n: nat, m: nat, from: nat, last: nat)
    requires 0 < m <= n < UNSIGNED && from <= last == n - m
    ensures ScanFits(n, m, from) <==> forall i: nat :: Reached(from, last, i) ==> (Guard(i, last) <==> i + BLOCK <= last + 1)
  {
    var end := from + BLOCK * ((last + 1 - from) / BLOCK);
    assert Reached(from, last, end) && last + 1 < end + BLOCK;
    if ScanFits(n, m, from) {
      forall i: nat | Reached(from, last, i)
        ensures Guard(i, last) <==> i + BLOCK <= last + 1
      {
        assert i <= end;
      }
    } else {
      assert Guard(end, last);
    }
  }

  /** Every needle and every start fit exactly in haystacks of up to 0xFFFFFFEF bytes. */
  lemma ScansFitUpTo(n: nat)
    requires n < UNSIGNED
    ensures (forall m, from :: ScanFits(n, m, from)) <==> n <= 0xFFFF_FFEF
  {
    if n > 0xFFFF_FFEF {
      assert !ScanFits(n, 1, n % BLOCK);
    }
  }

  lemma StartReached(from: nat, last: nat)
    requires from <= last
    ensures Reached(from, last, from)
  {
  }

  lemma NextReached(from: nat, last: nat, i: nat)
    requires Reached(from, last, i) && i + BLOCK <= last + 1
    ensures Reached(from, last, i + BLOCK)
  {
  }

  /** `find_sub`. */
  method FindSub(hay: seq<byte>, needle: seq<byte>, from: nat) returns (r: nat)
    requires |hay| < UNSIGNED && ScanFits(|hay|, |needle|, from)
    ensures r == FindNaive(hay, needle, from)
  {
    hide FindNaive, MatchesAt;
    var n, m := |hay|, |needle|;
    if m == 0 {
      FindEmpty(hay, needle, from);
      return if from <= n then from else NPOS;
    }
    if m > n || from > n - m {
      FindBeyond(hay, needle, from);
      return NPOS;
    }
    var last := n - m;
    var i := from;
    GuardIsRight(n, m, from, last);
    hide ScanFits, Guard, Reached;
    StartReached(from, last);
    while Guard(i, last)
      invariant from <= i <= last + 1 && Reached(from, last, i)
      invariant forall p: nat :: from <= p < i ==> !MatchesAt(hay, needle, p)
      decreases last + 1 - i
    {
      var mask := EndsMatch(hay, needle, i);
      var bit := NextLane(mask, 0);
      SkipBlock(hay, needle, i, 0, bit);
      while bit < BLOCK
        invariant bit <= BLOCK == |mask| && (bit < BLOCK ==> mask[bit])
        invariant forall p: nat :: from <= p < i + bit ==> !MatchesAt(hay, needle, p)
      {
        var found := MiddleMatches(hay, needle, i + bit);
        if found {
          FindNaiveSkips(hay, needle, from, i + bit);
          FindHere(hay, needle, i + bit);
          return i + bit;
        }
        ghost var next := bit + 1;
        bit := NextLane(mask, bit + 1);
        SkipBlock(hay, needle, i, next, bit);
      }
      NextReached(from, last, i);
      i := i + BLOCK;
    }
    while i <= last
      invariant from <= i <= last + 1
      invariant forall p: nat :: from <= p < i ==> !MatchesAt(hay, needle, p)
    {
      if hay[i] == needle[0] && hay[i + m - 1] == needle[m - 1] {
        var found := MiddleMatches(hay, needle, i);
        if found {
          FindNaiveSkips(hay, needle, from, i);
          FindHere(hay, needle, i);
          return i;
        }
      } else {
        EndsDiffer(hay, needle, i);
      }
      i := i + 1;
    }
    FindNaiveSkips(hay, needle, from, i);
    FindBeyond(hay, needle, i);
    return NPOS;
  }

  lemma FindEmpty(hay: seq<byte>, needle: seq<byte>, from: nat)
    requires needle == []
    ensures FindNaive(hay, needle, from) == if from <= |hay| then from else NPOS
  {
  }

  lemma FindBeyond(hay: seq<byte>, needle: seq<byte>, from: nat)
    requires from + |needle| > |hay|
    ensures FindNaive(hay, needle, from) == NPOS
  {
  }

  lemma FindHere(hay: seq<byte>, needle: seq<byte>, p: nat)
    requires MatchesAt(hay, needle, p)
    ensures FindNaive(hay, needle, p) == p
  {
  }

  lemma SkipBlock(hay: seq<byte>, needle: seq<byte>, i: nat, from: nat, upto: nat)
    requires needle != [] && i + BLOCK + |needle| - 1 <= |hay| && from <= upto <= BLOCK
    requires forall b :: from <= b < upto ==> !EndsMatch(hay, needle, i)[b]
    ensures forall p: nat :: i + from <= p < i + upto ==> !MatchesAt(hay, needle, p)
  {
    forall p: nat | i + from <= p < i + upto
      ensures !MatchesAt(hay, needle, p)
    {
      assert !EndsMatch(hay, needle, i)[p - i];
      EndsDiffer(hay, needle, p);
    }
  }

  // Comparison.

  /** Order by the first unsigned byte that differs, a prefix before what it begins. */
  function LexCompare(a: seq<byte>, b: seq<byte>): int
    decreases |a|
  {
    if a == [] then (if b == [] then 0 else -1)
    else if b == [] then 1
    else if a[0] != b[0] then (if a[0] < b[0] then -1 else 1)
    else LexCompare(a[1..], b[1..])
  }

  lemma {:induction false} LexZeroIsEqual(a: seq<byte>, b: seq<byte>)
    ensures LexCompare(a, b) == 0 <==> a == b
    decreases |a|
  {
    if a != [] && b != [] {
      LexZeroIsEqual(a[1..], b[1..]);
      assert a == [a[0]] + a[1..] && b == [b[0]] + b[1..];
    }
  }

  lemma {:induction false} LexAntisymmetric(a: seq<byte>, b: seq<byte>)
    ensures LexCompare(b, a) == -LexCompare(a, b)
    decreases |a|
  {
    if a != [] && b != [] {
      LexAntisymmetric(a[1..], b[1..]);
    }
  }

  lemma {:induction false} LexTransitive(a: seq<byte>, b: seq<byte>, c: seq<byte>)
    requires LexCompare(a, b) < 0 && LexCompare(b, c) < 0
    ensures LexCompare(a, c) < 0
    decreases |a|
  {
    if a != [] && b != [] && c != [] && a[0] == b[0] == c[0] {
      LexTransitive(a[1..], b[1..], c[1..]);
    }
  }

  // Words.

  /** Bytes loaded into a word on a little-endian machine. */
  function LittleEndian(s: seq<byte>): nat {
    if s == [] then 0 else s[0] + 0x100 * LittleEndian(s[1..])
  }

  function Power256(n: nat): nat {
    if n == 0 then 1 else 0x100 * Power256(n - 1)
  }

  function BigEndian(s: seq<byte>): nat {
    if s == [] then 0 else s[0] * Power256(|s| - 1) + BigEndian(s[1..])
  }

  /** The n low bytes of a word, low byte first. */
  function BytesOf(x: nat, n: nat): seq<byte> {
    if n == 0 then [] else [x % 0x100] + BytesOf(x / 0x100, n - 1)
  }

  /** `_byteswap_uint64`. */
  function ByteSwap64(x: nat): nat {
    BigEndian(BytesOf(x, 8))
  }

  lemma {:induction false} BytesOfWord(s: seq<byte>)
    ensures BytesOf(LittleEndian(s), |s|) == s
  {
    if s != [] {
      BytesOfWord(s[1..]);
      assert LittleEndian(s) / 0x100 == LittleEndian(s[1..]);
    }
  }

  lemma WordsEqual(s: seq<byte>, t: seq<byte>)
    requires |s| == |t|
    ensures LittleEndian(s) == LittleEndian(t) <==> s == t
  {
    BytesOfWord(s);
    BytesOfWord(t);
  }

  lemma {:induction false} BigEndianBound(s: seq<byte>)
    ensures BigEndian(s) < Power256(|s|)
  {
    if s != [] {
      BigEndianBound(s[1..]);
      ProductMonotone(s[0], 0xFF, Power256(|s| - 1));
    }
  }

  /** Big-endian numbers are in the order of their bytes. */
  lemma {:induction false} BigEndianOrder(s: seq<byte>, t: seq<byte>)
    requires |s| == |t|
    ensures BigEndian(s) < BigEndian(t) <==> LexCompare(s, t) < 0
    decreases |s|
  {
    if s != [] {
      BigEndianBound(s[1..]);
      BigEndianBound(t[1..]);
      BigEndianOrder(s[1..], t[1..]);
      var p := Power256(|s| - 1);
      if s[0] < t[0] {
        FirstByteDecides(s[0], t[0], p);
      } else if t[0] < s[0] {
        FirstByteDecides(t[0], s[0], p);
      }
    }
  }

  lemma FirstByteDecides(x: int, y: int, p: nat)
    requires x < y
    ensures x * p + p <= y * p
  {
    ProductMonotone(x + 1, y, p);
    assert (x + 1) * p == x * p + p;
  }

  /** Which of two differing words comes first is what comparing them swapped says. */
  lemma SwappedOrder(s: seq<byte>, t: seq<byte>)
    requires |s| == |t| == 8
    ensures ByteSwap64(LittleEndian(s)) < ByteSwap64(LittleEndian(t)) <==> LexCompare(s, t) < 0
  {
    BytesOfWord(s);
    BytesOfWord(t);
    BigEndianOrder(s, t);
  }

  /** Equal beginnings do not matter. */
  lemma {:induction false} LexDropsEqual(a: seq<byte>, b: seq<byte>, k: nat)
    requires k <= |a| && k <= |b| && a[..k] == b[..k]
    ensures LexCompare(a, b) == LexCompare(a[k..], b[k..])
    decreases k
  {
    if k > 0 {
      assert a[0] == a[..k][0] == b[..k][0] == b[0];
      assert a[1..][..k - 1] == a[..k][1..] && b[1..][..k - 1] == b[..k][1..];
      LexDropsEqual(a[1..], b[1..], k - 1);
      assert a[1..][k - 1..] == a[k..] && b[1..][k - 1..] == b[k..];
    } else {
      assert a[0..] == a && b[0..] == b;
    }
  }

  /** Differing beginnings of one length decide. */
  lemma {:induction false} LexPrefixDecides(a: seq<byte>, b: seq<byte>, k: nat)
    requires k <= |a| && k <= |b| && a[..k] != b[..k]
    ensures LexCompare(a, b) == LexCompare(a[..k], b[..k]) != 0
    decreases k
  {
    assert k > 0;
    var s, t := a[..k], b[..k];
    LexZeroIsEqual(s, t);
    if a[0] == b[0] {
      assert s[1..] == a[1..][..k - 1] && t[1..] == b[1..][..k - 1];
      assert s == [s[0]] + s[1..] && t == [t[0]] + t[1..];
      LexPrefixDecides(a[1..], b[1..], k - 1);
    }
  }

  /** `string::compare`. */
  method Compare(a: seq<byte>, b: seq<byte>) returns (r: int)
    ensures r == LexCompare(a, b)
  {
    hide LexCompare, LittleEndian, ByteSwap64;
    var n := if |a| < |b| then |a| else |b|;
    var i := 0;
    while i + 8 <= n
      invariant 0 <= i <= n && a[..i] == b[..i]
    {
      var x, y := LittleEndian(a[i..i + 8]), LittleEndian(b[i..i + 8]);
      WordsEqual(a[i..i + 8], b[i..i + 8]);
      if x != y {
        SwappedOrder(a[i..i + 8], b[i..i + 8]);
        WordDecides(a, b, i, 8);
        return if ByteSwap64(x) < ByteSwap64(y) then -1 else 1;
      }
      assert a[..i + 8] == a[..i] + a[i..i + 8] && b[..i + 8] == b[..i] + b[i..i + 8];
      i := i + 8;
    }
    while i < n
      invariant 0 <= i <= n && a[..i] == b[..i]
    {
      if a[i] != b[i] {
        ByteDecides(a, b, i);
        return if a[i] < b[i] then -1 else 1;
      }
      assert a[..i + 1] == a[..i] + [a[i]] && b[..i + 1] == b[..i] + [b[i]];
      i := i + 1;
    }
    PrefixDecides(a, b, n);
    if |a| != |b| {
      return if |a| < |b| then -1 else 1;
    }
    return 0;
  }

  lemma {:induction false} LexSign(a: seq<byte>, b: seq<byte>)
    ensures LexCompare(a, b) == -1 || LexCompare(a, b) == 0 || LexCompare(a, b) == 1
    decreases |a|
  {
    if a != [] && b != [] {
      LexSign(a[1..], b[1..]);
    }
  }

  lemma WordDecides(a: seq<byte>, b: seq<byte>, i: nat, w: nat)
    requires i + w <= |a| && i + w <= |b| && a[..i] == b[..i] && a[i..i + w] != b[i..i + w]
    ensures LexCompare(a, b) == if LexCompare(a[i..i + w], b[i..i + w]) < 0 then -1 else 1
  {
    LexDropsEqual(a, b, i);
    assert a[i..][..w] == a[i..i + w] && b[i..][..w] == b[i..i + w];
    LexPrefixDecides(a[i..], b[i..], w);
    LexSign(a, b);
  }

  lemma ByteDecides(a: seq<byte>, b: seq<byte>, i: nat)
    requires i < |a| && i < |b| && a[..i] == b[..i] && a[i] != b[i]
    ensures LexCompare(a, b) == if a[i] < b[i] then -1 else 1
  {
    LexDropsEqual(a, b, i);
  }

  lemma PrefixDecides(a: seq<byte>, b: seq<byte>, n: nat)
    requires n == (if |a| < |b| then |a| else |b|) && a[..n] == b[..n]
    ensures LexCompare(a, b) == if |a| == |b| then 0 else if |a| < |b| then -1 else 1
  {
    LexDropsEqual(a, b, n);
  }

  /** `string::operator==`: words, then two overlapping half words, or single bytes. */
  method Equal(a: seq<byte>, b: seq<byte>) returns (r: bool)
    ensures r <==> a == b
    ensures r <==> LexCompare(a, b) == 0
  {
    hide LexCompare, LittleEndian;
    LexZeroIsEqual(a, b);
    if |a| != |b| {
      return false;
    }
    var at, n := 0, |a|;
    while n >= 8
      invariant 0 <= n && at + n == |a| && a[..at] == b[..at]
    {
      WordsEqual(a[at..at + 8], b[at..at + 8]);
      if LittleEndian(a[at..at + 8]) != LittleEndian(b[at..at + 8]) {
        return false;
      }
      assert a[..at + 8] == a[..at] + a[at..at + 8] && b[..at + 8] == b[..at] + b[at..at + 8];
      at, n := at + 8, n - 8;
    }
    if n >= 4 {
      WordsEqual(a[at..at + 4], b[at..at + 4]);
      WordsEqual(a[at + n - 4..at + n], b[at + n - 4..at + n]);
      r := LittleEndian(a[at..at + 4]) == LittleEndian(b[at..at + 4])
        && LittleEndian(a[at + n - 4..at + n]) == LittleEndian(b[at + n - 4..at + n]);
      OverlapCovers(a, b, at, n);
      return;
    }
    var i := 0;
    while i < n
      invariant 0 <= i <= n && a[..at + i] == b[..at + i]
    {
      if a[at + i] != b[at + i] {
        return false;
      }
      assert a[..at + i + 1] == a[..at + i] + [a[at + i]] && b[..at + i + 1] == b[..at + i] + [b[at + i]];
      i := i + 1;
    }
    assert a[..|a|] == a && b[..|b|] == b;
    return true;
  }

  lemma OverlapCovers(a: seq<byte>, b: seq<byte>, at: nat, n: nat)
    requires |a| == |b| == at + n && 4 <= n <= 8 && a[..at] == b[..at]
    ensures a == b <==> a[at..at + 4] == b[at..at + 4] && a[at + n - 4..at + n] == b[at + n - 4..at + n]
  {
    if a[at..at + 4] == b[at..at + 4] && a[at + n - 4..at + n] == b[at + n - 4..at + n] {
      forall k | 0 <= k < |a|
        ensures a[k] == b[k]
      {
        if k < at {
          assert a[..at][k] == b[..at][k];
        } else if k < at + 4 {
          assert a[at..at + 4][k - at] == b[at..at + 4][k - at];
        } else {
          assert a[at + n - 4..at + n][k - (at + n - 4)] == b[at + n - 4..at + n][k - (at + n - 4)];
        }
      }
    }
  }
}
