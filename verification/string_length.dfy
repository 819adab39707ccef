/** The length of a zero-terminated string, eight bytes per step
    (mcp/hexport/src/kstl/string.hpp, lines 14-48). */
module StringLength {

  /** Readable memory comes in whole pages, and the index of a byte is its address. */
  const PAGE := 4096

  const UNSIGNED := 0x1_0000_0000

  datatype CString = Null | At(address: nat)

  predicate WholePages(size: nat) { size % PAGE == 0 }

  predicate Aligned(p: nat) { p % 8 == 0 }

  /** A cast to a 32-bit unsigned. */
  function Narrow(x: nat): nat { x % UNSIGNED }

  predicate IsTerminator(mem: seq<bv8>, a: nat, t: nat) {
    a <= t < |mem| && mem[t] == 0 && forall k :: a <= k < t ==> mem[k] != 0
  }

  ghost predicate Terminated(mem: seq<bv8>, s: CString) {
    s.At? ==> exists t :: s.address <= t < |mem| && mem[t] == 0
  }

  // -----------------------------------------------------------------------
  // One word
  // -----------------------------------------------------------------------

  /** Eight bytes as the little-endian word a load gives. */
  function Load(b: seq<bv8>): bv64
    requires |b| == 8
  {
    (b[0] as bv64) | ((b[1] as bv64) << 8) | ((b[2] as bv64) << 16) | ((b[3] as bv64) << 24)
    | ((b[4] as bv64) << 32) | ((b[5] as bv64) << 40) | ((b[6] as bv64) << 48) | ((b[7] as bv64) << 56)
  }

  /** The word-wide zero test. */
  function ZeroMarks(v: bv64): bv64 {
    (v - 0x0101_0101_0101_0101) & !v & 0x8080_8080_8080_8080
  }

  /** The bits of byte k. */
  function Mask(k: nat): bv64
    requires k < 8
  {
    match k
    case 0 => 0xFF
    case 1 => 0xFF00
    case 2 => 0xFF_0000
    case 3 => 0xFF00_0000
    case 4 => 0xFF_0000_0000
    case 5 => 0xFF00_0000_0000
    case 6 => 0xFF_0000_0000_0000
    case 7 => 0xFF00_0000_0000_0000
  }

  predicate IsZero(v: bv64, k: nat)
    requires k < 8
  {
    v & Mask(k) == 0
  }

  predicate IsOne(v: bv64, k: nat)
    requires k < 8
  {
    v & Mask(k) == 0x0101_0101_0101_0101 & Mask(k)
  }

  /** The word test left a bit in byte k. */
  predicate Marked(v: bv64, k: nat)
    requires k < 8
  {
    !IsZero(ZeroMarks(v), k)
  }

  /** The byte of the lowest set bit at or above byte k, 8 when there is none: the bit scan followed by
      the shift by three. */
  function LowestByte(z: bv64, k: nat): (r: nat)
    requires k <= 8
    ensures k <= r <= 8
    decreases 8 - k
  {
    if k == 8 || !IsZero(z, k) then k else LowestByte(z, k + 1)
  }

  /** The first zero byte of eight bytes; 8 when there is none. */
  function FirstZero(b: seq<bv8>): (k: nat)
    ensures k <= |b|
    ensures k < |b| ==> b[k] == 0
    ensures forall j :: 0 <= j < k ==> b[j] != 0
  {
    if |b| == 0 || b[0] == 0 then 0 else 1 + FirstZero(b[1..])
  }

  // Byte by byte: a byte is marked when it is zero, or when it is one and the marked byte below it
  // borrowed from it.

  lemma Mark0(v: bv64) ensures Marked(v, 0) <==> IsZero(v, 0) {}

  lemma Mark1(v: bv64) ensures Marked(v, 1) <==> IsZero(v, 1) || (IsOne(v, 1) && Marked(v, 0)) {}

  lemma Mark2(v: bv64) ensures Marked(v, 2) <==> IsZero(v, 2) || (IsOne(v, 2) && Marked(v, 1)) {}

  lemma Mark3(v: bv64) ensures Marked(v, 3) <==> IsZero(v, 3) || (IsOne(v, 3) && Marked(v, 2)) {}

  lemma Mark4(v: bv64) ensures Marked(v, 4) <==> IsZero(v, 4) || (IsOne(v, 4) && Marked(v, 3)) {}

  lemma Mark5(v: bv64) ensures Marked(v, 5) <==> IsZero(v, 5) || (IsOne(v, 5) && Marked(v, 4)) {}

  lemma Mark6(v: bv64) ensures Marked(v, 6) <==> IsZero(v, 6) || (IsOne(v, 6) && Marked(v, 5)) {}

  lemma Mark7(v: bv64) ensures Marked(v, 7) <==> IsZero(v, 7) || (IsOne(v, 7) && Marked(v, 6)) {}

  lemma MarkIs(v: bv64, k: nat)
    requires k < 8
    ensures Marked(v, k) <==> IsZero(v, k) || (k > 0 && IsOne(v, k) && Marked(v, k - 1))
  {
    hide Marked, IsZero, IsOne;
    match k {
      case 0 => Mark0(v);
      case 1 => Mark1(v);
      case 2 => Mark2(v);
      case 3 => Mark3(v);
      case 4 => Mark4(v);
      case 5 => Mark5(v);
      case 6 => Mark6(v);
      case 7 => Mark7(v);
    }
  }

  lemma ZeroNotOne(v: bv64, k: nat)
    requires k < 8
    ensures !(IsZero(v, k) && IsOne(v, k))
  {
  }

  lemma AllBytesZero(z: bv64)
    requires IsZero(z, 0) && IsZero(z, 1) && IsZero(z, 2) && IsZero(z, 3)
    requires IsZero(z, 4) && IsZero(z, 5) && IsZero(z, 6) && IsZero(z, 7)
    ensures z == 0
  {
  }

  lemma ZeroIsZero(k: nat)
    requires k < 8
    ensures IsZero(0, k)
  {
  }

  /** The lowest byte is set, and those below it are not. */
  lemma {:induction false} LowestIs(z: bv64, k: nat)
    requires k <= 8
    ensures var r := LowestByte(z, k);
      (r < 8 ==> !IsZero(z, r)) && forall j :: k <= j < r ==> IsZero(z, j)
    decreases 8 - k
  {
    hide IsZero;
    if k < 8 && IsZero(z, k) {
      LowestIs(z, k + 1);
    }
  }

  /** A word has no lowest byte exactly when it is zero. */
  lemma LowestExists(z: bv64)
    ensures LowestByte(z, 0) == 8 <==> z == 0
  {
    hide IsZero;
    LowestIs(z, 0);
    if LowestByte(z, 0) == 8 {
      AllBytesZero(z);
    } else {
      ZeroIsZero(LowestByte(z, 0));
    }
  }

  /** A borrow may mark bytes above the first zero byte, never one below it. */
  lemma MarksFindFirstZero(v: bv64, k: nat)
    requires k <= 8 && (k < 8 ==> IsZero(v, k)) && forall j :: 0 <= j < k ==> !IsZero(v, j)
    ensures ZeroMarks(v) == 0 <==> k == 8
    ensures LowestByte(ZeroMarks(v), 0) == k
  {
    hide ZeroMarks, IsZero, IsOne, Marked;
    forall j | 0 <= j < k
      ensures !Marked(v, j)
    {
      Unmarked(v, j);
    }
    LowestMark(v);
    if k < 8 {
      MarkIs(v, k);
    }
  }

  lemma LowestMark(v: bv64)
    ensures var r := LowestByte(ZeroMarks(v), 0);
      && (r == 8 <==> ZeroMarks(v) == 0) && (r < 8 ==> Marked(v, r))
      && forall j :: 0 <= j < r ==> !Marked(v, j)
  {
    hide ZeroMarks, IsZero;
    LowestIs(ZeroMarks(v), 0);
    LowestExists(ZeroMarks(v));
  }

  lemma {:induction false} Unmarked(v: bv64, k: nat)
    requires k < 8 && forall j :: 0 <= j <= k ==> !IsZero(v, j)
    ensures !Marked(v, k)
  {
    hide IsZero, IsOne, Marked;
    MarkIs(v, k);
    if k > 0 {
      Unmarked(v, k - 1);
    }
  }

  lemma Loaded0(b: seq<bv8>) requires |b| == 8 ensures IsZero(Load(b), 0) <==> b[0] == 0 {}

  lemma Loaded1(b: seq<bv8>) requires |b| == 8 ensures IsZero(Load(b), 1) <==> b[1] == 0 {}

  lemma Loaded2(b: seq<bv8>) requires |b| == 8 ensures IsZero(Load(b), 2) <==> b[2] == 0 {}

  lemma Loaded3(b: seq<bv8>) requires |b| == 8 ensures IsZero(Load(b), 3) <==> b[3] == 0 {}

  lemma Loaded4(b: seq<bv8>) requires |b| == 8 ensures IsZero(Load(b), 4) <==> b[4] == 0 {}

  lemma Loaded5(b: seq<bv8>) requires |b| == 8 ensures IsZero(Load(b), 5) <==> b[5] == 0 {}

  lemma Loaded6(b: seq<bv8>) requires |b| == 8 ensures IsZero(Load(b), 6) <==> b[6] == 0 {}

  lemma Loaded7(b: seq<bv8>) requires |b| == 8 ensures IsZero(Load(b), 7) <==> b[7] == 0 {}

  lemma LoadedByte(b: seq<bv8>, k: nat)
    requires |b| == 8 && k < 8
    ensures IsZero(Load(b), k) <==> b[k] == 0
  {
    hide Load, IsZero;
    match k {
      case 0 => Loaded0(b);
      case 1 => Loaded1(b);
      case 2 => Loaded2(b);
      case 3 => Loaded3(b);
      case 4 => Loaded4(b);
      case 5 => Loaded5(b);
      case 6 => Loaded6(b);
      case 7 => Loaded7(b);
    }
  }

  /** The word test finds the first zero byte of the eight bytes it loads, or says there is none. */
  lemma WordTest(b: seq<bv8>)
    requires |b| == 8
    ensures ZeroMarks(Load(b)) == 0 <==> FirstZero(b) == 8
    ensures LowestByte(ZeroMarks(Load(b)), 0) == FirstZero(b)
  {
    hide Load, ZeroMarks, IsZero;
    forall k | 0 <= k < 8
      ensures IsZero(Load(b), k) <==> b[k] == 0
    {
      LoadedByte(b, k);
    }
    MarksFindFirstZero(Load(b), FirstZero(b));
  }

  /** Every mark stands on a zero byte. */
  predicate MarksTrue(v: bv64) {
    forall k :: 0 <= k < 8 && Marked(v, k) ==> IsZero(v, k)
  }

  /** Some byte that is 1 stands directly above one that is 0. */
  predicate OneAboveZero(v: bv64) {
    exists k :: 1 <= k < 8 && IsOne(v, k) && IsZero(v, k - 1)
  }

  /** The marks are right one and all exactly when no byte that is 1 stands on one that is 0: the
      borrow out of the zero byte is what marks the other. */
  lemma MarksTrueExactly(v: bv64)
    ensures MarksTrue(v) <==> !OneAboveZero(v)
  {
    hide IsZero, IsOne, Marked;
    if OneAboveZero(v) {
      var k :| 1 <= k < 8 && IsOne(v, k) && IsZero(v, k - 1);
      MarkIs(v, k - 1);
      MarkIs(v, k);
      ZeroNotOne(v, k);
    } else if !MarksTrue(v) {
      var k :| 0 <= k < 8 && Marked(v, k) && !IsZero(v, k);
      var j := WhereBorrowed(v, k);
    }
  }

  /** Below a byte marked wrongly the bytes are ones, down to a zero. */
  lemma {:induction false} WhereBorrowed(v: bv64, k: nat) returns (j: nat)
    requires k < 8 && Marked(v, k) && !IsZero(v, k)
    ensures 1 <= j <= k && IsOne(v, j) && IsZero(v, j - 1)
  {
    hide IsZero, IsOne, Marked;
    MarkIs(v, k);
    j := k;
    if !IsZero(v, k - 1) {
      j := WhereBorrowed(v, k - 1);
    }
  }

  /** So the marks may only be used from the lowest one up. */
  lemma HigherMarksCanLie()
    ensures ZeroMarks(Load([0, 1, 1, 1, 1, 1, 1, 1])) & 0x8000 != 0
    ensures Load([0, 1, 1, 1, 1, 1, 1, 1]) & 0xFF00 == 0x0100
  {
  }

  // -----------------------------------------------------------------------
  // The scan
  // -----------------------------------------------------------------------

  lemma WordsFillPages(word: nat, pages: nat)
    requires 8 * word < 4096 * pages
    ensures 8 * word + 8 <= 4096 * pages
  {
  }

  /** A word that starts on a boundary before the end of a page ends in the same page. */
  lemma AlignedWordInside(p: nat, end: nat, size: nat)
    requires WholePages(size) && Aligned(p) && p <= end < size
    ensures p + 8 <= size && Aligned(p + 8)
  {
    WordsFillPages(p / 8, size / PAGE);
  }

  /** What the next word says about a scan that has found nothing yet. */
  lemma WordStep(mem: seq<bv8>, a: nat, p: nat)
    requires a <= p && p + 8 <= |mem|
    requires forall k :: a <= k < p ==> mem[k] != 0
    ensures var z := ZeroMarks(Load(mem[p..p + 8]));
      if z == 0 then forall k :: a <= k < p + 8 ==> mem[k] != 0
      else IsTerminator(mem, a, p + LowestByte(z, 0))
  {
    hide ZeroMarks, Load, LowestByte, FirstZero;
    var word := mem[p..p + 8];
    WordTest(word);
    assert forall k :: p <= k < p + 8 ==> mem[k] == word[k - p];
  }

  /** Bytes up to a boundary, words from there on. Every load stays in readable memory, because an
      aligned word never crosses the end of a page. The count wraps at 32 bits as the source's does. */
  method StrLen(mem: seq<bv8>, s: CString) returns (n: nat)
    requires WholePages(|mem|)
    requires Terminated(mem, s)
    ensures s.Null? ==> n == 0
    ensures s.At? ==> forall t: nat :: IsTerminator(mem, s.address, t) ==> n == (t - s.address) % 0x1_0000_0000
    ensures s.At? ==> exists t: nat :: IsTerminator(mem, s.address, t)
  {
    hide ZeroMarks, Load, LowestByte, WholePages, Aligned;
    if s.Null? { return 0; }
    var a := s.address;
    var p := a;
    ghost var end: nat :| a <= end < |mem| && mem[end] == 0;
    while !Aligned(p)
      invariant a <= p <= end
      invariant forall k :: a <= k < p ==> mem[k] != 0
      decreases end - p
    {
      if mem[p] == 0 {
        assert IsTerminator(mem, a, p);
        return Narrow(p - a);
      }
      p := p + 1;
    }
    while true
      invariant a <= p <= end && Aligned(p)
      invariant forall k :: a <= k < p ==> mem[k] != 0
      decreases end - p
    {
      AlignedWordInside(p, end, |mem|);
      WordStep(mem, a, p);
      var z := ZeroMarks(Load(mem[p..p + 8]));
      if z != 0 {
        return Narrow(p - a + LowestByte(z, 0));
      }
      p := p + 8;
    }
  }
}
