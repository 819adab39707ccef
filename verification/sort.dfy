/** `sort` of algorithm.hpp: a whole-range run is recognised first, anything else
    goes to introsort. */
module Sorting {
  import opened Ordering
  import opened Logarithm
  import opened HeapSorts
  import opened Partitions
  import opened Introsorts

  /** s with the stretch [lo, hi) turned round. */
  ghost function Reversed<T>(s: seq<T>, lo: int, hi: int): seq<T>
    requires 0 <= lo <= hi <= |s|
  {
    seq(|s|, k requires 0 <= k < |s| => if lo <= k < hi then s[lo + hi - 1 - k] else s[k])
  }

  /** Turned round at both ends only: outside [f, l). */
  ghost function EndsReversed<T>(s: seq<T>, lo: int, hi: int, f: int, l: int): seq<T>
    requires 0 <= lo <= f && l <= hi <= |s|
  {
    seq(|s|, k requires 0 <= k < |s| =>
      if lo <= k < hi && (k < f || l <= k) then s[lo + hi - 1 - k] else s[k])
  }

  lemma ReverseStep<T>(s: seq<T>, lo: int, hi: int, f: int, l: int)
    requires 0 <= lo <= f < l - 1 < hi <= |s| && f - lo == hi - l
    ensures Swapped(EndsReversed(s, lo, hi, f, l), f, l - 1) == EndsReversed(s, lo, hi, f + 1, l - 1)
  {
  }

  lemma ReverseEnds<T>(s: seq<T>, lo: int, hi: int, f: int, l: int)
    requires 0 <= lo <= hi <= |s|
    ensures EndsReversed(s, lo, hi, lo, hi) == s
    ensures lo <= f && l <= hi && f - lo == hi - l && l <= f + 1 ==> EndsReversed(s, lo, hi, f, l) == Reversed(s, lo, hi)
  {
  }

  method Reverse<T>(a: array<T>, first: nat, last: nat)
    requires first <= last <= a.Length
    modifies a
    ensures a[..] == Reversed(old(a[..]), first, last)
    ensures Rearranged(old(a[..]), a[..], first, last)
  {
    hide Reversed, EndsReversed, Swapped, Rearranged;
    ghost var s0, s := a[..], a[..];
    var f, l := first, last;
    ReverseEnds(s0, first, last, f, l);
    Unmoved(s, first, last);
    while f < l
      invariant Bounds(first, f, l, last) || (f == l + 1 && first < f)
      invariant f - first == last - l && s == a[..]
      invariant s == EndsReversed(s0, first, last, f, l)
      invariant Rearranged(s0, s, first, last)
    {
      if f == l - 1 {
        break;
      }
      ReverseStep(s0, first, last, f, l);
      RearrangedSwap(s, f, l - 1, first, last);
      RearrangedTransitive(s0, s, Swapped(s, f, l - 1), first, last);
      Swap(a, f, l - 1);
      s, f, l := a[..], f + 1, l - 1;
    }
    ReverseEnds(s0, first, last, f, l);
  }

  /** The run s[lo..hi) goes strictly down (`falling`) or never down, neighbour by neighbour. */
  ghost predicate Run<T>(comp: Comparator<T>, s: seq<T>, lo: int, hi: int, falling: bool)
    requires 0 <= lo <= hi <= |s|
  {
    forall k :: lo < k < hi ==> comp.Lt(s[k], s[k - 1]) == falling
  }

  lemma RisingRunSorted<T(!new)>(comp: Comparator<T>, s: seq<T>, lo: int, hi: int)
    requires StrictWeakOrder(comp) && 0 <= lo <= hi <= |s| && Run(comp, s, lo, hi, false)
    ensures Sorted(comp, s, lo, hi)
  {
    SortedFromNeighbours(comp, s, lo, hi);
  }

  lemma FallingRunSortsReversed<T(!new)>(comp: Comparator<T>, s: seq<T>, lo: int, hi: int)
    requires StrictWeakOrder(comp) && 0 <= lo <= hi <= |s| && Run(comp, s, lo, hi, true)
    ensures Sorted(comp, Reversed(s, lo, hi), lo, hi)
  {
    hide StrictWeakOrder;
    var t := Reversed(s, lo, hi);
    forall k | lo < k < hi
      ensures !comp.Lt(t[k], t[k - 1])
    {
      var j := lo + hi - k;
      assert t[k] == s[j - 1] && t[k - 1] == s[j];
      Asymmetric(comp, s[j], s[j - 1]);
    }
    SortedFromNeighbours(comp, t, lo, hi);
  }

  /** Where the run that starts at `first` stops. */
  method RunEnd<T>(a: array<T>, first: nat, last: nat, order: Order<T>, falling: bool) returns (p: nat)
    requires first < last <= a.Length
    modifies order
    ensures first < p <= last && Run(order.comp, a[..], first, p, falling)
    ensures p < last ==> order.comp.Lt(a[p], a[p - 1]) != falling
    ensures old(order.calls) <= order.calls < old(order.calls) + (last - first)
  {
    p := first + 1;
    while p != last
      invariant first < p <= last && order.calls == old(order.calls) + (p - first - 1)
      invariant Run(order.comp, a[..], first, p, falling)
      decreases last - p
    {
      var below := order.Below(a[p], a[p - 1]);
      if below != falling {
        return;
      }
      p := p + 1;
    }
  }

  const LONG_MAX := 0x7FFF_FFFF

  /** The value of a pointer difference stored in a 32-bit `long`. */
  function AsLong(x: int): (l: int)
    ensures 0 <= x <= LONG_MAX ==> l == x
    ensures 0 <= x ==> l <= x
  {
    (x + 0x8000_0000) % 0x1_0000_0000 - 0x8000_0000
  }

  /** A range of 2^31 elements and more, up to 2^32, gets no depth at all: unless it is a single run it
      goes to the heapsort at once, which then has more nodes than its leaf test can tell apart. */
  lemma LongRangesHaveNoDepth(n: nat)
    requires HALF_UNSIGNED <= n < 2 * HALF_UNSIGNED
    ensures AsLong(n) < 0
    ensures n > HALF_UNSIGNED ==> exists root: nat :: root < n && !TestsLeaf(n, root)
  {
    LeavesAreKnown(n);
  }

  /** The range is one run exactly when the scan from its first pair comes to its end. */
  lemma RunsWhole<T>(comp: Comparator<T>, s: seq<T>, first: int, p: int, last: int, falling: bool)
    requires 0 <= first && first + 1 < last <= |s| && first < p <= last && falling == comp.Lt(s[first + 1], s[first])
    requires Run(comp, s, first, p, falling) && (p < last ==> comp.Lt(s[p], s[p - 1]) != falling)
    ensures Run(comp, s, first, last, falling) <==> p == last
    ensures !Run(comp, s, first, last, !falling)
  {
  }

  /** The whole range is sorted, in at most 22 n (log2 n + 1) comparisons.  A range in order is left as it
      is and one that falls strictly is turned round, in n of them. */
  method Sort<T(!new)>(a: array<T>, first: nat, last: nat, order: Order<T>)
    requires first <= last <= a.Length && last - first <= HALF_UNSIGNED && StrictWeakOrder(order.comp)
    modifies a, order
    ensures Sorted(order.comp, a[..], first, last)
    ensures Rearranged(old(a[..]), a[..], first, last)
    ensures old(order.calls) <= order.calls <= old(order.calls) + SortCost(last - first)
    ensures Run(order.comp, old(a[..]), first, last, false) ==>
              a[..] == old(a[..]) && order.calls <= old(order.calls) + (last - first)
    ensures last - first > 1 && Run(order.comp, old(a[..]), first, last, true) ==>
              a[..] == Reversed(old(a[..]), first, last) && order.calls <= old(order.calls) + (last - first)
  {
    hide StrictWeakOrder, Sorted, Rearranged, Reversed, Budget, Log2Floor, Run, SortCost;
    ghost var n, s, comp := last - first, a[..], order.comp;
    Unmoved(s, first, last);
    if last - first > 1 {
      var falling := order.Below(a[first + 1], a[first]);
      var p := RunEnd(a, first, last, order, falling);
      assert s == a[..];
      ghost var c: nat := order.calls - old(order.calls);
      RunsWhole(comp, s, first, p, last, falling);
      if p == last {
        if falling {
          FallingRunSortsReversed(comp, s, first, last);
          Reverse(a, first, last);
        } else {
          RisingRunSorted(comp, s, first, last);
        }
        SortBudget(n, 0, c);
      } else {
        var depth := ILog2(AsLong(last - first));
        Log2FloorMonotone(if AsLong(n) < 0 then 0 else AsLong(n), n);
        SortBudget(n, depth, c);
        Introsort(a, first, last, 2 * depth, order, true, Log2Floor(n), Log2Floor(n));
      }
    } else {
      StartSorting(comp, s, first, last, last);
    }
  }

  /** The worst case: 22 n (log2 n + 1) comparisons. */
  ghost function SortCost(n: nat): nat {
    22 * (n * (Log2Floor(n) + 1))
  }

  lemma SortBudget(n: nat, depth: nat, scanned: nat)
    requires 2 <= n && depth <= Log2Floor(n) && scanned <= n + 1
    ensures scanned + Budget(n, 2 * depth, Log2Floor(n), false) <= SortCost(n)
    ensures scanned <= SortCost(n)
  {
    var w := Log2Floor(n) + 1;
    var r := Rate(2 * depth, Log2Floor(n), false);
    assert r + 14 <= 22 * w;
    SortProducts(n, w, r);
  }

  lemma SortProducts(n: nat, w: nat, r: nat)
    requires r + 14 <= 22 * w && 2 <= n
    ensures n * r + n + 1 <= 22 * (n * w)
  {
    ProductMonotone(r + 14, 22 * w, n);
    assert (r + 14) * n == n * r + 14 * n;
    assert (22 * w) * n == 22 * (n * w);
  }
}
