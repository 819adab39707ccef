/** The heapsort backstop of algorithm.hpp. */
module HeapSorts {
  import opened Ordering
  import opened Logarithm

  /** Index, in the whole array, of the parent of node q of the heap rooted at first. */
  ghost function Parent(first: int, q: int): int {
    first + (q - first - 1) / 2
  }

  /** Every node below `end` whose parent is at or after `from` is no larger than its parent. */
  ghost predicate HeapFrom<T>(comp: Comparator<T>, s: seq<T>, first: int, end: int, from: int)
    requires 0 <= first <= end <= |s|
  {
    forall q :: first < q < end && from <= Parent(first, q) ==> !comp.Lt(s[Parent(first, q)], s[q])
  }

  /** The same with node r allowed to be too small for its place: its children still
      fit under its parent. */
  ghost predicate HeapButFor<T>(comp: Comparator<T>, s: seq<T>, first: int, end: int, from: int, r: int)
    requires 0 <= first <= end <= |s|
  {
    && (forall q :: first < q < end && from <= Parent(first, q) != r ==> !comp.Lt(s[Parent(first, q)], s[q]))
    && (forall q :: first < q < end && Parent(first, q) == r && first < r && from <= Parent(first, r)
          ==> !comp.Lt(s[Parent(first, r)], s[q]))
  }

  /** c is a child of r that its sibling, if there is one, is not above. */
  ghost predicate LargerChild<T>(comp: Comparator<T>, s: seq<T>, first: int, end: int, r: int, c: int)
    requires 0 <= first <= r < end <= |s|
  {
    && first < c < end && Parent(first, c) == r
    && (forall q :: first < q < end && Parent(first, q) == r ==> !comp.Lt(s[c], s[q]))
  }

  lemma SwapDown<T(!new)>(comp: Comparator<T>, s: seq<T>, first: int, end: int, from: int, r: int, c: int)
    requires StrictWeakOrder(comp) && 0 <= first <= from <= r < end <= |s|
    requires HeapButFor(comp, s, first, end, from, r)
    requires LargerChild(comp, s, first, end, r, c) && comp.Lt(s[r], s[c])
    ensures HeapButFor(comp, Swapped(s, r, c), first, end, from, c)
  {
    hide StrictWeakOrder;
    var t := Swapped(s, r, c);
    forall q | first < q < end && from <= Parent(first, q) != c
      ensures !comp.Lt(t[Parent(first, q)], t[q])
    {
      if q == c {
        Asymmetric(comp, s[r], s[c]);
      }
    }
  }

  lemma StopSifting<T(!new)>(comp: Comparator<T>, s: seq<T>, first: int, end: int, from: int, r: int, c: int)
    requires StrictWeakOrder(comp) && 0 <= first <= from <= r < end <= |s|
    requires HeapButFor(comp, s, first, end, from, r)
    requires LargerChild(comp, s, first, end, r, c) && !comp.Lt(s[r], s[c])
    ensures HeapFrom(comp, s, first, end, from)
  {
    hide StrictWeakOrder;
    forall q | first < q < end && from <= Parent(first, q)
      ensures !comp.Lt(s[Parent(first, q)], s[q])
    {
      if Parent(first, q) == r {
        NotBelowTransitive(comp, s[q], s[c], s[r]);
      }
    }
  }

  lemma {:induction false} RootIsLargest<T(!new)>(comp: Comparator<T>, s: seq<T>, first: int, end: int, q: int)
    requires StrictWeakOrder(comp) && 0 <= first <= q < end <= |s|
    requires HeapFrom(comp, s, first, end, first)
    ensures !comp.Lt(s[first], s[q])
    decreases q
  {
    if q == first {
      Irreflexive(comp, s[first]);
    } else {
      RootIsLargest(comp, s, first, end, Parent(first, q));
      NotBelowTransitive(comp, s[q], s[Parent(first, q)], s[first]);
    }
  }

  /** The value of an int stored in a 32-bit unsigned. */
  function Unsigned(x: int): (u: nat)
    ensures 0 <= x < 0x1_0000_0000 ==> u == x
  {
    x % 0x1_0000_0000
  }

  const HALF_UNSIGNED := 0x8000_0000

  /** The test for a leaf, whose child index is computed in 32 bits. */
  predicate TestsLeaf(n: nat, root: nat) {
    Unsigned(2 * root + 1) >= n <==> 2 * root + 1 >= n
  }

  /** It is right at every node if and only if the heap has at most 2^31 elements.  In a larger one the
      child index of a leaf wraps round to a node near the root. */
  lemma LeavesAreKnown(n: nat)
    requires n < 2 * HALF_UNSIGNED
    ensures (forall root: nat :: root < n ==> TestsLeaf(n, root)) <==> n <= 0x8000_0000
  {
    if n > HALF_UNSIGNED {
      assert !TestsLeaf(n, HALF_UNSIGNED);
    } else {
      forall root: nat | root < n
        ensures TestsLeaf(n, root)
      {
        assert Unsigned(2 * root + 1) == 2 * root + 1;
      }
    }
  }

  lemma StartSifting<T(!new)>(comp: Comparator<T>, s: seq<T>, first: int, end: int, r: int)
    requires 0 <= first <= r < end <= |s| && HeapFrom(comp, s, first, end, r + 1)
    ensures HeapButFor(comp, s, first, end, r, r)
  {
  }

  lemma NoChildLeft<T(!new)>(comp: Comparator<T>, s: seq<T>, first: int, end: int, from: int, r: int)
    requires 0 <= first <= r < end <= |s| && HeapButFor(comp, s, first, end, from, r)
    requires end <= first + 2 * (r - first) + 1
    ensures HeapFrom(comp, s, first, end, from)
  {
  }

  method SiftDown<T(!new)>(a: array<T>, first: nat, root0: nat, n: nat, order: Order<T>)
    requires root0 < n <= HALF_UNSIGNED && first + n <= a.Length && StrictWeakOrder(order.comp)
    requires HeapFrom(order.comp, a[..], first, first + n, first + root0 + 1)
    modifies a, order
    ensures HeapFrom(order.comp, a[..], first, first + n, first + root0)
    ensures Rearranged(old(a[..]), a[..], first, first + n)
    ensures old(order.calls) <= order.calls <= old(order.calls) + 2 * Log2Floor(n)
  {
    hide StrictWeakOrder, Rearranged, LargerChild, HeapFrom, HeapButFor, Parent, Log2Floor, Swapped, LevelsFrom, Unsigned;
    ghost var comp, c0 := order.comp, order.calls;
    var root := root0;
    ghost var s0, s := a[..], a[..];
    ghost var end, from := first + n, first + root0;
    var r := first + root;
    StartSorting(comp, s, first, first, end);
    StartSifting(comp, s, first, end, r);
    LevelsBelow(n, root);
    while true
      invariant root0 <= root < n && s == a[..] && r == first + root
      invariant HeapButFor(comp, s, first, end, from, r)
      invariant Rearranged(s0, s, first, end)
      invariant c0 <= order.calls && order.calls + 2 * LevelsFrom(n, root) <= c0 + 2 * Log2Floor(n)
      decreases n - root
    {
      var child := Unsigned(2 * root + 1);
      if child >= n {
        NoChildLeft(comp, s, first, end, from, r);
        break;
      }
      child := LargerOf(a, first, child, n, order);
      assert s == a[..];
      PickedLarger(comp, s, first, end, root, child);
      DescendHalves(n, root, child);
      var c := first + child;
      var below := order.Below(a[r], a[c]);
      assert s == a[..];
      if !below {
        StopSifting(comp, s, first, end, from, r, c);
        break;
      }
      SwapDown(comp, s, first, end, from, r, c);
      RearrangedSwap(s, r, c, first, end);
      RearrangedTransitive(s0, s, Swapped(s, r, c), first, end);
      Swap(a, r, c);
      s := Swapped(s, r, c);
      assert s == a[..];
      root, r := child, c;
    }
  }

  /** The larger of two children, or the only one. */
  method LargerOf<T>(a: array<T>, first: nat, left: nat, n: nat, order: Order<T>) returns (child: nat)
    requires left < n && first + n <= a.Length
    modifies order
    ensures child == left || (child == left + 1 && child < n)
    ensures child == left && left + 1 < n ==> !order.comp.Lt(a[first + left], a[first + left + 1])
    ensures child == left + 1 ==> order.comp.Lt(a[first + left], a[first + left + 1])
    ensures old(order.calls) <= order.calls <= old(order.calls) + 1
  {
    child := left;
    if left + 1 < n {
      var below := order.Below(a[first + left], a[first + left + 1]);
      if below {
        child := left + 1;
      }
    }
  }

  lemma PickedLarger<T(!new)>(comp: Comparator<T>, s: seq<T>, first: int, end: int, root: int, child: int)
    requires StrictWeakOrder(comp) && 0 <= first && 0 <= root && first + child < end <= |s|
    requires child == 2 * root + 1 || child == 2 * root + 2
    requires child == 2 * root + 1 && first + child + 1 < end ==> !comp.Lt(s[first + child], s[first + child + 1])
    requires child == 2 * root + 2 ==> comp.Lt(s[first + child - 1], s[first + child])
    ensures LargerChild(comp, s, first, end, first + root, first + child)
  {
    Irreflexive(comp, s[first + child]);
    if child == 2 * root + 2 {
      Asymmetric(comp, s[first + child - 1], s[first + child]);
    }
  }

  /** How many more levels a descent that has reached `root` can go down. */
  ghost function LevelsFrom(n: nat, root: nat): nat {
    Log2Floor(n / (root + 1))
  }

  lemma LevelsBelow(n: nat, root: nat)
    ensures LevelsFrom(n, root) <= Log2Floor(n)
  {
    ProductMonotone(1, root + 1, n / (root + 1));
    assert (root + 1) * (n / (root + 1)) <= n;
    Log2FloorMonotone(n / (root + 1), n);
  }

  lemma DescendHalves(n: nat, root: nat, child: nat)
    requires child < n && 2 * root + 1 <= child
    ensures LevelsFrom(n, child) + 1 <= LevelsFrom(n, root)
  {
    QuotientHalves(n, root + 1, child + 1);
    Log2FloorMonotone(n / (child + 1), n / (root + 1) / 2);
  }

  lemma LeavesAreHeaps<T(!new)>(comp: Comparator<T>, s: seq<T>, first: int, last: int)
    requires 0 <= first <= last <= |s|
    ensures HeapFrom(comp, s, first, last, first + (last - first) / 2)
  {
  }

  /** What `sifts` descents cost when one costs at most two comparisons a level. */
  ghost function Charge(levels: nat, sifts: nat): nat {
    2 * sifts * levels
  }

  ghost function HeapSortCost(n: nat): nat {
    3 * Log2Floor(n) * n
  }

  lemma ChargeStep(levels: nat, sifts: nat)
    ensures Charge(levels, 0) == 0
    ensures Charge(levels, sifts + 1) == Charge(levels, sifts) + 2 * levels
  {
  }

  lemma ChargeMore(levels: nat, sifts: nat, more: nat)
    requires sifts <= more
    ensures Charge(levels, sifts) <= Charge(levels, more)
  {
    ProductMonotone(2 * sifts, 2 * more, levels);
  }

  lemma ChargeBound(n: nat)
    ensures Charge(Log2Floor(n), n / 2) + Charge(Log2Floor(n), n) <= HeapSortCost(n)
  {
    var levels := Log2Floor(n);
    hide Log2Floor;
    assert 2 * (n / 2) * levels + 2 * n * levels == (2 * (n / 2) + 2 * n) * levels;
    ProductMonotone(2 * (n / 2) + 2 * n, 3 * n, levels);
    ThreeFold(n, levels);
  }

  lemma ThreeFold(n: nat, levels: nat)
    ensures 3 * n * levels == 3 * levels * n
  {
  }

  method HeapSort<T(!new)>(a: array<T>, first: nat, last: nat, order: Order<T>)
    requires first <= last <= a.Length && last - first <= HALF_UNSIGNED && StrictWeakOrder(order.comp)
    modifies a, order
    ensures Sorted(order.comp, a[..], first, last)
    ensures Rearranged(old(a[..]), a[..], first, last)
    ensures old(order.calls) <= order.calls <= old(order.calls) + HeapSortCost(last - first)
  {
    hide StrictWeakOrder, Rearranged, Sorted, HeapFrom, Log2Floor, Charge, HeapSortCost, Unsigned;
    ghost var s0 := a[..];
    var n := Unsigned(last - first);
    MakeHeap(a, first, last, n, order);
    ghost var s := a[..];
    EmptyHeap(a, first, last, n, order);
    RearrangedTransitive(s0, s, a[..], first, last);
    ChargeBound(n);
  }

  /** Every inner node is sifted, from the last one up. */
  method MakeHeap<T(!new)>(a: array<T>, first: nat, last: nat, n: nat, order: Order<T>)
    requires n == last - first && last <= a.Length && n <= HALF_UNSIGNED && StrictWeakOrder(order.comp)
    modifies a, order
    ensures HeapFrom(order.comp, a[..], first, last, first)
    ensures Rearranged(old(a[..]), a[..], first, last)
    ensures old(order.calls) <= order.calls <= old(order.calls) + Charge(Log2Floor(n), n / 2)
  {
    hide StrictWeakOrder, Rearranged, HeapFrom, Parent, Log2Floor, Charge, Unsigned;
    ghost var comp, c0, levels := order.comp, order.calls, Log2Floor(n);
    ghost var s0, s := a[..], a[..];
    ghost var sifts: nat := 0;
    ChargeStep(levels, 0);
    Unmoved(s, first, last);
    LeavesAreHeaps(comp, s, first, last);
    var i := n / 2;
    ghost var from := first + i;
    while i > 0
      invariant 0 <= i && i + sifts == n / 2 && from == first + i && s == a[..]
      invariant HeapFrom(comp, s, first, last, from)
      invariant Rearranged(s0, s, first, last)
      invariant c0 <= order.calls <= c0 + Charge(levels, sifts)
    {
      i, from := i - 1, from - 1;
      SiftDown(a, first, i, n, order);
      RearrangedTransitive(s0, s, a[..], first, last);
      s := a[..];
      ChargeStep(levels, sifts);
      sifts := sifts + 1;
    }
  }

  /** The largest element goes behind the heap, until one is left. */
  method EmptyHeap<T(!new)>(a: array<T>, first: nat, last: nat, n: nat, order: Order<T>)
    requires n == last - first && last <= a.Length && n <= HALF_UNSIGNED && StrictWeakOrder(order.comp)
    requires HeapFrom(order.comp, a[..], first, last, first)
    modifies a, order
    ensures Sorted(order.comp, a[..], first, last)
    ensures Rearranged(old(a[..]), a[..], first, last)
    ensures old(order.calls) <= order.calls <= old(order.calls) + Charge(Log2Floor(n), n)
  {
    hide StrictWeakOrder, Rearranged, Sorted, Framed, HeapFrom, Parent, Log2Floor, Swapped, Charge, Unsigned;
    ghost var comp, c0, levels := order.comp, order.calls, Log2Floor(n);
    ghost var s0, s := a[..], a[..];
    ghost var sifts: nat := 0;
    ChargeStep(levels, 0);
    Unmoved(s, first, last);
    FramedWhole(comp, s, first, last);
    var end := n;
    var e := last;
    while end > 1
      invariant 0 <= end <= n && sifts + end == n && e == first + end && s == a[..]
      invariant HeapFrom(comp, s, first, e, first)
      invariant Framed(comp, s, first, first, e, last)
      invariant Rearranged(s0, s, first, last)
      invariant c0 <= order.calls <= c0 + Charge(levels, sifts)
    {
      end, e := end - 1, e - 1;
      ghost var t := Swapped(s, first, e);
      MoveLargestLast(comp, s, first, e, last);
      RearrangedSwap(s, first, e, first, last);
      Swap(a, first, e);
      assert t == a[..];
      SiftDown(a, first, 0, end, order);
      SiftedRest(comp, s0, s, t, a[..], first, e, last);
      s := a[..];
      Log2FloorMonotone(end, n);
      ChargeStep(levels, sifts);
      sifts := sifts + 1;
    }
    StartSorting(comp, s, first, e, last);
    FramedSorted(comp, s, first, first, e, last);
    ChargeMore(levels, sifts, n);
  }

  lemma SiftedRest<T(!new)>(comp: Comparator<T>, s0: seq<T>, s: seq<T>, t: seq<T>, u: seq<T>,
                            first: int, end: int, last: int)
    requires 0 <= first <= end <= last <= |s0|
    requires Rearranged(s0, s, first, last) && Rearranged(s, t, first, last)
    requires Rearranged(t, u, first, end) && Framed(comp, t, first, first, end, last)
    ensures Rearranged(s0, u, first, last) && Framed(comp, u, first, first, end, last)
  {
    FramedRearranged(comp, t, u, first, first, end, last);
    RearrangedWiden(t, u, first, end, first, last);
  }

  lemma FramedWhole<T(!new)>(comp: Comparator<T>, s: seq<T>, first: int, last: int)
    requires 0 <= first <= last <= |s|
    ensures Framed(comp, s, first, first, last, last)
  {
  }

  lemma MoveLargestLast<T(!new)>(comp: Comparator<T>, s: seq<T>, first: int, end: int, hi: int)
    requires StrictWeakOrder(comp) && 0 <= first < end < hi <= |s|
    requires HeapFrom(comp, s, first, end + 1, first)
    requires Framed(comp, s, first, first, end + 1, hi)
    ensures
      var t := Swapped(s, first, end);
      Framed(comp, t, first, first, end, hi) && HeapFrom(comp, t, first, end, first + 1)
  {
    hide StrictWeakOrder;
    var t := Swapped(s, first, end);
    forall i, j | first <= i < j < hi && end <= j
      ensures !comp.Lt(t[j], t[i])
    {
      if j == end {
        RootIsLargest(comp, s, first, end + 1, if i == first then end else i);
      }
    }
  }
}
