/** Pivot selection and the two partitions of algorithm.hpp.  The scan loops of
    the source test no bounds: here every index they read is proved in range. */
module Partitions {
  import opened Ordering

  /** Median of three, selected rather than moved: the index of the sample that is. */
  ghost function Median3<T>(comp: Comparator<T>, s: seq<T>, a: int, b: int, c: int): (m: int)
    requires 0 <= a < |s| && 0 <= b < |s| && 0 <= c < |s|
    ensures m == a || m == b || m == c
  {
    if comp.Lt(s[a], s[b]) then
      if comp.Lt(s[b], s[c]) then b else if comp.Lt(s[a], s[c]) then c else a
    else
      if comp.Lt(s[c], s[b]) then b else if comp.Lt(s[c], s[a]) then c else a
  }

  method PickMedian<T>(a: array<T>, i: nat, j: nat, k: nat, order: Order<T>) returns (m: nat)
    requires i < a.Length && j < a.Length && k < a.Length
    modifies order
    ensures m == Median3(order.comp, a[..], i, j, k)
    ensures old(order.calls) <= order.calls <= old(order.calls) + 3
  {
    var below := order.Below(a[i], a[j]);
    if below {
      below := order.Below(a[j], a[k]);
      if below {
        return j;
      }
      below := order.Below(a[i], a[k]);
      m := if below then k else i;
    } else {
      below := order.Below(a[k], a[j]);
      if below {
        return j;
      }
      below := order.Below(a[k], a[i]);
      m := if below then k else i;
    }
  }

  /** Of three distinct samples, another one is not above the median and another is not below it. */
  lemma MedianIsBetween<T(!new)>(comp: Comparator<T>, s: seq<T>, a: int, b: int, c: int)
    returns (under: int, over: int)
    requires StrictWeakOrder(comp)
    requires 0 <= a < |s| && 0 <= b < |s| && 0 <= c < |s| && a != b && b != c && a != c
    ensures {under, over, Median3(comp, s, a, b, c)} == {a, b, c}
    ensures !comp.Lt(s[Median3(comp, s, a, b, c)], s[under])
    ensures !comp.Lt(s[over], s[Median3(comp, s, a, b, c)])
  {
    LawsAt(comp, s[a], s[b], s[c]);
    var m := Median3(comp, s, a, b, c);
    under, over := if m == a then b else a, if m == c then b else c;
    if comp.Lt(s[m], s[under]) || comp.Lt(s[over], s[m]) {
      under, over := over, under;
    }
  }

  /** Something other than the pivot at `first` is not below it, so a scan for such a
      thing starting after the pivot must stop before `last`. */
  ghost predicate HasSentinel<T>(comp: Comparator<T>, s: seq<T>, first: int, last: int)
    requires 0 <= first < last <= |s|
  {
    exists k :: first < k < last && !comp.Lt(s[k], s[first])
  }

  const NINTHER_ABOVE := 16

  /** The index `choose_pivot` settles on: a ninther of samples n/8 apart for a range
      above 16, a median of three otherwise. */
  ghost function PivotIndex<T>(comp: Comparator<T>, s: seq<T>, first: int, last: int): (p: int)
    requires 0 <= first < last <= |s|
    ensures first <= p < last
  {
    var n := last - first;
    var pm := first + n / 2;
    if n > NINTHER_ABOVE then
      var e := n / 8;
      var lo := Median3(comp, s, first, first + e, first + 2 * e);
      var mi := Median3(comp, s, pm - e, pm, pm + e);
      var hi := Median3(comp, s, last - 1 - 2 * e, last - 1 - e, last - 1);
      Median3(comp, s, lo, mi, hi)
    else
      Median3(comp, s, first, pm, last - 1)
  }

  lemma SamplesLeaveSentinel<T(!new)>(comp: Comparator<T>, s: seq<T>, first: int, last: int, a: int, b: int, c: int)
    requires StrictWeakOrder(comp) && 0 <= first <= a < b < c < last <= |s|
    ensures HasSentinel(comp, Swapped(s, first, Median3(comp, s, a, b, c)), first, last)
  {
    hide StrictWeakOrder, Median3;
    var under, over := MedianIsBetween(comp, s, a, b, c);
    var p := Median3(comp, s, a, b, c);
    assert over != p by {
      assert |{under, over, p}| == |{a, b, c}|;
    }
    var k := if over == first then p else over;
    assert Swapped(s, first, p)[k] == s[over];
  }

  lemma PivotLeavesSentinel<T(!new)>(comp: Comparator<T>, s: seq<T>, first: int, last: int)
    requires StrictWeakOrder(comp) && 0 <= first && first + 2 < last <= |s|
    ensures HasSentinel(comp, Swapped(s, first, PivotIndex(comp, s, first, last)), first, last)
  {
    hide StrictWeakOrder, Median3, HasSentinel, Swapped;
    var n := last - first;
    var pm := first + n / 2;
    if n > NINTHER_ABOVE {
      var e := n / 8;
      SamplesLeaveSentinel(comp, s, first, last, first, first + e, first + 2 * e);
      SamplesLeaveSentinel(comp, s, first, last, pm - e, pm, pm + e);
      SamplesLeaveSentinel(comp, s, first, last, last - 1 - 2 * e, last - 1 - e, last - 1);
    } else {
      SamplesLeaveSentinel(comp, s, first, last, first, pm, last - 1);
    }
  }

  const PIVOT_COST := 12

  /** The index the pivot is taken from. */
  method PickPivot<T>(a: array<T>, first: nat, last: nat, order: Order<T>) returns (pm: nat)
    requires first < last <= a.Length
    modifies order
    ensures pm == PivotIndex(order.comp, a[..], first, last)
    ensures old(order.calls) <= order.calls <= old(order.calls) + PIVOT_COST
  {
    hide Median3;
    var n := last - first;
    pm := first + n / 2;
    if n > NINTHER_ABOVE {
      var e := n / 8;
      var lo := PickMedian(a, first, first + e, first + 2 * e, order);
      var mi := PickMedian(a, pm - e, pm, pm + e, order);
      var hi := PickMedian(a, last - 1 - 2 * e, last - 1 - e, last - 1, order);
      pm := PickMedian(a, lo, mi, hi, order);
    } else {
      pm := PickMedian(a, first, pm, last - 1, order);
    }
  }

  method ChoosePivot<T(!new)>(a: array<T>, first: nat, last: nat, order: Order<T>)
    requires first < last <= a.Length && StrictWeakOrder(order.comp)
    modifies a, order
    ensures Rearranged(old(a[..]), a[..], first, last)
    ensures first + 2 < last ==> HasSentinel(order.comp, a[..], first, last)
    ensures old(order.calls) <= order.calls <= old(order.calls) + PIVOT_COST
  {
    hide StrictWeakOrder, Rearranged, Swapped, PivotIndex, HasSentinel;
    ghost var s, comp := a[..], order.comp;
    var pm := PickPivot(a, first, last, order);
    assert a[..] == s;
    RearrangedSwap(s, first, pm, first, last);
    if first + 2 < last {
      PivotLeavesSentinel(comp, s, first, last);
    }
    Swap(a, first, pm);
  }

  /** Which side of the pivot x goes to: `partition_left` sends its equals left,
      `partition_right` sends them right. */
  ghost predicate GoesLeft<T>(comp: Comparator<T>, pivot: T, equalsLeft: bool, x: T) {
    if equalsLeft then !comp.Lt(pivot, x) else comp.Lt(x, pivot)
  }

  method Side<T>(order: Order<T>, pivot: T, equalsLeft: bool, x: T) returns (left: bool)
    modifies order
    ensures left == GoesLeft(order.comp, pivot, equalsLeft, x) && order.calls == old(order.calls) + 1
  {
    if equalsLeft {
      var above := order.Below(pivot, x);
      left := !above;
    } else {
      left := order.Below(x, pivot);
    }
  }

  method ScanUp<T>(a: array<T>, from: int, order: Order<T>, pivot: T, equalsLeft: bool, ghost stop: int) returns (lo: int)
    requires 0 <= from < stop < a.Length && !GoesLeft(order.comp, pivot, equalsLeft, a[stop])
    modifies order
    ensures from < lo <= stop && !GoesLeft(order.comp, pivot, equalsLeft, a[lo])
    ensures forall k :: from < k < lo ==> GoesLeft(order.comp, pivot, equalsLeft, a[k])
    ensures order.calls == old(order.calls) + (lo - from)
  {
    hide GoesLeft;
    lo := from + 1;
    while true
      invariant from < lo <= stop
      invariant forall k :: from < k < lo ==> GoesLeft(order.comp, pivot, equalsLeft, a[k])
      invariant order.calls == old(order.calls) + (lo - from - 1)
      decreases stop - lo
    {
      var left := Side(order, pivot, equalsLeft, a[lo]);
      if !left {
        return;
      }
      lo := lo + 1;
    }
  }

  method ScanDown<T>(a: array<T>, from: int, order: Order<T>, pivot: T, equalsLeft: bool, ghost stop: int) returns (hi: int)
    requires 0 <= stop < from <= a.Length && GoesLeft(order.comp, pivot, equalsLeft, a[stop])
    modifies order
    ensures stop <= hi < from && GoesLeft(order.comp, pivot, equalsLeft, a[hi])
    ensures forall k :: hi < k < from ==> !GoesLeft(order.comp, pivot, equalsLeft, a[k])
    ensures order.calls == old(order.calls) + (from - hi)
  {
    hide GoesLeft;
    hi := from - 1;
    while true
      invariant stop <= hi < from
      invariant forall k :: hi < k < from ==> !GoesLeft(order.comp, pivot, equalsLeft, a[k])
      invariant order.calls == old(order.calls) + (from - hi - 1)
      decreases hi
    {
      var left := Side(order, pivot, equalsLeft, a[hi]);
      if left {
        return;
      }
      hi := hi - 1;
    }
  }

  /** Everything between the pivot and lo goes left, everything past hi goes right, and
      while lo is before hi the two elements there are on each other's side. */
  ghost predicate Scanned<T>(comp: Comparator<T>, pivot: T, equalsLeft: bool, s: seq<T>,
                             first: int, last: int, lo: int, hi: int)
  {
    && 0 <= first < lo <= hi + 1 <= last <= |s| && s[first] == pivot
    && (forall k :: first < k < lo ==> GoesLeft(comp, pivot, equalsLeft, s[k]))
    && (forall k :: hi < k < last ==> !GoesLeft(comp, pivot, equalsLeft, s[k]))
    && (lo < hi ==> !GoesLeft(comp, pivot, equalsLeft, s[lo]) && GoesLeft(comp, pivot, equalsLeft, s[hi]))
  }

  /** The swapping loop both partitions end with.  The scans only read, so which of
      the two goes first does not matter. */
  method SwapAcross<T(!new)>(a: array<T>, first: int, last: int, lo0: int, hi0: int,
                             order: Order<T>, pivot: T, equalsLeft: bool)
    returns (lo: int, hi: int)
    requires 0 <= last <= a.Length && Scanned(order.comp, pivot, equalsLeft, a[..], first, last, lo0, hi0)
    modifies a, order
    ensures Scanned(order.comp, pivot, equalsLeft, a[..], first, last, lo, hi)
    ensures Rearranged(old(a[..]), a[..], first, last)
    ensures lo == hi + 1 || (lo == lo0 == hi == hi0 && a[..] == old(a[..]))
    ensures lo0 >= hi0 ==> lo == lo0 && hi == hi0 && a[..] == old(a[..])
    ensures order.calls == old(order.calls) + (lo - lo0) + (hi0 - hi)
  {
    hide Rearranged, GoesLeft, Scanned, Swapped;
    lo, hi := lo0, hi0;
    ghost var s0, s, comp, c0 := a[..], a[..], order.comp, order.calls;
    ScannedBounds(comp, pivot, equalsLeft, s, first, last, lo, hi);
    Unmoved(s, first, last);
    while lo < hi
      invariant s == a[..] && Scanned(comp, pivot, equalsLeft, s, first, last, lo, hi)
      invariant Rearranged(s0, s, first, last)
      invariant order.calls == c0 + (lo - lo0) + (hi0 - hi)
      invariant lo == hi + 1 || lo < hi || (lo == lo0 && hi == hi0 && s == s0)
      invariant lo0 >= hi0 ==> lo == lo0 && hi == hi0 && s == s0
      decreases hi - lo + 1
    {
      var l, h := lo, hi;
      SwapSides(comp, pivot, equalsLeft, s, first, last, l, h);
      RearrangedTransitive(s0, s, Swapped(s, l, h), first, last);
      Swap(a, l, h);
      s := Swapped(s, l, h);
      assert s == a[..];
      lo := ScanUp(a, l, order, pivot, equalsLeft, h);
      assert s == a[..];
      hi := ScanDown(a, h, order, pivot, equalsLeft, l);
      assert s == a[..];
      Crossed(comp, pivot, equalsLeft, s, first, last, l, h, lo, hi);
    }
  }

  lemma ScannedBounds<T>(comp: Comparator<T>, pivot: T, equalsLeft: bool, s: seq<T>,
                         first: int, last: int, lo: int, hi: int)
    requires Scanned(comp, pivot, equalsLeft, s, first, last, lo, hi)
    ensures 0 <= first < lo <= hi + 1 <= last <= |s|
  {
  }

  /** Swapping two elements that stand on each other's side puts both where they belong. */
  lemma SwapSides<T>(comp: Comparator<T>, pivot: T, equalsLeft: bool, s: seq<T>,
                     first: int, last: int, l: int, h: int)
    requires Scanned(comp, pivot, equalsLeft, s, first, last, l, h) && l < h
    ensures 0 <= first < l && h < last <= |s|
    ensures Rearranged(s, Swapped(s, l, h), first, last) && |Swapped(s, l, h)| == |s|
    ensures HalfScanned(comp, pivot, equalsLeft, Swapped(s, l, h), first, last, l, h)
  {
    RearrangedSwap(s, l, h, first, last);
  }

  /** Up to l everything goes left, from h on everything goes right. */
  ghost predicate HalfScanned<T>(comp: Comparator<T>, pivot: T, equalsLeft: bool, s: seq<T>,
                                 first: int, last: int, l: int, h: int)
  {
    && 0 <= first < l < h < last <= |s| && s[first] == pivot
    && (forall k :: first < k <= l ==> GoesLeft(comp, pivot, equalsLeft, s[k]))
    && (forall k :: h <= k < last ==> !GoesLeft(comp, pivot, equalsLeft, s[k]))
  }

  lemma Crossed<T>(comp: Comparator<T>, pivot: T, equalsLeft: bool, s: seq<T>,
                   first: int, last: int, l: int, h: int, lo: int, hi: int)
    requires HalfScanned(comp, pivot, equalsLeft, s, first, last, l, h)
    requires l < lo <= h && l <= hi < h
    requires !GoesLeft(comp, pivot, equalsLeft, s[lo]) && GoesLeft(comp, pivot, equalsLeft, s[hi])
    requires forall k :: l < k < lo ==> GoesLeft(comp, pivot, equalsLeft, s[k])
    requires forall k :: hi < k < h ==> !GoesLeft(comp, pivot, equalsLeft, s[k])
    ensures Scanned(comp, pivot, equalsLeft, s, first, last, lo, hi) && lo != hi && lo <= hi + 1
  {
    hide GoesLeft;
    assert hi + 1 < h ==> !GoesLeft(comp, pivot, equalsLeft, s[hi + 1]);
  }

  /** Everything before p is below the pivot standing at p, nothing after it is. */
  ghost predicate BelowThenRest<T>(comp: Comparator<T>, s: seq<T>, first: int, p: int, last: int)
    requires 0 <= first <= p < last <= |s|
  {
    && (forall k :: first <= k < p ==> comp.Lt(s[k], s[p]))
    && (forall k :: p < k < last ==> !comp.Lt(s[k], s[p]))
  }

  /** Nothing before p is above the pivot standing at p, everything after it is. */
  ghost predicate RestThenAbove<T>(comp: Comparator<T>, s: seq<T>, first: int, p: int, last: int)
    requires 0 <= first <= p < last <= |s|
  {
    && (forall k :: first <= k < p ==> !comp.Lt(s[p], s[k]))
    && (forall k :: p < k < last ==> comp.Lt(s[p], s[k]))
  }

  lemma PlacePivot<T(!new)>(comp: Comparator<T>, pivot: T, equalsLeft: bool, s: seq<T>,
                            first: int, last: int, lo: int, hi: int, p: int)
    requires StrictWeakOrder(comp) && Scanned(comp, pivot, equalsLeft, s, first, last, lo, hi)
    requires first <= p < last && lo - 1 <= p <= hi && hi <= lo
    requires lo == hi ==> GoesLeft(comp, pivot, equalsLeft, s[lo]) == (p == lo)
    ensures !equalsLeft ==> BelowThenRest(comp, Swapped(s, first, p), first, p, last)
    ensures equalsLeft ==> RestThenAbove(comp, Swapped(s, first, p), first, p, last)
    ensures Rearranged(s, Swapped(s, first, p), first, last) && Swapped(s, first, p)[p] == pivot
  {
    hide StrictWeakOrder;
    Irreflexive(comp, pivot);
    RearrangedSwap(s, first, p, first, last);
  }

  /** Partition with the pivot's equals on the right. */
  method PartitionRight<T(!new)>(a: array<T>, first: nat, last: nat, order: Order<T>)
    returns (p: nat, already: bool)
    requires first < last <= a.Length && StrictWeakOrder(order.comp)
    requires HasSentinel(order.comp, a[..], first, last)
    modifies a, order
    ensures first <= p < last && BelowThenRest(order.comp, a[..], first, p, last)
    ensures a[p] == old(a[first])
    ensures Rearranged(old(a[..]), a[..], first, last)
    ensures already ==> a[..] == Swapped(old(a[..]), first, p)
    ensures old(order.calls) <= order.calls <= old(order.calls) + (last - first) + 1
  {
    hide StrictWeakOrder, Rearranged, Swapped;
    ghost var s0, comp, c0 := a[..], order.comp, order.calls;
    var pivot := a[first];
    ghost var k :| first < k < last && !comp.Lt(s0[k], pivot);
    var hi;
    var lo := ScanUp(a, first, order, pivot, false, k);
    if lo - 1 == first {
      hi := last;
      while lo < hi
        invariant lo <= hi <= last
        invariant forall k :: hi <= k < last ==> !comp.Lt(a[k], pivot)
        invariant order.calls == c0 + 1 + (last - hi)
        modifies order
      {
        hi := hi - 1;
        var below := order.Below(a[hi], pivot);
        if below {
          break;
        }
      }
    } else {
      hi := ScanDown(a, last, order, pivot, false, first + 1);
      assert hi + 1 < last ==> !GoesLeft(comp, pivot, false, a[hi + 1]);
    }
    already := lo >= hi;
    assert s0 == a[..];
    assert Scanned(comp, pivot, false, s0, first, last, lo, hi);
    lo, hi := SwapAcross(a, first, last, lo, hi, order, pivot, false);
    p := lo - 1;
    ghost var s := a[..];
    PlacePivot(comp, pivot, false, s, first, last, lo, hi, p);
    RearrangedTransitive(s0, s, Swapped(s, first, p), first, last);
    Swap(a, first, p);
  }

  /** Partition with the pivot's equals on the left. */
  method PartitionLeft<T(!new)>(a: array<T>, first: nat, last: nat, order: Order<T>) returns (p: nat)
    requires first < last <= a.Length && StrictWeakOrder(order.comp)
    modifies a, order
    ensures first <= p < last && RestThenAbove(order.comp, a[..], first, p, last)
    ensures a[p] == old(a[first])
    ensures Rearranged(old(a[..]), a[..], first, last)
    ensures old(order.calls) <= order.calls <= old(order.calls) + (last - first) + 1
  {
    hide StrictWeakOrder, Rearranged, Swapped;
    ghost var s0, comp, c0 := a[..], order.comp, order.calls;
    var pivot := a[first];
    Irreflexive(comp, pivot);
    var lo;
    var hi := ScanDown(a, last, order, pivot, true, first);
    if hi + 1 == last {
      lo := first;
      while lo < hi
        invariant first <= lo <= hi
        invariant forall k :: first < k <= lo ==> !comp.Lt(pivot, a[k])
        invariant order.calls == c0 + (last - hi) + (lo - first)
        modifies order
      {
        lo := lo + 1;
        var above := order.Below(pivot, a[lo]);
        if above {
          break;
        }
      }
    } else {
      lo := ScanUp(a, first, order, pivot, true, hi + 1);
    }
    assert s0 == a[..];
    if lo == first {
      OneElement(comp, s0, first);
    } else {
      assert Scanned(comp, pivot, true, s0, first, last, lo, hi);
      lo, hi := SwapAcross(a, first, last, lo, hi, order, pivot, true);
      PlacePivot(comp, pivot, true, a[..], first, last, lo, hi, hi);
    }
    p := hi;
    ghost var s := a[..];
    RearrangedTransitive(s0, s, Swapped(s, first, p), first, last);
    Swap(a, first, p);
  }

  /** A range of one element is divided at it. */
  lemma OneElement<T>(comp: Comparator<T>, s: seq<T>, first: int)
    requires 0 <= first < |s|
    ensures RestThenAbove(comp, Swapped(s, first, first), first, first, first + 1)
    ensures Rearranged(s, s, first, first + 1) && Swapped(s, first, first) == s
  {
  }
}
