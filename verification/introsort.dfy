/** `sort` and `detail::introsort` of algorithm.hpp. */
module Introsorts {
  import opened Ordering
  import opened Logarithm
  import opened InsertionSorts
  import opened HeapSorts
  import opened Partitions

  const SMALL := 16

  /** What sorting n elements may cost when `depth` partitions may still be spent, no
      heap sort starts with more than `levels` levels, and one peel of the pivot's
      equals may come first. */
  ghost function Budget(n: nat, depth: nat, levels: nat, peelable: bool): nat {
    n * Rate(depth, levels, peelable)
  }

  ghost function Rate(depth: nat, levels: nat, peelable: bool): nat {
    7 * depth + 8 * (levels + 1) + if peelable then 2 else 0
  }

  lemma PeelBudget(n: nat, rest: nat, depth: nat, levels: nat, spent: nat)
    requires SMALL < n && rest <= n && spent <= n + 2 + PIVOT_COST
    ensures spent + Budget(rest, depth, levels, false) <= Budget(n, depth, levels, true)
  {
    var w := Rate(depth, levels, false);
    ProductMonotone(rest, n, w);
    assert Rate(depth, levels, true) == w + 2;
    assert n * (w + 2) == n * w + 2 * n;
  }

  lemma SplitProducts(n: nat, l: nat, r: nat, w: nat, x: nat, y: nat)
    requires l + r + 1 == n && x <= w && w + 5 <= y
    ensures l * x + r * w + 5 * n <= n * y
  {
    ProductMonotone(x, w, l);
    ProductMonotone(w + 5, y, n);
    assert l * w + r * w == (n - 1) * w;
    assert n * (w + 5) == n * w + 5 * n;
  }

  lemma SplitBudget(n: nat, l: nat, r: nat, depth: nat, levels: nat, spent: nat, peelable: bool, peelLeft: bool)
    requires SMALL < n && l + r + 1 == n && 1 <= depth
    requires spent <= 3 * n + 2 + PIVOT_COST + 2 * MOVE_LIMIT
    ensures spent + Budget(l, depth - 1, levels, peelLeft) + Budget(r, depth - 1, levels, true)
      <= Budget(n, depth, levels, peelable)
  {
    hide Rate;
    var w, x, y := Rate(depth - 1, levels, true), Rate(depth - 1, levels, peelLeft), Rate(depth, levels, peelable);
    Rates(depth, levels, peelLeft);
    Rates(depth, levels, peelable);
    SplitProducts(n, l, r, w, x, y);
    var left, right, whole := l * x, r * w, n * y;
    assert left + right + 5 * n <= whole;
    assert spent <= 5 * n;
  }

  lemma Rates(depth: nat, levels: nat, peelable: bool)
    requires 1 <= depth
    ensures Rate(depth - 1, levels, peelable) <= Rate(depth - 1, levels, true)
    ensures Rate(depth - 1, levels, true) + 5 <= Rate(depth, levels, peelable)
  {
  }

  lemma LeafBudget(n: nat, depth: nat, levels: nat, peelable: bool)
    requires n <= SMALL
    ensures Pairs(n) <= Budget(n, depth, levels, peelable)
  {
    PairsValue(n);
    ProductMonotone(n - 1, 16, n);
    assert n * (n - 1) == (n - 1) * n;
    ProductMonotone(8, Rate(depth, levels, peelable), n);
  }

  lemma HeapBudget(n: nat, depth: nat, levels: nat, peelable: bool)
    requires Log2Floor(n) <= levels
    ensures HeapSortCost(n) <= Budget(n, depth, levels, peelable)
  {
    ProductMonotone(3 * Log2Floor(n), Rate(depth, levels, peelable), n);
  }

  /** No element of s[lo..hi] is below x. */
  ghost predicate NoneBelow<T>(comp: Comparator<T>, s: seq<T>, lo: int, hi: int, x: T)
    requires 0 <= lo <= hi <= |s|
  {
    forall k :: lo <= k < hi ==> !comp.Lt(s[k], x)
  }

  ghost predicate AllAbove<T>(comp: Comparator<T>, s: seq<T>, lo: int, hi: int, x: T)
    requires 0 <= lo <= hi <= |s|
  {
    forall k :: lo <= k < hi ==> comp.Lt(x, s[k])
  }

  /** What holds of s while introsort still has [first, last) of [lo, hi) to sort: the rest
      is in its final order, and the element before the range, when the range is not
      `leftmost`, is a parent's pivot: below nothing of it, and strictly below all of
      it when the pivot's equals have just been peeled off (`peeled`). */
  ghost predicate Pending<T>(comp: Comparator<T>, s0: seq<T>, s: seq<T>, lo: int, first: int, last: int, hi: int,
                             leftmost: bool, peeled: bool)
  {
    && 0 <= lo <= first <= last <= hi <= |s0| == |s| && Rearranged(s0, s, lo, hi)
    && Framed(comp, s, lo, first, last, hi)
    && (!leftmost ==> 0 < first && NoneBelow(comp, s, first, last, s[first - 1]))
    && (peeled ==> !leftmost && AllAbove(comp, s, first, last, s[first - 1]))
  }

  lemma PendingRearranged<T>(comp: Comparator<T>, s0: seq<T>, s: seq<T>, t: seq<T>, lo: int, first: int, last: int, hi: int,
                             leftmost: bool, peeled: bool)
    requires Pending(comp, s0, s, lo, first, last, hi, leftmost, peeled) && Rearranged(s, t, first, last)
    ensures Pending(comp, s0, t, lo, first, last, hi, leftmost, peeled)
  {
    FramedRearranged(comp, s, t, lo, first, last, hi);
    RearrangedWiden(s, t, first, last, lo, hi);
    forall k | first <= k < last
      ensures !leftmost ==> !comp.Lt(t[k], t[first - 1])
      ensures peeled ==> comp.Lt(t[first - 1], t[k])
    {
      var from := RearrangedSource(s, t, first, last, k);
    }
  }

  lemma PendingSorted<T(!new)>(comp: Comparator<T>, s0: seq<T>, s: seq<T>, t: seq<T>, lo: int, first: int, last: int, hi: int,
                         leftmost: bool, peeled: bool)
    requires Pending(comp, s0, s, lo, first, last, hi, leftmost, peeled)
    requires Rearranged(s, t, first, last) && Sorted(comp, t, first, last)
    ensures Sorted(comp, t, lo, hi) && Rearranged(s0, t, lo, hi)
  {
    PendingRearranged(comp, s0, s, t, lo, first, last, hi, leftmost, peeled);
    FramedSorted(comp, t, lo, first, last, hi);
  }

  /** Elements strictly above the parent's pivot cannot be peeled again. */
  lemma PeeledOnce<T>(comp: Comparator<T>, s0: seq<T>, s: seq<T>, lo: int, first: int, last: int, hi: int, peeled: bool)
    requires Pending(comp, s0, s, lo, first, last, hi, false, peeled) && first < last
    requires !comp.Lt(s[first - 1], s[first])
    ensures !peeled
  {
  }

  /** Just peeled: the equals of the parent's pivot are done and what is left is above it. */
  lemma PendingPeeled<T(!new)>(comp: Comparator<T>, s0: seq<T>, s: seq<T>, t: seq<T>, lo: int, first: int, p: int, last: int, hi: int)
    requires StrictWeakOrder(comp) && first <= p < last
    requires Pending(comp, s0, s, lo, first, last, hi, false, false) && !comp.Lt(s[first - 1], s[first])
    requires Rearranged(s, t, first, last) && RestThenAbove(comp, t, first, p, last) && t[p] == s[first]
    ensures Pending(comp, s0, t, lo, p + 1, last, hi, false, true)
  {
    PendingRearranged(comp, s0, s, t, lo, first, last, hi, false, false);
    assert t[first - 1] == s[first - 1];
    hide StrictWeakOrder, Rearranged;
    forall i, j | lo <= i < j < hi && (i < p + 1 || last <= j)
      ensures !comp.Lt(t[j], t[i])
    {
      if first <= i <= p && j < last {
        if j <= p {
          NotBelowTransitive(comp, t[p], t[first - 1], t[j]);
        } else {
          Asymmetric(comp, t[p], t[j]);
        }
        Irreflexive(comp, t[p]);
        NotBelowTransitive(comp, t[i], t[p], t[j]);
      }
    }
    forall k | p + 1 <= k < last
      ensures !comp.Lt(t[k], t[p])
    {
      Asymmetric(comp, t[p], t[k]);
    }
  }

  /** Nothing before p is above s[p] and nothing after it is below. */
  ghost predicate Divided<T>(comp: Comparator<T>, s: seq<T>, first: int, p: int, last: int)
    requires 0 <= first <= p < last <= |s|
  {
    && (forall k :: first <= k < p ==> !comp.Lt(s[p], s[k]))
    && (forall k :: p < k < last ==> !comp.Lt(s[k], s[p]))
  }

  lemma PartitionDivides<T(!new)>(comp: Comparator<T>, s: seq<T>, first: int, p: int, last: int)
    requires StrictWeakOrder(comp) && 0 <= first <= p < last <= |s|
    requires BelowThenRest(comp, s, first, p, last)
    ensures Divided(comp, s, first, p, last)
  {
    hide StrictWeakOrder;
    forall k | first <= k < p
      ensures !comp.Lt(s[p], s[k])
    {
      Asymmetric(comp, s[k], s[p]);
    }
  }

  /** What a recursive call on either side of the pivot needs to know. */
  lemma SideBounds<T>(comp: Comparator<T>, s0: seq<T>, s: seq<T>, lo: int, first: int, p: int, last: int, hi: int, leftmost: bool)
    requires Pending(comp, s0, s, lo, first, last, hi, leftmost, false)
    requires first <= p < last && Divided(comp, s, first, p, last)
    ensures !leftmost ==> 0 < first && NoneBelow(comp, s, first, p, s[first - 1])
    ensures NoneBelow(comp, s, p + 1, last, s[p])
  {
  }

  /** The range is divided: what is pending, and that nothing is when it came out sorted. */
  lemma AfterDivision<T(!new)>(comp: Comparator<T>, s0: seq<T>, s: seq<T>, t: seq<T>, lo: int, first: int, p: int, last: int, hi: int,
                               leftmost: bool, peeled: bool)
    requires Pending(comp, s0, s, lo, first, last, hi, leftmost, peeled)
    requires first <= p < last && Rearranged(s, t, first, last) && Divided(comp, t, first, p, last)
    ensures Pending(comp, s0, t, lo, first, last, hi, leftmost, false)
    ensures Sorted(comp, t, first, last) ==> Sorted(comp, t, lo, hi) && Rearranged(s0, t, lo, hi)
    ensures !leftmost ==> 0 < first && NoneBelow(comp, t, first, p, t[first - 1])
    ensures NoneBelow(comp, t, p + 1, last, t[p])
  {
    PendingRearranged(comp, s0, s, t, lo, first, last, hi, leftmost, peeled);
    SideBounds(comp, s0, t, lo, first, p, last, hi, leftmost);
    if Sorted(comp, t, first, last) {
      hide Sorted, Rearranged, NoneBelow, Divided;
      PendingSorted(comp, s0, s, t, lo, first, last, hi, leftmost, peeled);
    }
  }

  /** Rearranging one side of a divided range leaves it divided. */
  lemma SideRearranged<T>(comp: Comparator<T>, s: seq<T>, t: seq<T>, first: int, p: int, last: int, left: bool)
    requires 0 <= first <= p < last <= |s| && Divided(comp, s, first, p, last)
    requires if left then Rearranged(s, t, first, p) else Rearranged(s, t, p + 1, last)
    ensures |t| == |s| && Divided(comp, t, first, p, last) && Rearranged(s, t, first, last)
  {
    var from, to := if left then first else p + 1, if left then p else last;
    RearrangedWiden(s, t, from, to, first, last);
    forall k | first <= k < last
      ensures k < p ==> !comp.Lt(t[p], t[k])
      ensures p < k ==> !comp.Lt(t[k], t[p])
    {
      var source := RearrangedSource(s, t, from, to, k);
    }
  }

  lemma SidesSorted<T(!new)>(comp: Comparator<T>, s: seq<T>, t: seq<T>, first: int, p: int, last: int)
    requires StrictWeakOrder(comp) && 0 <= first <= p < last <= |s| && Rearranged(s, t, p + 1, last)
    requires Divided(comp, t, first, p, last)
    ensures Sorted(comp, s, first, p) && Sorted(comp, t, p + 1, last) ==> Sorted(comp, t, first, last)
  {
    hide StrictWeakOrder;
    forall i, j | first <= i < p < j < last
      ensures !comp.Lt(t[j], t[i])
    {
      NotBelowTransitive(comp, t[i], t[p], t[j]);
    }
  }

  /** Across the pivot nothing is out of order. */
  lemma AcrossPivot<T(!new)>(comp: Comparator<T>, t: seq<T>, first: int, p: int, last: int, i: int, j: int)
    requires StrictWeakOrder(comp) && 0 <= first <= i <= p <= j < last <= |t| && i < j
    requires Divided(comp, t, first, p, last)
    ensures !comp.Lt(t[j], t[i])
  {
    hide StrictWeakOrder;
    if i < p && p < j {
      NotBelowTransitive(comp, t[i], t[p], t[j]);
    }
  }

  lemma FramedRight<T(!new)>(comp: Comparator<T>, t: seq<T>, lo: int, first: int, p: int, last: int, hi: int)
    requires StrictWeakOrder(comp) && 0 <= lo <= first <= p < last <= hi <= |t|
    requires Framed(comp, t, lo, first, last, hi) && Divided(comp, t, first, p, last) && Sorted(comp, t, first, p)
    ensures Framed(comp, t, lo, p + 1, last, hi)
  {
    hide StrictWeakOrder, Divided;
    forall i, j | lo <= i < j < hi && (i < p + 1 || last <= j)
      ensures !comp.Lt(t[j], t[i])
    {
      if first <= i && p <= j < last {
        AcrossPivot(comp, t, first, p, last, i, j);
      }
    }
  }

  lemma FramedLeft<T(!new)>(comp: Comparator<T>, t: seq<T>, lo: int, first: int, p: int, last: int, hi: int)
    requires StrictWeakOrder(comp) && 0 <= lo <= first <= p < last <= hi <= |t|
    requires Framed(comp, t, lo, first, last, hi) && Divided(comp, t, first, p, last) && Sorted(comp, t, p + 1, last)
    ensures Framed(comp, t, lo, first, p, hi)
  {
    hide StrictWeakOrder, Divided;
    forall i, j | lo <= i < j < hi && (i < first || p <= j)
      ensures !comp.Lt(t[j], t[i])
    {
      if first <= i <= p && j < last {
        AcrossPivot(comp, t, first, p, last, i, j);
      }
    }
  }

  /** With the left side sorted, the right side is what is still pending. */
  lemma PendingRight<T(!new)>(comp: Comparator<T>, s0: seq<T>, s: seq<T>, t: seq<T>, lo: int, first: int, p: int, last: int, hi: int,
                              leftmost: bool)
    requires StrictWeakOrder(comp) && Pending(comp, s0, s, lo, first, last, hi, leftmost, false)
    requires first <= p < last && Divided(comp, s, first, p, last)
    requires Rearranged(s, t, first, p) && Sorted(comp, t, first, p)
    ensures Pending(comp, s0, t, lo, p + 1, last, hi, false, false)
  {
    SideRearranged(comp, s, t, first, p, last, true);
    PendingRearranged(comp, s0, s, t, lo, first, last, hi, leftmost, false);
    hide StrictWeakOrder, Rearranged;
    FramedRight(comp, t, lo, first, p, last, hi);
    hide Framed, Sorted;
  }

  /** With the right side sorted, the left side is what is still pending. */
  lemma PendingLeft<T(!new)>(comp: Comparator<T>, s0: seq<T>, s: seq<T>, t: seq<T>, lo: int, first: int, p: int, last: int, hi: int,
                             leftmost: bool)
    requires StrictWeakOrder(comp) && Pending(comp, s0, s, lo, first, last, hi, leftmost, false)
    requires first <= p < last && Divided(comp, s, first, p, last)
    requires Rearranged(s, t, p + 1, last) && Sorted(comp, t, p + 1, last)
    ensures Pending(comp, s0, t, lo, first, p, hi, leftmost, false)
  {
    SideRearranged(comp, s, t, first, p, last, false);
    PendingRearranged(comp, s0, s, t, lo, first, last, hi, leftmost, false);
    hide StrictWeakOrder, Rearranged;
    FramedLeft(comp, t, lo, first, p, last, hi);
    hide Framed, Sorted, Divided;
  }

  /** The shorter side of a split is at most half, so it is one level down. */
  lemma ShorterSide(l: nat, n: nat, whole: nat)
    requires 2 * l < n <= whole && 2 <= n
    ensures 1 + Log2Floor(l) <= Log2Floor(whole)
  {
    Log2FloorMonotone(l, n / 2);
    Log2FloorMonotone(n, whole);
  }

  lemma SideLevels(l: nat, r: nat, n: nat, whole: nat)
    requires l + r + 1 == n <= whole && 2 <= n
    ensures Log2Floor(l) <= Log2Floor(n) <= Log2Floor(whole) && Log2Floor(r) <= Log2Floor(n)
    ensures 1 + Log2Floor(if l < r then l else r) <= Log2Floor(whole)
  {
    hide Log2Floor;
    Log2FloorMonotone(l, n);
    Log2FloorMonotone(r, n);
    Log2FloorMonotone(n, whole);
    ShorterSide(if l < r then l else r, n, whole);
  }

  /** `depth` partitions may be spent before falling back on heap sort.  Every live call below this one
      has less `room`, so they are nested no deeper than the logarithm of the range it can start at. */
  method Introsort<T(!new)>(a: array<T>, first0: nat, last0: nat, depth0: nat, order: Order<T>, leftmost0: bool,
                            ghost levels: nat, ghost room: nat)
    requires first0 <= last0 <= a.Length && last0 - first0 <= HALF_UNSIGNED && StrictWeakOrder(order.comp)
    requires !leftmost0 ==> 0 < first0 && NoneBelow(order.comp, a[..], first0, last0, a[first0 - 1])
    requires Log2Floor(last0 - first0) <= levels && Log2Floor(last0 - first0) <= room
    modifies a, order
    ensures Sorted(order.comp, a[..], first0, last0)
    ensures Rearranged(old(a[..]), a[..], first0, last0)
    ensures old(order.calls) <= order.calls <= old(order.calls) + Budget(last0 - first0, depth0, levels, !leftmost0)
    decreases room, 3
  {
    hide *;
    var first, last, depth, leftmost, done := first0, last0, depth0, leftmost0, false;
    ghost var s0, s, peeled := a[..], a[..], false;
    ghost var c0, limit := order.calls, order.calls + Budget(last0 - first0, depth0, levels, !leftmost0);
    StartPending(order.comp, s0, first, last, leftmost);
    while last - first > SMALL
      invariant first0 <= first <= last <= last0 && s == a[..]
      invariant Pending(order.comp, s0, s, first0, first, last, last0, leftmost, peeled)
      invariant c0 <= order.calls
      invariant order.calls + Budget(last - first, depth, levels, !leftmost && !peeled) <= limit
      decreases last - first
    {
      Log2FloorMonotone(last - first, last0 - first0);
      first, last, depth, leftmost, done, peeled :=
        Round(a, s0, first0, first, last, last0, depth, order, leftmost, peeled, levels, room);
      if done {
        return;
      }
      s := a[..];
    }
    SortLeaf(a, s0, first0, first, last, last0, depth, order, leftmost, peeled, levels);
  }

  /** A short range is left to the insertion sort. */
  method SortLeaf<T(!new)>(a: array<T>, ghost s0: seq<T>, ghost lo: nat, first: nat, last: nat, ghost hi: nat, ghost depth: nat,
                           order: Order<T>, ghost leftmost: bool, ghost peeled: bool, ghost levels: nat)
    requires first <= last <= a.Length && last - first <= SMALL && StrictWeakOrder(order.comp)
    requires Pending(order.comp, s0, a[..], lo, first, last, hi, leftmost, peeled)
    modifies a, order
    ensures lo <= hi <= |a[..]| && Sorted(order.comp, a[..], lo, hi) && Rearranged(s0, a[..], lo, hi)
    ensures old(order.calls) <= order.calls
    ensures order.calls <= old(order.calls) + Budget(last - first, depth, levels, !leftmost && !peeled)
  {
    hide StrictWeakOrder, Sorted, Rearranged, Pending, Budget, Log2Floor;
    ghost var s := a[..];
    PendingBounds(order.comp, s0, s, lo, first, last, hi, leftmost, peeled);
    LeafBudget(last - first, depth, levels, !leftmost && !peeled);
    InsertionSort(a, first, last, order);
    PendingSorted(order.comp, s0, s, a[..], lo, first, last, hi, leftmost, peeled);
  }

  /** One turn of the loop: the heapsort, a peel or a division. */
  method Round<T(!new)>(a: array<T>, ghost s0: seq<T>, ghost lo: nat, first: nat, last: nat, ghost hi: nat, depth: nat,
                        order: Order<T>, leftmost: bool, ghost peeled: bool, ghost levels: nat, ghost room: nat)
    returns (first': nat, last': nat, depth': nat, leftmost': bool, done: bool, ghost peeled': bool)
    requires first + SMALL < last <= a.Length && last - first <= HALF_UNSIGNED && StrictWeakOrder(order.comp)
    requires Pending(order.comp, s0, a[..], lo, first, last, hi, leftmost, peeled)
    requires Log2Floor(last - first) <= levels && Log2Floor(last - first) <= room
    modifies a, order
    ensures done ==> lo <= hi <= |a[..]| && Sorted(order.comp, a[..], lo, hi) && Rearranged(s0, a[..], lo, hi)
    ensures !done ==> first <= first' <= last' <= last && last' - first' < last - first
    ensures !done ==> Pending(order.comp, s0, a[..], lo, first', last', hi, leftmost', peeled')
    ensures old(order.calls) <= order.calls
    ensures order.calls + (if done then 0 else Budget(last' - first', depth', levels, !leftmost' && !peeled'))
            <= old(order.calls) + Budget(last - first, depth, levels, !leftmost && !peeled)
    decreases room, 2
  {
    hide StrictWeakOrder, Sorted, Rearranged, Pending, HasSentinel, Budget, Log2Floor, HeapSortCost;
    ghost var comp, s := order.comp, a[..];
    first', last', depth', leftmost', done, peeled' := first, last, depth, leftmost, false, peeled;
    PendingBounds(comp, s0, s, lo, first, last, hi, leftmost, peeled);
    if depth == 0 {
      HeapBudget(last - first, depth, levels, !leftmost && !peeled);
      HeapSort(a, first, last, order);
      PendingSorted(comp, s0, s, a[..], lo, first, last, hi, leftmost, peeled);
      done := true;
      return;
    }
    var peels := PivotPeels(a, first, last, order, leftmost);
    PendingRearranged(comp, s0, s, a[..], lo, first, last, hi, leftmost, peeled);
    if peels {
      var p := PeelOff(a, s0, lo, first, last, hi, order, peeled, depth, levels);
      first', peeled' := p + 1, true;
    } else {
      first', last', leftmost', done := DivideAndSort(a, s0, lo, first, last, hi, depth, order, leftmost, peeled, levels, room);
      depth', peeled' := depth - 1, false;
    }
  }

  /** One division: the shorter side is sorted, and the other is what is left, unless both are finished. */
  method DivideAndSort<T(!new)>(a: array<T>, ghost s0: seq<T>, ghost lo: nat, first: nat, last: nat, ghost hi: nat, depth: nat,
                                order: Order<T>, leftmost: bool, ghost peeled: bool, ghost levels: nat, ghost room: nat)
    returns (first': nat, last': nat, leftmost': bool, finished: bool)
    requires first + SMALL < last <= a.Length && last - first <= HALF_UNSIGNED && StrictWeakOrder(order.comp)
    requires HasSentinel(order.comp, a[..], first, last) && depth > 0
    requires Pending(order.comp, s0, a[..], lo, first, last, hi, leftmost, peeled)
    requires Log2Floor(last - first) <= levels && Log2Floor(last - first) <= room
    modifies a, order
    ensures finished ==> lo <= hi <= |a[..]| && Sorted(order.comp, a[..], lo, hi) && Rearranged(s0, a[..], lo, hi)
    ensures !finished ==> first <= first' <= last' <= last && last' - first' < last - first
    ensures !finished ==> Pending(order.comp, s0, a[..], lo, first', last', hi, leftmost', false)
    ensures old(order.calls) <= order.calls
    ensures order.calls + PIVOT_COST + 1 + (if finished then 0 else Budget(last' - first', depth - 1, levels, !leftmost'))
            <= old(order.calls) + Budget(last - first, depth, levels, !leftmost && !peeled)
    decreases room, 1
  {
    hide StrictWeakOrder, Sorted, Rearranged, Pending, Divided, HasSentinel, Budget, Log2Floor, NoneBelow;
    ghost var c0, n := order.calls, last - first;
    var p;
    p, finished := Divide(a, s0, lo, first, last, hi, order, leftmost, peeled);
    first', last', leftmost' := first, last, leftmost;
    var lsize, rsize := p - first, last - (p + 1);
    SideLevels(lsize, rsize, n, n);
    SplitBudget(n, lsize, rsize, depth, levels, 3 * n + 2 + PIVOT_COST + 2 * MOVE_LIMIT, !leftmost && !peeled, !leftmost);
    if !finished {
      SortShorter(a, s0, lo, first, p, last, hi, depth - 1, order, leftmost, levels, room);
      if lsize < rsize {
        first', leftmost' := p + 1, false;
      } else {
        last' := p;
      }
    }
  }

  /** The shorter side of the pivot is sorted by a call of its own. */
  method SortShorter<T(!new)>(a: array<T>, ghost s0: seq<T>, ghost lo: nat, first: nat, p: nat, last: nat, ghost hi: nat, depth: nat,
                              order: Order<T>, leftmost: bool, ghost levels: nat, ghost room: nat)
    requires first <= p < last <= a.Length && last - first <= HALF_UNSIGNED && StrictWeakOrder(order.comp)
    requires Pending(order.comp, s0, a[..], lo, first, last, hi, leftmost, false) && Divided(order.comp, a[..], first, p, last)
    requires !leftmost ==> 0 < first && NoneBelow(order.comp, a[..], first, p, a[first - 1])
    requires NoneBelow(order.comp, a[..], p + 1, last, a[p])
    requires var l, r := p - first, last - (p + 1);
      Log2Floor(l) <= levels && Log2Floor(r) <= levels && 1 + Log2Floor(if l < r then l else r) <= room
    modifies a, order
    ensures var l, r := p - first, last - (p + 1);
      && (if l < r then Pending(order.comp, s0, a[..], lo, p + 1, last, hi, false, false)
          else Pending(order.comp, s0, a[..], lo, first, p, hi, leftmost, false))
      && old(order.calls) <= order.calls
         <= old(order.calls) + if l < r then Budget(l, depth, levels, !leftmost) else Budget(r, depth, levels, true)
    decreases room, 0
  {
    hide StrictWeakOrder, Pending, Divided, NoneBelow, Sorted, Rearranged, Budget, Log2Floor;
    ghost var s, comp := a[..], order.comp;
    if p - first < last - (p + 1) {
      Introsort(a, first, p, depth, order, leftmost, levels, room - 1);
      PendingRight(comp, s0, s, a[..], lo, first, p, last, hi, leftmost);
    } else {
      Introsort(a, p + 1, last, depth, order, false, levels, room - 1);
      PendingLeft(comp, s0, s, a[..], lo, first, p, last, hi, leftmost);
    }
  }

  /** The equals of the pivot are cut off: they are final, and what is left is above them. */
  method PeelOff<T(!new)>(a: array<T>, ghost s0: seq<T>, ghost lo: nat, first: nat, last: nat, ghost hi: nat, order: Order<T>,
                          ghost peeled: bool, ghost depth: nat, ghost levels: nat) returns (p: nat)
    requires first + SMALL < last <= a.Length && StrictWeakOrder(order.comp)
    requires Pending(order.comp, s0, a[..], lo, first, last, hi, false, peeled) && !order.comp.Lt(a[first - 1], a[first])
    modifies a, order
    ensures !peeled && first <= p < last && Pending(order.comp, s0, a[..], lo, p + 1, last, hi, false, true)
    ensures old(order.calls) <= order.calls
    ensures order.calls + PIVOT_COST + 1 + Budget(last - (p + 1), depth, levels, false)
            <= old(order.calls) + Budget(last - first, depth, levels, true)
  {
    hide StrictWeakOrder, Pending, RestThenAbove, Rearranged, Budget;
    ghost var s, comp := a[..], order.comp;
    PendingBounds(comp, s0, s, lo, first, last, hi, false, peeled);
    assert a[first - 1] == s[first - 1] && a[first] == s[first];
    PeeledOnce(comp, s0, s, lo, first, last, hi, peeled);
    p := PartitionLeft(a, first, last, order);
    PendingPeeled(comp, s0, s, a[..], lo, first, p, last, hi);
    PeelBudget(last - first, last - (p + 1), depth, levels, (last - first) + 2 + PIVOT_COST);
  }

  /** The range is divided, and both sides finished when that is cheap. */
  method Divide<T(!new)>(a: array<T>, ghost s0: seq<T>, ghost lo: nat, first: nat, last: nat, ghost hi: nat, order: Order<T>,
                         leftmost: bool, ghost peeled: bool) returns (p: nat, finished: bool)
    requires first < last <= a.Length && StrictWeakOrder(order.comp) && HasSentinel(order.comp, a[..], first, last)
    requires Pending(order.comp, s0, a[..], lo, first, last, hi, leftmost, peeled)
    modifies a, order
    ensures first <= p < last && Divided(order.comp, a[..], first, p, last)
    ensures Pending(order.comp, s0, a[..], lo, first, last, hi, leftmost, false)
    ensures finished ==> lo <= hi <= |a[..]| && Sorted(order.comp, a[..], lo, hi) && Rearranged(s0, a[..], lo, hi)
    ensures !leftmost ==> 0 < first && NoneBelow(order.comp, a[..], first, p, a[first - 1])
    ensures NoneBelow(order.comp, a[..], p + 1, last, a[p])
    ensures old(order.calls) <= order.calls <= old(order.calls) + 3 * (last - first) + 1 + 2 * MOVE_LIMIT
  {
    hide StrictWeakOrder, Pending, Divided, Rearranged, Sorted, HasSentinel, NoneBelow;
    ghost var s, comp := a[..], order.comp;
    PendingBounds(comp, s0, s, lo, first, last, hi, leftmost, peeled);
    p, finished := PartitionAndFinish(a, first, last, order);
    AfterDivision(comp, s0, s, a[..], lo, first, p, last, hi, leftmost, peeled);
  }

  lemma PendingBounds<T>(comp: Comparator<T>, s0: seq<T>, s: seq<T>, lo: int, first: int, last: int, hi: int, leftmost: bool, peeled: bool)
    requires Pending(comp, s0, s, lo, first, last, hi, leftmost, peeled)
    ensures 0 <= lo <= first <= last <= hi <= |s0| == |s|
    ensures !leftmost ==> 0 < first
  {
  }

  /** The pivot is chosen, and compared with the element before the range if there is one: a pivot not above
      it has its equals to peel off. */
  method PivotPeels<T(!new)>(a: array<T>, first: nat, last: nat, order: Order<T>, leftmost: bool) returns (peels: bool)
    requires first < last <= a.Length && StrictWeakOrder(order.comp) && (!leftmost ==> 0 < first)
    modifies a, order
    ensures Rearranged(old(a[..]), a[..], first, last)
    ensures first + 2 < last ==> HasSentinel(order.comp, a[..], first, last)
    ensures peels <==> !leftmost && !order.comp.Lt(a[first - 1], a[first])
    ensures old(order.calls) <= order.calls <= old(order.calls) + PIVOT_COST + 1
  {
    hide StrictWeakOrder, Rearranged, HasSentinel;
    ChoosePivot(a, first, last, order);
    ghost var s := a[..];
    peels := false;
    if !leftmost {
      var above := order.Below(a[first - 1], a[first]);
      peels := !above;
    }
    assert s == a[..];
  }

  /** Partition, and when the range came back in order and evenly split, try to finish
      it by two bounded insertion sorts. */
  method PartitionAndFinish<T(!new)>(a: array<T>, first: nat, last: nat, order: Order<T>)
    returns (p: nat, finished: bool)
    requires first < last <= a.Length && StrictWeakOrder(order.comp)
    requires HasSentinel(order.comp, a[..], first, last)
    modifies a, order
    ensures first <= p < last && Divided(order.comp, a[..], first, p, last)
    ensures Rearranged(old(a[..]), a[..], first, last)
    ensures finished ==> Sorted(order.comp, a[..], first, last)
    ensures old(order.calls) <= order.calls <= old(order.calls) + 3 * (last - first) + 1 + 2 * MOVE_LIMIT
  {
    ghost var comp := order.comp;
    hide StrictWeakOrder, Sorted, Rearranged, Divided, BelowThenRest, HasSentinel, Swapped;
    var n := last - first;
    ghost var s0 := a[..];
    var already;
    p, already := PartitionRight(a, first, last, order);
    ghost var s := a[..];
    PartitionDivides(comp, s, first, p, last);
    finished := false;
    var lsize, rsize := p - first, last - (p + 1);
    var unbalanced := lsize < n / 8 || rsize < n / 8;
    if already && !unbalanced {
      finished := FinishOrdered(a, first, p, last, order);
      RearrangedTransitive(s0, s, a[..], first, last);
    }
  }

  /** Both sides by bounded insertion sort, the second only if the first was not given up. */
  method FinishOrdered<T(!new)>(a: array<T>, first: nat, p: nat, last: nat, order: Order<T>) returns (finished: bool)
    requires first <= p < last <= a.Length && StrictWeakOrder(order.comp)
    requires Divided(order.comp, a[..], first, p, last)
    modifies a, order
    ensures Divided(order.comp, a[..], first, p, last)
    ensures Rearranged(old(a[..]), a[..], first, last)
    ensures finished ==> Sorted(order.comp, a[..], first, last)
    ensures old(order.calls) <= order.calls <= old(order.calls) + 2 * (last - first) + 2 * MOVE_LIMIT
  {
    ghost var comp := order.comp;
    hide StrictWeakOrder, Sorted, Rearranged, Divided;
    ghost var s0 := a[..];
    finished := PartialInsertionSort(a, first, p, order);
    ghost var s := a[..];
    SideRearranged(comp, s0, s, first, p, last, true);
    if finished {
      finished := PartialInsertionSort(a, p + 1, last, order);
      SideRearranged(comp, s, a[..], first, p, last, false);
      RearrangedTransitive(s0, s, a[..], first, last);
      SidesSorted(comp, s, a[..], first, p, last);
    }
  }

  ghost predicate Bounds(lo: int, first: int, last: int, hi: int) {
    0 <= lo <= first <= last <= hi
  }

  lemma StartPending<T(!new)>(comp: Comparator<T>, s: seq<T>, first: int, last: int, leftmost: bool)
    requires 0 <= first <= last <= |s|
    requires !leftmost ==> 0 < first && NoneBelow(comp, s, first, last, s[first - 1])
    ensures Pending(comp, s, s, first, first, last, last, leftmost, false)
  {
  }
}
