/** Insertion sorts of algorithm.hpp: the leaf sort of introsort and the bounded
    one that may give up.  A pointer into the range is an index into the array;
    `cost` counts calls of the comparator. */
module InsertionSorts {
  import opened Ordering

  /** s with s[i] taken out and put back in front of s[j..i]. */
  ghost function Rotated<T>(s: seq<T>, j: int, i: int): seq<T>
    requires 0 <= j <= i < |s|
  {
    seq(|s|, k requires 0 <= k < |s| => if k == j then s[i] else if j < k <= i then s[k - 1] else s[k])
  }

  lemma RotatedRearranges<T>(s: seq<T>, j: int, i: int, lo: int, hi: int)
    requires 0 <= lo <= j <= i < hi <= |s|
    ensures Rearranged(s, Rotated(s, j, i), lo, hi)
  {
    var t := Rotated(s, j, i);
    assert s[j..i + 1] == s[j..i] + [s[i]];
    assert t[j..i + 1] == [s[i]] + s[j..i];
    RearrangedWiden(s, t, j, i + 1, lo, hi);
  }

  /** Inserting s[i] just after the last element it is not below keeps order. */
  lemma InsertKeepsSorted<T(!new)>(comp: Comparator<T>, s: seq<T>, lo: int, j: int, i: int)
    requires StrictWeakOrder(comp) && 0 <= lo <= j <= i < |s|
    requires Sorted(comp, s, lo, i)
    requires j == lo || !comp.Lt(s[i], s[j - 1])
    requires forall k :: j <= k < i ==> comp.Lt(s[i], s[k])
    ensures Sorted(comp, Rotated(s, j, i), lo, i + 1)
  {
    hide StrictWeakOrder;
    var t := Rotated(s, j, i);
    forall p, q | lo <= p < q < i + 1
      ensures !comp.Lt(t[q], t[p])
    {
      if p == j {
        Asymmetric(comp, s[i], s[q - 1]);
      } else if q == j && p < j - 1 {
        NotBelowTransitive(comp, s[p], s[j - 1], s[i]);
      }
    }
  }

  /** Halfway there: s[j..i] has moved up one place, and s[j] still stands at j. */
  ghost function Shifted<T>(s: seq<T>, j: int, i: int): seq<T>
    requires 0 <= j <= i < |s|
  {
    Rotated(s, j, i)[j := s[j]]
  }

  lemma ShiftedSteps<T>(s: seq<T>, j: int, i: int)
    requires 0 <= j <= i < |s|
    ensures Shifted(s, i, i) == s
    ensures 0 < j ==> Shifted(s, j, i)[j := s[j - 1]] == Shifted(s, j - 1, i) && Shifted(s, j, i)[j - 1] == s[j - 1]
    ensures Shifted(s, j, i)[j := s[i]] == Rotated(s, j, i)
  {
  }

  /** The inner loop of both insertion sorts: move a[i] down past everything it is
      below.  `moved` says the caller already compared a[i] with a[i - 1]. */
  method SinkLeft<T(!new)>(a: array<T>, first: nat, i: nat, order: Order<T>, moved: bool)
    returns (j: nat)
    requires first < i < a.Length
    requires moved ==> order.comp.Lt(a[i], a[i - 1])
    modifies a, order
    ensures first <= j <= i && (moved ==> j < i)
    ensures a[..] == Rotated(old(a[..]), j, i)
    ensures j == first || !order.comp.Lt(old(a[..])[i], old(a[..])[j - 1])
    ensures forall k :: j <= k < i ==> order.comp.Lt(old(a[..])[i], old(a[..])[k])
    ensures old(order.calls) <= order.calls <= old(order.calls) + (i - first) && (moved ==> order.calls <= old(order.calls) + (i - j))
  {
    hide Rotated, Shifted;
    ghost var s, comp, c0 := a[..], order.comp, order.calls;
    var key := a[i];
    j := i;
    ShiftedSteps(s, j, i);
    if moved {
      a[j] := a[j - 1];
      j := j - 1;
    }
    ShiftedSteps(s, j, i);
    while j > first
      invariant first <= j <= i && (moved ==> j < i)
      invariant a[..] == Shifted(s, j, i)
      invariant 0 < j ==> a[j - 1] == s[j - 1]
      invariant forall k :: j <= k < i ==> comp.Lt(key, s[k])
      invariant order.calls == c0 + i - j - if moved then 1 else 0
    {
      var below := order.Below(key, a[j - 1]);
      if !below {
        break;
      }
      ShiftedSteps(s, j, i);
      a[j] := a[j - 1];
      j := j - 1;
      ShiftedSteps(s, j, i);
    }
    ShiftedSteps(s, j, i);
    a[j] := key;
  }

  method InsertionSort<T(!new)>(a: array<T>, first: nat, last: nat, order: Order<T>)
    requires first <= last <= a.Length && StrictWeakOrder(order.comp)
    modifies a, order
    ensures Sorted(order.comp, a[..], first, last)
    ensures Rearranged(old(a[..]), a[..], first, last)
    ensures old(order.calls) <= order.calls <= old(order.calls) + Pairs(last - first)
  {
    hide StrictWeakOrder, Rotated, Rearranged, Sorted;
    ghost var comp, c0 := order.comp, order.calls;
    if first == last {
      StartSorting(comp, a[..], first, last, last);
      return;
    }
    StartSorting(comp, a[..], first, first + 1, last);
    var i := first + 1;
    ghost var m: nat := 1;
    while i < last
      invariant first + m == i <= last
      invariant Rearranged(old(a[..]), a[..], first, last)
      invariant Sorted(comp, a[..], first, i)
      invariant c0 <= order.calls <= c0 + Pairs(m)
    {
      ghost var s := a[..];
      var j := SinkLeft(a, first, i, order, false);
      InsertKeepsSorted(comp, s, first, j, i);
      RotatedRearranges(s, j, i, first, last);
      RearrangedTransitive(old(a[..]), s, a[..], first, last);
      i, m := i + 1, m + 1;
    }
  }

  /** The number of pairs among n things: what insertion sort compares at worst. */
  ghost function Pairs(n: nat): nat {
    if n == 0 then 0 else Pairs(n - 1) + (n - 1)
  }

  lemma {:induction false} PairsValue(n: nat)
    ensures 2 * Pairs(n) == n * (n - 1)
  {
    if n > 0 {
      PairsValue(n - 1);
    }
  }

  const MOVE_LIMIT := 8

  /** How many elements of s are above x. */
  ghost function CountAbove<T>(comp: Comparator<T>, s: seq<T>, x: T): nat {
    if s == [] then 0
    else CountAbove(comp, s[..|s| - 1], x) + if comp.Lt(x, s[|s| - 1]) then 1 else 0
  }

  /** How many pairs of s[lo..hi) stand the wrong way round. */
  ghost function Inversions<T>(comp: Comparator<T>, s: seq<T>, lo: int, hi: int): nat
    requires 0 <= lo <= hi <= |s|
    decreases hi - lo
  {
    if lo == hi then 0 else Inversions(comp, s, lo, hi - 1) + CountAbove(comp, s[lo..hi - 1], s[hi - 1])
  }

  lemma {:induction false} CountConcat<T>(comp: Comparator<T>, s: seq<T>, t: seq<T>, x: T)
    ensures CountAbove(comp, s + t, x) == CountAbove(comp, s, x) + CountAbove(comp, t, x)
    decreases |t|
  {
    if t == [] {
      assert s + t == s;
    } else {
      assert (s + t)[..|s + t| - 1] == s + t[..|t| - 1];
      CountConcat(comp, s, t[..|t| - 1], x);
    }
  }

  /** The count depends on the elements alone, not on their order. */
  lemma {:induction false} CountRearranged<T>(comp: Comparator<T>, s: seq<T>, t: seq<T>, x: T)
    requires multiset(s) == multiset(t)
    ensures CountAbove(comp, s, x) == CountAbove(comp, t, x)
    decreases |s|
  {
    if s == [] {
      assert |multiset(t)| == 0;
    } else {
      var n := |s| - 1;
      assert s[n] in multiset(t);
      var i :| 0 <= i < |t| && t[i] == s[n];
      CountWithout(comp, t, i, x);
      WithoutOne(s, n);
      WithoutOne(t, i);
      assert s[..n] + s[n + 1..] == s[..n];
      CountRearranged(comp, s[..n], t[..i] + t[i + 1..], x);
    }
  }

  lemma WithoutOne<T>(t: seq<T>, i: nat)
    requires i < |t|
    ensures multiset(t[..i] + t[i + 1..]) == multiset(t) - multiset{t[i]}
  {
    assert t == t[..i] + [t[i]] + t[i + 1..];
  }

  lemma CountWithout<T>(comp: Comparator<T>, t: seq<T>, i: nat, x: T)
    requires i < |t|
    ensures CountAbove(comp, t, x) == CountAbove(comp, t[..i] + t[i + 1..], x) + if comp.Lt(x, t[i]) then 1 else 0
  {
    var front, back := t[..i], t[i + 1..];
    assert t == front + ([t[i]] + back);
    CountConcat(comp, front, [t[i]] + back, x);
    CountConcat(comp, [t[i]], back, x);
    CountConcat(comp, front, back, x);
    assert [t[i]][..0] == [];
  }

  lemma {:induction false} CountAllOrNone<T>(comp: Comparator<T>, s: seq<T>, x: T, above: bool)
    requires forall k :: 0 <= k < |s| ==> comp.Lt(x, s[k]) == above
    ensures CountAbove(comp, s, x) == if above then |s| else 0
    decreases |s|
  {
    if s != [] {
      CountAllOrNone(comp, s[..|s| - 1], x, above);
    }
  }

  lemma CountSplit<T(!new)>(comp: Comparator<T>, s: seq<T>, first: int, j: int, cur: int, x: T)
    requires 0 <= first <= j <= cur < |s|
    requires forall k :: first <= k < j ==> !comp.Lt(x, s[k])
    requires forall k :: j <= k < cur ==> comp.Lt(x, s[k])
    ensures CountAbove(comp, s[first..cur], x) == cur - j
  {
    assert s[first..cur] == s[first..j] + s[j..cur];
    CountConcat(comp, s[first..j], s[j..cur], x);
    CountAllOrNone(comp, s[first..j], x, false);
    CountAllOrNone(comp, s[j..cur], x, true);
  }

  /** Sinking an element past j shifts exactly those above it in the prefix. */
  lemma ShiftsAreInversions<T(!new)>(comp: Comparator<T>, s0: seq<T>, s: seq<T>, first: int, j: int, cur: int)
    requires StrictWeakOrder(comp) && 0 <= first <= j <= cur < |s| == |s0|
    requires Rearranged(s0, s, first, cur) && Sorted(comp, s, first, cur)
    requires j == first || !comp.Lt(s[cur], s[j - 1])
    requires forall k :: j <= k < cur ==> comp.Lt(s[cur], s[k])
    ensures Inversions(comp, s0, first, cur + 1) == Inversions(comp, s0, first, cur) + (cur - j)
  {
    hide StrictWeakOrder, CountAbove;
    var x := s[cur];
    forall k | first <= k < j
      ensures !comp.Lt(x, s[k])
    {
      if k < j - 1 { NotBelowTransitive(comp, s[k], s[j - 1], x); }
    }
    CountSplit(comp, s, first, j, cur, x);
    CountRearranged(comp, s0[first..cur], s[first..cur], x);
  }

  /** An element in order with its predecessor extends the sorted prefix and brings no inversion. */
  lemma StaysPut<T(!new)>(comp: Comparator<T>, s0: seq<T>, s: seq<T>, first: int, cur: int)
    requires StrictWeakOrder(comp) && 0 <= first < cur < |s| == |s0|
    requires Rearranged(s0, s, first, cur) && Sorted(comp, s, first, cur) && !comp.Lt(s[cur], s[cur - 1])
    ensures Rearranged(s0, s, first, cur + 1) && Sorted(comp, s, first, cur + 1)
    ensures Inversions(comp, s0, first, cur + 1) == Inversions(comp, s0, first, cur)
  {
    hide StrictWeakOrder, Inversions;
    ShiftsAreInversions(comp, s0, s, first, cur, cur);
    ExtendSorted(comp, s, first, cur);
    RearrangedWiden(s0, s, first, cur, first, cur + 1);
  }

  /** Sinking an element rearranges the prefix it becomes part of. */
  lemma SinkRearranges<T(!new)>(s0: seq<T>, s: seq<T>, t: seq<T>, first: int, j: int, cur: int)
    requires 0 <= first <= j <= cur < |s| == |s0| && t == Rotated(s, j, cur)
    requires Rearranged(s0, s, first, cur)
    ensures Rearranged(s0, t, first, cur + 1)
  {
    hide Rearranged, Rotated;
    RotatedRearranges(s, j, cur, first, cur + 1);
    RearrangedWiden(s0, s, first, cur, first, cur + 1);
    RearrangedTransitive(s0, s, t, first, cur + 1);
  }

  lemma {:induction false} InversionsGrow<T>(comp: Comparator<T>, s: seq<T>, lo: int, mid: int, hi: int)
    requires 0 <= lo <= mid <= hi <= |s|
    ensures Inversions(comp, s, lo, mid) <= Inversions(comp, s, lo, hi)
    decreases hi - mid
  {
    if mid < hi {
      InversionsGrow(comp, s, lo, mid, hi - 1);
    }
  }

  /** One step: the next element finds its place in the sorted prefix, over as many places as it is
      the lower of an inversion with elements before it. */
  method PlaceNext<T(!new)>(a: array<T>, ghost s0: seq<T>, first: nat, cur: nat, order: Order<T>)
    returns (shifted: nat)
    requires first < cur < a.Length == |s0| && StrictWeakOrder(order.comp)
    requires Rearranged(s0, a[..], first, cur) && Sorted(order.comp, a[..], first, cur)
    modifies a, order
    ensures Rearranged(s0, a[..], first, cur + 1) && Sorted(order.comp, a[..], first, cur + 1)
    ensures Inversions(order.comp, s0, first, cur + 1) == Inversions(order.comp, s0, first, cur) + shifted
    ensures shifted <= cur - first && old(order.calls) <= order.calls <= old(order.calls) + 1 + shifted
  {
    hide StrictWeakOrder, Rotated, Rearranged, Sorted, Inversions;
    ghost var s, comp := a[..], order.comp;
    var below := order.Below(a[cur], a[cur - 1]);
    assert a[..] == s;
    if !below {
      StaysPut(comp, s0, s, first, cur);
      return 0;
    }
    var j := SinkLeft(a, first, cur, order, true);
    ShiftsAreInversions(comp, s0, s, first, j, cur);
    InsertKeepsSorted(comp, s, first, j, cur);
    SinkRearranges(s0, s, a[..], first, j, cur);
    shifted := cur - j;
  }

  /** Finishes, with the range sorted, if and only if at most eight pairs stood the wrong way
      round, which is how many moves it takes; otherwise it gives up and leaves a rearrangement. */
  method PartialInsertionSort<T(!new)>(a: array<T>, first: nat, last: nat, order: Order<T>)
    returns (finished: bool)
    requires first <= last <= a.Length && StrictWeakOrder(order.comp)
    modifies a, order
    ensures finished ==> Sorted(order.comp, a[..], first, last)
    ensures finished <==> Inversions(order.comp, old(a[..]), first, last) <= 8
    ensures Rearranged(old(a[..]), a[..], first, last)
    ensures old(order.calls) <= order.calls <= old(order.calls) + 2 * (last - first) + 8
  {
    hide StrictWeakOrder, Rearranged, Sorted, Inversions;
    ghost var s0, comp, c0 := a[..], order.comp, order.calls;
    StartSorting(comp, s0, first, if first == last then first else first + 1, last);
    FewInversions(comp, s0, first, last);
    if last - first < 2 {
      return true;
    }
    var moves := 0;
    var cur := first + 1;
    StartSorting(comp, s0, first, first + 1, first + 1);
    while cur != last
      invariant first + 1 <= cur <= last
      invariant Rearranged(s0, a[..], first, cur) && Sorted(comp, a[..], first, cur)
      invariant moves <= MOVE_LIMIT && moves == Inversions(comp, s0, first, cur)
      invariant c0 <= order.calls <= c0 + (cur - first - 1) + moves
      decreases last - cur
    {
      var shifted := PlaceNext(a, s0, first, cur, order);
      moves := moves + shifted;
      cur := cur + 1;
      if moves > MOVE_LIMIT {
        InversionsGrow(comp, s0, first, cur, last);
        RearrangedWiden(s0, a[..], first, cur, first, last);
        return false;
      }
    }
    return true;
  }

  lemma FewInversions<T>(comp: Comparator<T>, s: seq<T>, first: int, last: int)
    requires 0 <= first <= last <= |s|
    ensures last <= first + 1 ==> Inversions(comp, s, first, last) == 0
    ensures first < last ==> Inversions(comp, s, first, first + 1) == 0
  {
    assert s[first..first] == [];
  }

  lemma ExtendSorted<T(!new)>(comp: Comparator<T>, s: seq<T>, lo: int, cur: int)
    requires StrictWeakOrder(comp) && 0 <= lo < cur < |s|
    requires Sorted(comp, s, lo, cur) && !comp.Lt(s[cur], s[cur - 1])
    ensures Sorted(comp, s, lo, cur + 1)
  {
    forall i | lo <= i < cur - 1
      ensures !comp.Lt(s[cur], s[i])
    {
      NotBelowTransitive(comp, s[i], s[cur - 1], s[cur]);
    }
  }
}
