/** Strict weak orderings, and what it means for a stretch of a sequence to be
    sorted or rearranged.  Everything in `Sorting` is stated with these. */
module Ordering {

  /** The comparator a sort is given. */
  datatype Comparator<!T> = Comparator(less: (T, T) -> bool) {
    ghost predicate Lt(x: T, y: T) {
      less(x, y)
    }
  }

  /** The comparator as the sort calls it, with a count of the calls. */
  class Order<!T> {
    const comp: Comparator<T>
    ghost var calls: nat

    constructor (c: Comparator<T>)
      ensures comp == c && calls == 0
    {
      comp, calls := c, 0;
    }

    method Below(x: T, y: T) returns (r: bool)
      modifies this
      ensures r == comp.Lt(x, y) && calls == old(calls) + 1
    {
      calls := calls + 1;
      r := comp.less(x, y);
    }
  }

  /** The three laws of a strict weak ordering, at one triple of values. */
  ghost predicate Laws<T>(comp: Comparator<T>, x: T, y: T, z: T) {
    && !comp.Lt(x, x)
    && (comp.Lt(x, y) && comp.Lt(y, z) ==> comp.Lt(x, z))
    && (!comp.Lt(x, y) && !comp.Lt(y, x) && !comp.Lt(y, z) && !comp.Lt(z, y) ==> !comp.Lt(x, z) && !comp.Lt(z, x))
  }

  ghost predicate StrictWeakOrder<T(!new)>(comp: Comparator<T>) {
    forall x, y, z :: Laws(comp, x, y, z)
  }

  lemma Asymmetric<T(!new)>(comp: Comparator<T>, x: T, y: T)
    requires StrictWeakOrder(comp) && comp.Lt(x, y)
    ensures !comp.Lt(y, x)
  {
    assert Laws(comp, x, y, x);
  }

  lemma Irreflexive<T(!new)>(comp: Comparator<T>, x: T)
    requires StrictWeakOrder(comp)
    ensures !comp.Lt(x, x)
  {
    assert Laws(comp, x, x, x);
  }

  /** The laws at every ordering of three given values. */
  lemma LawsAt<T(!new)>(comp: Comparator<T>, x: T, y: T, z: T)
    requires StrictWeakOrder(comp)
    ensures Laws(comp, x, y, z) && Laws(comp, x, z, y) && Laws(comp, y, x, z)
    ensures Laws(comp, y, z, x) && Laws(comp, z, x, y) && Laws(comp, z, y, x)
    ensures Laws(comp, x, y, x) && Laws(comp, y, z, y) && Laws(comp, x, z, x)
  {
  }

  /** "Not below" is transitive: x <= y and y <= z give x <= z. */
  lemma NotBelowTransitive<T(!new)>(comp: Comparator<T>, x: T, y: T, z: T)
    requires StrictWeakOrder(comp)
    requires !comp.Lt(y, x) && !comp.Lt(z, y)
    ensures !comp.Lt(z, x)
  {
    LawsAt(comp, x, y, z);
  }

  /** No element of s[lo..hi] is below one that stands before it. */
  ghost predicate Sorted<T>(comp: Comparator<T>, s: seq<T>, lo: int, hi: int)
    requires 0 <= lo <= hi <= |s|
  {
    forall i, j :: lo <= i < j < hi ==> !comp.Lt(s[j], s[i])
  }

  /** t is s with only the stretch [lo, hi) rearranged. */
  ghost predicate Rearranged<T>(s: seq<T>, t: seq<T>, lo: int, hi: int)
    requires 0 <= lo <= hi <= |s|
  {
    && |t| == |s|
    && (forall k :: 0 <= k < |s| && !(lo <= k < hi) ==> t[k] == s[k])
    && multiset(t[lo..hi]) == multiset(s[lo..hi])
  }

  lemma StartSorting<T(!new)>(comp: Comparator<T>, s: seq<T>, lo: int, hi: int, whole: int)
    requires 0 <= lo <= hi <= whole <= |s| && hi <= lo + 1
    ensures Sorted(comp, s, lo, hi) && Rearranged(s, s, lo, whole)
  {
  }

  lemma Unmoved<T>(s: seq<T>, first: int, last: int)
    requires 0 <= first <= last <= |s|
    ensures Rearranged(s, s, first, last)
  {
  }

  /** Neighbours in order means every pair is in order. */
  lemma {:induction false} SortedFromNeighbours<T(!new)>(comp: Comparator<T>, s: seq<T>, lo: int, hi: int)
    requires StrictWeakOrder(comp) && 0 <= lo <= hi <= |s|
    requires forall k :: lo < k < hi ==> !comp.Lt(s[k], s[k - 1])
    ensures Sorted(comp, s, lo, hi)
    decreases hi - lo
  {
    if hi - lo > 1 {
      SortedFromNeighbours(comp, s, lo, hi - 1);
      forall i | lo <= i < hi - 1
        ensures !comp.Lt(s[hi - 1], s[i])
      {
        if i < hi - 2 {
          NotBelowTransitive(comp, s[i], s[hi - 2], s[hi - 1]);
        }
      }
    }
  }

  ghost function Swapped<T>(s: seq<T>, i: int, j: int): seq<T>
    requires 0 <= i < |s| && 0 <= j < |s|
  {
    s[i := s[j]][j := s[i]]
  }

  method Swap<T>(a: array<T>, i: int, j: int)
    requires 0 <= i < a.Length && 0 <= j < a.Length
    modifies a
    ensures a[..] == Swapped(old(a[..]), i, j)
  {
    a[i], a[j] := a[j], a[i];
  }

  lemma RearrangedSwap<T>(s: seq<T>, i: int, j: int, lo: int, hi: int)
    requires 0 <= lo <= i < hi <= |s| && lo <= j < hi
    ensures Rearranged(s, Swapped(s, i, j), lo, hi)
  {
    assert Swapped(s, i, j)[lo..hi] == s[lo..hi][i - lo := s[j]][j - lo := s[i]];
  }

  lemma RearrangedTransitive<T>(s: seq<T>, t: seq<T>, u: seq<T>, lo: int, hi: int)
    requires 0 <= lo <= hi <= |s|
    requires Rearranged(s, t, lo, hi) && Rearranged(t, u, lo, hi)
    ensures Rearranged(s, u, lo, hi)
  {
  }

  lemma RearrangedWiden<T>(s: seq<T>, t: seq<T>, lo: int, hi: int, lo': int, hi': int)
    requires 0 <= lo' <= lo <= hi <= hi' <= |s|
    requires Rearranged(s, t, lo, hi)
    ensures Rearranged(s, t, lo', hi')
  {
    assert s[lo'..hi'] == s[lo'..lo] + s[lo..hi] + s[hi..hi'];
    assert t[lo'..hi'] == t[lo'..lo] + t[lo..hi] + t[hi..hi'];
    assert s[lo'..lo] == t[lo'..lo];
    assert s[hi..hi'] == t[hi..hi'];
  }

  /** Where an element of the rearranged stretch came from. */
  lemma RearrangedSource<T>(s: seq<T>, t: seq<T>, lo: int, hi: int, k: int) returns (from: int)
    requires 0 <= lo <= hi <= |s| && Rearranged(s, t, lo, hi)
    requires 0 <= k < |s|
    ensures 0 <= from < |s| && t[k] == s[from]
    ensures if lo <= k < hi then lo <= from < hi else from == k
  {
    from := k;
    if lo <= k < hi {
      assert t[lo..hi][k - lo] == t[k];
      assert t[k] in multiset(t[lo..hi]);
      assert t[k] in s[lo..hi];
      var i :| 0 <= i < hi - lo && s[lo..hi][i] == t[k];
      from := lo + i;
    }
  }

  /** Outside [first, last) the stretch [lo, hi) is in its final order: whatever
      happens inside [first, last) by rearranging cannot break it. */
  ghost predicate Framed<T>(comp: Comparator<T>, s: seq<T>, lo: int, first: int, last: int, hi: int)
    requires 0 <= lo <= first <= last <= hi <= |s|
  {
    forall i, j :: lo <= i < j < hi && (i < first || last <= j) ==> !comp.Lt(s[j], s[i])
  }

  lemma FramedRearranged<T>(comp: Comparator<T>, s: seq<T>, t: seq<T>, lo: int, first: int, last: int, hi: int)
    requires 0 <= lo <= first <= last <= hi <= |s|
    requires Framed(comp, s, lo, first, last, hi) && Rearranged(s, t, first, last)
    ensures Framed(comp, t, lo, first, last, hi)
  {
    forall i, j | lo <= i < j < hi && (i < first || last <= j)
      ensures !comp.Lt(t[j], t[i])
    {
      var i' := RearrangedSource(s, t, first, last, i);
      var j' := RearrangedSource(s, t, first, last, j);
    }
  }

  lemma FramedSorted<T(!new)>(comp: Comparator<T>, s: seq<T>, lo: int, first: int, last: int, hi: int)
    requires 0 <= lo <= first <= last <= hi <= |s|
    requires Framed(comp, s, lo, first, last, hi) && Sorted(comp, s, first, last)
    ensures Sorted(comp, s, lo, hi)
  {
  }
}
