/** Counting facts about finite sets of slots. */
module Pigeonhole {

  ghost function Range(n: nat): (r: set<int>)
    ensures forall x :: x in r <==> 0 <= x < n
  {
    if n == 0 then {} else Range(n - 1) + {n - 1}
  }

  lemma {:induction false} RangeSize(n: nat)
    ensures |Range(n)| == n
  {
    RangeParts(n);
    hide Range;
    if n > 0 {
      RangeSize(n - 1);
      OneMoreSize(Range(n - 1), n - 1);
    }
  }

  lemma RangeParts(n: nat)
    ensures Range(n) == if n == 0 then {} else Range(n - 1) + {n - 1}
  {
  }

  lemma OneMoreSize(s: set<int>, x: int)
    requires x !in s
    ensures |s + {x}| == |s| + 1
  {
  }

  lemma {:induction false} DistinctSize(s: seq<int>)
    requires forall i, j :: 0 <= i < j < |s| ==> s[i] != s[j]
    ensures |set x | x in s| == |s|
  {
    if s != [] {
      var t := s[..|s| - 1];
      DistinctSize(t);
      assert forall x :: x in s <==> x in t || x == s[|s| - 1];
      assert (set x | x in s) == (set x | x in t) + {s[|s| - 1]};
    }
  }

  lemma SubsetSize<T>(a: set<T>, b: set<T>)
    requires a <= b
    ensures |a| <= |b|
    ensures |a| == |b| ==> a == b
  {
    assert b == a + (b - a);
  }

  /** n distinct numbers below n are all of them. */
  lemma DistinctCovers(s: seq<int>, v: int)
    requires forall i, j :: 0 <= i < j < |s| ==> s[i] != s[j]
    requires forall i :: 0 <= i < |s| ==> 0 <= s[i] < |s|
    requires 0 <= v < |s|
    ensures v in s
  {
    DistinctSize(s);
    RangeSize(|s|);
    var image := set x | x in s;
    SubsetSize(image, Range(|s|));
    assert v in Range(|s|);
  }
}
