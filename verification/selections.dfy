/** Picking some elements of a sequence, in order. */
module Selections {
  import opened Options

  ghost predicate Rising(at: seq<nat>) {
    forall i, j :: 0 <= i < j < |at| ==> at[i] < at[j]
  }

  lemma RisingMore(at: seq<nat>, next: nat)
    requires Rising(at) && (at == [] || at[|at| - 1] < next)
    ensures Rising(at + [next])
  {
  }

  /** r is exactly the elements of xs that are kept, repeats included, in their order: the k-th stands at
      place at[k]. */
  ghost predicate Selects<S, T>(xs: seq<S>, keep: S -> Option<T>, r: seq<T>, at: seq<nat>) {
    && |at| == |r| && Rising(at)
    && (forall k :: 0 <= k < |at| ==> at[k] < |xs| && keep(xs[at[k]]) == Some(r[k]))
    && (forall i :: 0 <= i < |xs| && keep(xs[i]).Some? ==> i in at)
  }

  lemma SelectsMore<S, T>(xs: seq<S>, keep: S -> Option<T>, r: seq<T>, at: seq<nat>) returns (now: seq<nat>)
    requires xs != [] && Selects(xs[..|xs| - 1], keep, r, at)
    ensures var k := keep(xs[|xs| - 1]);
      Selects(xs, keep, r + if k.Some? then [k.value] else [], now)
  {
    var n := |xs| - 1;
    var k := keep(xs[n]);
    now := at + if k.Some? then [n] else [];
    assert r + [] == r && at + [] == at;
    assert forall i :: 0 <= i < |at| ==> xs[..n][at[i]] == xs[at[i]];
    forall i | 0 <= i < |xs| && keep(xs[i]).Some?
      ensures i in now
    {
      if i < n {
        assert xs[..n][i] == xs[i];
        assert i in at;
      } else {
        assert now[|at|] == n;
      }
    }
  }
}
