/** What one group of a probe tells a search, and why every probe loop ends. */
module HashProbe {
  import opened Lanes
  import opened Probing
  import opened HashTable

  /** Lane b of the i-th group on the path of `key`. */
  ghost function LaneSlot<K>(h: Hasher<K>, key: K, cap: nat, i: nat, b: nat): (s: int)
    requires TableCap(cap)
    ensures 0 <= s < cap
  {
    PathSlot(h, key, cap, GROUP * i + b)
  }

  /** The state array carries its first group again past its end. */
  ghost predicate Mirrored(full: seq<int>, cap: int) {
    GROUP <= cap && |full| == cap + GROUP && forall i :: 0 <= i < GROUP ==> full[cap + i] == full[i]
  }

  /** A sixteen-byte load from any slot reads the slots after it, going round. */
  lemma LoadWraps(full: seq<int>, cap: int, offset: int, b: int)
    requires Mirrored(full, cap) && 0 <= offset < cap && 0 <= b < GROUP
    ensures full[offset + b] == full[..cap][Masked(offset + b, cap)]
  {
    if offset + b < cap {
      ModIs(offset + b, cap, 0, offset + b);
    } else {
      ModIs(offset + b, cap, 1, offset + b - cap);
      assert full[cap + (offset + b - cap)] == full[offset + b - cap];
    }
  }

  /** One SSE compare: which of the sixteen state bytes from `offset` on are v. */
  function EqualLanes(full: seq<int>, offset: int, v: int): seq<bool>
    requires 0 <= offset && offset + GROUP <= |full|
  {
    seq(GROUP, b requires 0 <= b < GROUP => full[offset + b] == v)
  }

  /** The complement of the high bits: which lanes are free, EMPTY and TOMB alike. */
  function FreeLanes(full: seq<int>, offset: int): seq<bool>
    requires 0 <= offset && offset + GROUP <= |full|
  {
    seq(GROUP, b requires 0 <= b < GROUP => full[offset + b] < FULL_MIN)
  }

  /** The i-th group on the path of `key` holds its first EMPTY at lane `limit`, or none
      when `limit` is the group's width. */
  ghost predicate FirstEmpty<K, V>(h: Hasher<K>, t: Table<K, V>, key: K, i: nat, limit: nat)
    requires TableCap(|t.st|)
  {
    && limit <= GROUP
    && (forall b: nat :: b < limit ==> t.st[LaneSlot(h, key, |t.st|, i, b)] != EMPTY)
    && (limit < GROUP ==> t.st[LaneSlot(h, key, |t.st|, i, limit)] == EMPTY)
  }

  /** None of the first `limit` lanes of the i-th group holds `key`. */
  ghost predicate NoMatch<K, V>(h: Hasher<K>, t: Table<K, V>, key: K, i: nat, limit: nat)
    requires TableCap(|t.st|)
  {
    forall b: nat :: b < limit ==> !Holds(t, LaneSlot(h, key, |t.st|, i, b), key)
  }

  /** Nothing found in the first n slots of the path, and no EMPTY met there. */
  ghost predicate Searched<K, V>(h: Hasher<K>, t: Table<K, V>, key: K, n: nat)
    requires TableCap(|t.st|)
  {
    PathClear(h, t, key, n) && NotWithin(h, t, key, n)
  }

  lemma SearchStart<K, V>(h: Hasher<K>, t: Table<K, V>, key: K)
    requires TableCap(|t.st|)
    ensures Searched(h, t, key, 0)
  {
  }

  /** A group with no match before its first EMPTY extends the search up to there. */
  lemma SearchGroup<K, V>(h: Hasher<K>, t: Table<K, V>, key: K, i: nat, limit: nat)
    requires TableCap(|t.st|) && Searched(h, t, key, GROUP * i)
    requires FirstEmpty(h, t, key, i, limit) && NoMatch(h, t, key, i, limit)
    ensures Searched(h, t, key, GROUP * i + limit)
  {
    hide TableCap, PathSlot, Holds;
    forall q: nat | GROUP * i <= q < GROUP * i + limit
      ensures t.st[PathSlot(h, key, |t.st|, q)] != EMPTY
      ensures !Holds(t, PathSlot(h, key, |t.st|, q), key)
    {
      var b: nat := q - GROUP * i;
      assert PathSlot(h, key, |t.st|, q) == LaneSlot(h, key, |t.st|, i, b);
    }
  }

  /** A path with no EMPTY so far has not gone round the table: the walk ends. */
  lemma SearchBounded<K, V>(h: Hasher<K>, t: Table<K, V>, key: K, i: nat)
    requires Shaped(t) && PathClear(h, t, key, GROUP * i)
    requires |LiveSlots(t)| + |TombSlots(t)| < |t.st|
    ensures GROUP * (i + 1) <= |t.st|
  {
    hide LegalCap, PathSlot, HomeOf, DepthOf;
    var s := SomeEmpty(t);
    var p := DepthOf(h, key, |t.st|, s);
    LegalCapGroups(|t.st|);
  }

  /** The search meets an EMPTY: the key is nowhere. */
  lemma SearchMiss<K, V>(h: Hasher<K>, t: Table<K, V>, m: map<K, V>, key: K, i: nat, limit: nat)
    requires WellFormed(h, t) && Represents(t, m) && GROUP * (i + 1) <= |t.st|
    requires Searched(h, t, key, GROUP * i + limit) && FirstEmpty(h, t, key, i, limit) && limit < GROUP
    ensures key !in m
  {
    hide LegalCap, PathSlot, HomeOf, DepthOf, Represents, Findable, OneSlotPerKey;
    assert t.st[LaneSlot(h, key, |t.st|, i, limit)] == EMPTY;
    AbsentAtEmpty(h, t, m, key, GROUP * i + limit);
  }

  /** A sixteen-byte load at the i-th anchor reads the i-th group of the path. */
  lemma LoadedLane<K, V>(h: Hasher<K>, t: Table<K, V>, full: seq<int>, key: K, i: nat, offset: int, b: nat)
    requires TableCap(|t.st|) && Mirrored(full, |t.st|) && full[..|t.st|] == t.st && b < GROUP
    requires offset == Anchor(HomeOf(h, key, |t.st|), |t.st|, i) && 0 <= offset < |t.st|
    ensures LaneSlot(h, key, |t.st|, i, b) == Masked(offset + b, |t.st|)
    ensures t.st[LaneSlot(h, key, |t.st|, i, b)] == full[offset + b]
  {
    hide LegalCap, HomeOf, Anchor, ProbeSlot;
    LoadWraps(full, |t.st|, offset, b);
    ProbeSlotInGroup(HomeOf(h, key, |t.st|), |t.st|, i, b);
  }

  lemma LoadedGroup<K, V>(h: Hasher<K>, t: Table<K, V>, full: seq<int>, key: K, i: nat, offset: int)
    requires TableCap(|t.st|) && Mirrored(full, |t.st|) && full[..|t.st|] == t.st
    requires offset == Anchor(HomeOf(h, key, |t.st|), |t.st|, i) && 0 <= offset < |t.st|
    ensures FirstEmpty(h, t, key, i, NextLane(EqualLanes(full, offset, EMPTY), 0))
  {
    hide TableCap, LaneSlot, HomeOf, Anchor;
    forall b: nat | b < GROUP
      ensures t.st[LaneSlot(h, key, |t.st|, i, b)] == EMPTY <==> EqualLanes(full, offset, EMPTY)[b]
    {
      LoadedLane(h, t, full, key, i, offset, b);
    }
  }

  /** Lanes without the key's fingerprint need no look at their keys. */
  lemma SkipLanes<K, V>(h: Hasher<K>, t: Table<K, V>, full: seq<int>, key: K, i: nat, offset: int, from: nat, to: nat)
    requires WellFormed(h, t) && Mirrored(full, |t.st|) && full[..|t.st|] == t.st
    requires offset == Anchor(HomeOf(h, key, |t.st|), |t.st|, i) && 0 <= offset < |t.st|
    requires from <= to <= GROUP && NoMatch(h, t, key, i, from)
    requires forall b :: from <= b < to ==> !EqualLanes(full, offset, h.Fingerprint(key))[b]
    ensures NoMatch(h, t, key, i, to)
  {
    hide LegalCap, LaneSlot, HomeOf, Anchor;
    forall b: nat | from <= b < to
      ensures !Holds(t, LaneSlot(h, key, |t.st|, i, b), key)
    {
      LoadedLane(h, t, full, key, i, offset, b);
      assert !EqualLanes(full, offset, h.Fingerprint(key))[b];
    }
  }

  /** The first free slot of the path, `free`, stands at depth q; or there is none among
      the first n and `free` is the capacity. */
  ghost predicate FirstFree<K, V>(h: Hasher<K>, t: Table<K, V>, key: K, n: nat, free: int, q: nat)
    requires TableCap(|t.st|)
  {
    if free == |t.st| then
      forall p: nat :: p < n ==> Live(t, PathSlot(h, key, |t.st|, p))
    else
      && q < n && free == PathSlot(h, key, |t.st|, q) && !Live(t, free)
      && (forall p: nat :: p < q ==> Live(t, PathSlot(h, key, |t.st|, p)))
  }

  /** Remembering the first free lane of a group, if none was met before it. */
  lemma FreeLane<K, V>(h: Hasher<K>, t: Table<K, V>, full: seq<int>, key: K, i: nat, offset: int, free: int, q: nat)
    returns (free': int, q': nat)
    requires TableCap(|t.st|) && Mirrored(full, |t.st|) && full[..|t.st|] == t.st
    requires offset == Anchor(HomeOf(h, key, |t.st|), |t.st|, i) && 0 <= offset < |t.st|
    requires FirstFree(h, t, key, GROUP * i, free, q)
    ensures FirstFree(h, t, key, GROUP * (i + 1), free', q')
    ensures var b := NextLane(FreeLanes(full, offset), 0);
      free' == if free == |t.st| && b < GROUP then Masked(offset + b, |t.st|) else free
  {
    hide LegalCap, HomeOf, Anchor, PathSlot;
    var b := NextLane(FreeLanes(full, offset), 0);
    free', q' := free, q;
    if free == |t.st| {
      forall p: nat | GROUP * i <= p < GROUP * i + b
        ensures Live(t, PathSlot(h, key, |t.st|, p))
      {
        var k: nat := p - GROUP * i;
        LoadedLane(h, t, full, key, i, offset, k);
        assert !FreeLanes(full, offset)[k];
      }
      if b < GROUP {
        LoadedLane(h, t, full, key, i, offset, b);
        free', q' := Masked(offset + b, |t.st|), GROUP * i + b;
      }
    }
  }
}
