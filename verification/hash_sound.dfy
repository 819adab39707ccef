/** What a map's arrays and counters must satisfy together, and that each write of the
    class keeps it.  Everything here is about values; the class supplies the heap. */
module HashSound {
  import opened Logarithm
  import opened Probing
  import opened HashTable
  import opened HashProbe
  import opened HashCapacity

  /** The arrays and counters of a map, as values, stand for m. */
  ghost predicate Sound<K, V>(h: Hasher<K>, full: seq<int>, en: seq<Slot<K, V>>, c: Counts, shift: nat, m: map<K, V>) {
    && Fits(c) && c.size == |m|
    && if c.cap == 0 then
         full == [] && en == [] && m == map[]
       else
         && Mirrored(full, c.cap) && |en| == c.cap && shift == ShiftOf(c.cap)
         && SoundTable(h, Table(full[..c.cap], en), c, m)
  }

  ghost predicate SoundTable<K, V>(h: Hasher<K>, t: Table<K, V>, c: Counts, m: map<K, V>) {
    && WellFormed(h, t) && Represents(t, m)
    && c.size == |LiveSlots(t)| && c.tombs == |TombSlots(t)|
  }

  /** Writing a state byte keeps the mirrored tail in step. */
  ghost function StateSet(full: seq<int>, cap: nat, i: nat, v: int): seq<int>
    requires i < cap && |full| == cap + GROUP
  {
    if i < GROUP then full[i := v][cap + i := v] else full[i := v]
  }

  lemma StateSetMirrored(full: seq<int>, cap: nat, i: nat, v: int)
    requires i < cap && Mirrored(full, cap)
    ensures Mirrored(StateSet(full, cap, i, v), cap)
    ensures StateSet(full, cap, i, v)[..cap] == full[..cap][i := v]
  {
  }

  lemma BlankSound<K, V>(h: Hasher<K>, full: seq<int>, en: seq<Slot<K, V>>, cap: nat)
    requires TableCap(cap) && |full| == cap + GROUP && |en| == cap
    requires forall i :: 0 <= i < |full| ==> full[i] == EMPTY
    requires forall i :: 0 <= i < cap ==> en[i].Raw?
    ensures ShiftOf(cap) >= 0 && Sound(h, full, en, Counts(cap, 0, 0), ShiftOf(cap), map[])
  {
    hide WellFormed, Represents;
    Log2FloorMonotone(cap, MAX_CAP);
    Log2OfMaxCap();
    var t := Table(full[..cap], en);
    BlankIsEmpty(h, t);
    assert SoundTable(h, t, Counts(cap, 0, 0), map[]);
  }

  lemma PlaceSound<K, V>(h: Hasher<K>, full: seq<int>, en: seq<Slot<K, V>>, c: Counts, shift: nat, m: map<K, V>,
                         key: K, val: V, s: nat)
    requires Sound(h, full, en, c, shift, m) && s < c.cap && key !in m
    requires c.size + c.tombs + 1 <= MaxFill(c.cap)
    requires full[s] in {EMPTY, TOMB}
    requires PathClear(h, Table(full[..c.cap], en), key, DepthOf(h, key, c.cap, s))
    ensures full[s] == TOMB ==> c.tombs > 0
    ensures Sound(h, StateSet(full, c.cap, s, h.Fingerprint(key)), en[s := Entry(key, val)],
                  Counts(c.cap, c.size + 1, if full[s] == TOMB then c.tombs - 1 else c.tombs), shift, m[key := val])
  {
    hide LegalCap, WellFormed, Represents, PathClear, DepthOf, MaxFill, ShiftOf, LiveSlots, TombSlots;
    var t := Table(full[..c.cap], en);
    PlaceKeeps(h, t, m, key, val, s);
    StateSetMirrored(full, c.cap, s, h.Fingerprint(key));
    SlotSets(t, s);
    assert Table(StateSet(full, c.cap, s, h.Fingerprint(key))[..c.cap], en[s := Entry(key, val)])
        == Store(t, s, h.Fingerprint(key), Entry(key, val));
  }

  lemma SlotSets<K, V>(t: Table<K, V>, s: nat)
    requires s < |t.st|
    ensures s in LiveSlots(t) <==> t.st[s] >= FULL_MIN
    ensures s in TombSlots(t) <==> t.st[s] == TOMB
  {
  }

  lemma EraseSound<K, V>(h: Hasher<K>, full: seq<int>, en: seq<Slot<K, V>>, c: Counts, shift: nat, m: map<K, V>,
                         key: K, s: nat)
    requires Sound(h, full, en, c, shift, m) && s < c.cap
    requires Holds(Table(full[..c.cap], en), s, key)
    ensures c.size > 0
    ensures Sound(h, StateSet(full, c.cap, s, TOMB), en[s := Raw], Counts(c.cap, c.size - 1, c.tombs + 1), shift, m - {key})
  {
    hide LegalCap, WellFormed, Represents, PathClear, DepthOf, MaxFill, ShiftOf, LiveSlots, TombSlots;
    var t := Table(full[..c.cap], en);
    HoldsMeans(h, t, m, key, s);
    EraseKeeps(h, t, m, key, s);
    StateSetMirrored(full, c.cap, s, TOMB);
    SlotSets(t, s);
    MapMinus(m, key);
    assert Table(StateSet(full, c.cap, s, TOMB)[..c.cap], en[s := Raw]) == Store(t, s, TOMB, Raw);
  }

  lemma MapMinus<K, V>(m: map<K, V>, key: K)
    requires key in m
    ensures |m - {key}| == |m| - 1
  {
    assert (m - {key}).Keys == m.Keys - {key};
  }

  lemma AssignSound<K, V>(h: Hasher<K>, full: seq<int>, en: seq<Slot<K, V>>, c: Counts, shift: nat, m: map<K, V>,
                          key: K, val: V, s: nat)
    requires Sound(h, full, en, c, shift, m) && s < c.cap
    requires Holds(Table(full[..c.cap], en), s, key)
    ensures Sound(h, full, en[s := Entry(key, val)], c, shift, m[key := val])
  {
    hide LegalCap, WellFormed, Represents, PathClear, DepthOf, MaxFill, ShiftOf, LiveSlots, TombSlots;
    var t := Table(full[..c.cap], en);
    AssignKeeps(h, t, m, key, val, s);
    assert m[key := val].Keys == m.Keys;
    assert Table(full[..c.cap], en[s := Entry(key, val)]) == Store(t, s, t.st[s], Entry(key, val));
  }

  lemma HoldsMeans<K, V>(h: Hasher<K>, t: Table<K, V>, m: map<K, V>, key: K, s: int)
    requires WellFormed(h, t) && Represents(t, m) && Holds(t, s, key)
    ensures key in m && t.en[s] == Entry(key, m[key])
  {
  }

  lemma NoMatchStart<K, V>(h: Hasher<K>, t: Table<K, V>, key: K, i: nat)
    requires TableCap(|t.st|)
    ensures NoMatch(h, t, key, i, 0)
  {
  }

  lemma NoMatchNext<K, V>(h: Hasher<K>, t: Table<K, V>, key: K, i: nat, b: nat)
    requires TableCap(|t.st|) && NoMatch(h, t, key, i, b)
    requires !Holds(t, LaneSlot(h, key, |t.st|, i, b), key)
    ensures NoMatch(h, t, key, i, b + 1)
  {
  }

  /** A lane with the fingerprint is a live slot: its key may be looked at. */
  lemma CandidateLive<K, V>(h: Hasher<K>, t: Table<K, V>, full: seq<int>, key: K, i: nat, offset: int, b: nat)
    requires WellFormed(h, t) && Mirrored(full, |t.st|) && full[..|t.st|] == t.st && b < GROUP
    requires 0 <= offset < |t.st| && offset == Anchor(HomeOf(h, key, |t.st|), |t.st|, i)
    requires EqualLanes(full, offset, h.Fingerprint(key))[b]
    ensures var j := Masked(offset + b, |t.st|);
      j == LaneSlot(h, key, |t.st|, i, b) && t.en[j].Entry? && (Holds(t, j, key) <==> t.en[j].key == key)
  {
    hide LegalCap, LaneSlot, HomeOf, Anchor, Masked;
    LoadedLane(h, t, full, key, i, offset, b);
  }

  lemma LaneCount(full: seq<int>, offset: int, v: int)
    requires 0 <= offset && offset + GROUP <= |full|
    ensures |EqualLanes(full, offset, v)| == GROUP && |FreeLanes(full, offset)| == GROUP
  {
  }

  /** Where every walk for `key` starts. */
  lemma WalkStart<K>(h: Hasher<K>, key: K, cap: nat, shift: nat)
    requires TableCap(cap) && shift == ShiftOf(cap)
    ensures h.Home(key, shift) == HomeOf(h, key, cap)
    ensures Anchor(HomeOf(h, key, cap), cap, 0) == HomeOf(h, key, cap) == PathSlot(h, key, cap, 0)
  {
    hide LegalCap, HomeOf;
    AnchorStart(HomeOf(h, key, cap), cap);
    ProbeSlotInGroup(HomeOf(h, key, cap), cap, 0, 0);
    ModIs(HomeOf(h, key, cap), cap, 0, HomeOf(h, key, cap));
    HomeUnfolds(h, key, cap);
  }

  lemma HomeUnfolds<K>(h: Hasher<K>, key: K, cap: nat)
    requires TableCap(cap)
    ensures ShiftOf(cap) >= 0 && h.Home(key, ShiftOf(cap)) == HomeOf(h, key, cap)
  {
    HomeInRange(h, key, cap);
  }

  /** The home slot is EMPTY: the key is nowhere. */
  lemma AbsentAtHome<K, V>(h: Hasher<K>, t: Table<K, V>, m: map<K, V>, key: K)
    requires WellFormed(h, t) && Represents(t, m) && t.st[PathSlot(h, key, |t.st|, 0)] == EMPTY
    ensures key !in m
  {
    hide LegalCap, PathSlot, Findable, OneSlotPerKey, Represents, DepthOf;
    AbsentAtEmpty(h, t, m, key, 0);
  }

  /** s is the first free slot on the path of `key`. */
  ghost predicate FirstOnPath<K, V>(h: Hasher<K>, t: Table<K, V>, key: K, s: nat)
    requires Shaped(t) && s < |t.st|
  {
    && t.st[s] in {EMPTY, TOMB}
    && forall p: nat :: p < DepthOf(h, key, |t.st|, s) ==> Live(t, PathSlot(h, key, |t.st|, p))
  }

  /** A group with an EMPTY has a free slot at or before it on the path. */
  lemma FreeBeforeEmpty<K, V>(h: Hasher<K>, t: Table<K, V>, key: K, i: nat, limit: nat, free: int, q: nat)
    requires Shaped(t) && FirstFree(h, t, key, GROUP * (i + 1), free, q) && GROUP * (i + 1) <= |t.st|
    requires FirstEmpty(h, t, key, i, limit) && limit < GROUP
    ensures 0 <= free < |t.st| && FirstOnPath(h, t, key, free)
  {
    hide LegalCap, PathSlot, DepthOf;
    assert t.st[LaneSlot(h, key, |t.st|, i, limit)] == EMPTY;
    assert !Live(t, PathSlot(h, key, |t.st|, GROUP * i + limit));
    DepthOfPathSlot(h, key, |t.st|, q);
  }

  /** No EMPTY stands before the first free slot, and a free home slot is the first. */
  lemma FirstIsPlace<K, V>(h: Hasher<K>, t: Table<K, V>, key: K, s: nat)
    requires Shaped(t) && s < |t.st| && FirstOnPath(h, t, key, s)
    ensures PathClear(h, t, key, DepthOf(h, key, |t.st|, s))
    ensures t.st[HomeOf(h, key, |t.st|)] in {EMPTY, TOMB} ==> s == HomeOf(h, key, |t.st|)
  {
    hide LegalCap, PathSlot, DepthOf, HomeOf;
    var cap := |t.st|;
    ShiftIs(cap);
    WalkStart(h, key, cap, ShiftOf(cap));
    if DepthOf(h, key, cap, s) > 0 {
      assert Live(t, PathSlot(h, key, cap, 0));
    }
  }

  /** A key that is not there yet: only EMPTY slots matter to the walk. */
  lemma ClearGroup<K, V>(h: Hasher<K>, t: Table<K, V>, key: K, i: nat, limit: nat)
    requires TableCap(|t.st|) && PathClear(h, t, key, GROUP * i) && FirstEmpty(h, t, key, i, limit)
    ensures PathClear(h, t, key, GROUP * i + limit)
  {
    hide LegalCap, PathSlot;
    forall p: nat | GROUP * i <= p < GROUP * i + limit
      ensures t.st[PathSlot(h, key, |t.st|, p)] != EMPTY
    {
      var b: nat := p - GROUP * i;
      assert t.st[LaneSlot(h, key, |t.st|, i, b)] != EMPTY;
    }
  }

  /** A walk that met no EMPTY in its first i groups has one more whole group to go. */
  lemma SearchEnds<K, V>(h: Hasher<K>, t: Table<K, V>, c: Counts, m: map<K, V>, key: K, i: nat)
    requires Fits(c) && |t.st| == c.cap > 0 && SoundTable(h, t, c, m)
    requires Searched(h, t, key, GROUP * i)
    ensures GROUP * (i + 1) <= |t.st|
  {
    hide LegalCap, Findable, OneSlotPerKey, Represents;
    MaxFillBelow(c.cap);
    SearchBounded(h, t, key, i);
  }

  lemma MaxFillBelow(cap: nat)
    requires LegalCap(cap)
    ensures MaxFill(cap) < cap
  {
  }

  lemma FreeStart<K, V>(h: Hasher<K>, t: Table<K, V>, key: K)
    requires TableCap(|t.st|)
    ensures FirstFree(h, t, key, 0, |t.st|, 0)
  {
  }

  lemma PlacedHolds<K, V>(full: seq<int>, en: seq<Slot<K, V>>, cap: nat, s: nat, fp: int, key: K, val: V)
    requires s < cap == |en| && |full| == cap + GROUP && FULL_MIN <= fp
    ensures Holds(Table(StateSet(full, cap, s, fp)[..cap], en[s := Entry(key, val)]), s, key)
  {
  }

  lemma ClearStart<K, V>(h: Hasher<K>, t: Table<K, V>, key: K)
    requires TableCap(|t.st|)
    ensures PathClear(h, t, key, 0)
  {
  }

  lemma ClearEnds<K, V>(h: Hasher<K>, t: Table<K, V>, c: Counts, m: map<K, V>, key: K, i: nat)
    requires Fits(c) && |t.st| == c.cap > 0 && SoundTable(h, t, c, m)
    requires PathClear(h, t, key, GROUP * i)
    ensures GROUP * (i + 1) <= |t.st|
  {
    hide LegalCap, Findable, OneSlotPerKey, Represents;
    MaxFillBelow(c.cap);
    SearchBounded(h, t, key, i);
  }

  /** The slot a fresh table's walk stops at. */
  lemma EmptyPlace<K, V>(h: Hasher<K>, t: Table<K, V>, full: seq<int>, key: K, i: nat, offset: int, b: nat)
    requires TableCap(|t.st|) && Mirrored(full, |t.st|) && full[..|t.st|] == t.st && b < GROUP
    requires 0 <= offset < |t.st| && offset == Anchor(HomeOf(h, key, |t.st|), |t.st|, i)
    requires FirstEmpty(h, t, key, i, b) && PathClear(h, t, key, GROUP * i + b) && GROUP * (i + 1) <= |t.st|
    ensures var j := Masked(offset + b, |t.st|);
      full[j] == EMPTY && PathClear(h, t, key, DepthOf(h, key, |t.st|, j))
  {
    hide LegalCap, PathSlot, HomeOf, Anchor, Masked, DepthOf, PathClear;
    LoadedLane(h, t, full, key, i, offset, b);
    DepthOfPathSlot(h, key, |t.st|, GROUP * i + b);
    assert full[..|t.st|][Masked(offset + b, |t.st|)] == EMPTY;
  }

  lemma StateSetIs(full: seq<int>, cap: nat, i: nat, v: int)
    requires i < cap && |full| == cap + GROUP
    ensures StateSet(full, cap, i, v) == if i < GROUP then full[i := v][cap + i := v] else full[i := v]
  {
  }

  lemma SoundShape<K, V>(h: Hasher<K>, full: seq<int>, en: seq<Slot<K, V>>, c: Counts, shift: nat, m: map<K, V>)
    requires Sound(h, full, en, c, shift, m)
    ensures |en| == c.cap <= |full| && c.size == |m|
    ensures forall s :: 0 <= s < c.cap ==> if full[s] >= FULL_MIN then en[s].Entry? else full[s] in {EMPTY, TOMB} && en[s].Raw?
  {
  }

  lemma TableShaped<K, V>(h: Hasher<K>, full: seq<int>, en: seq<Slot<K, V>>, c: Counts, shift: nat, m: map<K, V>)
    requires Sound(h, full, en, c, shift, m) && c.cap > 0
    ensures c.cap <= |full| && Shaped(Table(full[..c.cap], en)) && TableCap(c.cap)
  {
  }

  lemma ShiftIs(cap: nat)
    requires TableCap(cap)
    ensures ShiftOf(cap) == 64 - Log2Floor(cap) >= 0 && GROUP <= cap
  {
    Log2FloorMonotone(cap, MAX_CAP);
    Log2OfMaxCap();
  }

  /** `moved` is what the live slots below i hold, for the rehash loop at slot i. */
  ghost predicate MovedBelow<K, V>(full: seq<int>, en: seq<Slot<K, V>>, cap: nat, m: map<K, V>, moved: map<K, V>, i: nat)
    requires cap <= |full|
  {
    var t := Table(full[..cap], en);
    && (forall key :: key in moved ==> key in m && moved[key] == m[key] && exists s :: s < i && Holds(t, s, key))
    && (forall s :: s < i && Live(t, s) && s < |en| && en[s].Entry? ==> en[s].key in moved)
  }

  lemma MovedStart<K, V>(full: seq<int>, en: seq<Slot<K, V>>, cap: nat, m: map<K, V>)
    requires cap <= |full|
    ensures MovedBelow(full, en, cap, m, map[], 0)
  {
  }

  lemma MovedSkip<K, V>(full: seq<int>, en: seq<Slot<K, V>>, cap: nat, m: map<K, V>, moved: map<K, V>, i: nat)
    requires i < cap <= |full| && full[i] < FULL_MIN && MovedBelow(full, en, cap, m, moved, i)
    ensures MovedBelow(full, en, cap, m, moved, i + 1)
  {
    var t := Table(full[..cap], en);
    forall key | key in moved
      ensures exists s :: s < i + 1 && Holds(t, s, key)
    {
      var s :| s < i && Holds(t, s, key);
    }
  }

  lemma MovedNext<K, V>(h: Hasher<K>, full: seq<int>, en: seq<Slot<K, V>>, c: Counts, shift: nat, m: map<K, V>,
                        moved: map<K, V>, i: nat)
    requires Sound(h, full, en, c, shift, m) && i < c.cap <= |full| && full[i] >= FULL_MIN
    requires MovedBelow(full, en, c.cap, m, moved, i)
    ensures |en| == c.cap && en[i].Entry? && en[i].key !in moved
    ensures |moved| + 1 <= |m| == c.size
    ensures MovedBelow(full, en, c.cap, m, moved[en[i].key := en[i].val], i + 1)
  {
    hide LegalCap, Findable, ShiftOf, LiveSlots, TombSlots, MaxFill;
    var t := Table(full[..c.cap], en);
    var key := en[i].key;
    assert Holds(t, i, key);
    HoldsMeans(h, t, m, key, i);
    forall s | s < i && Holds(t, s, key)
      ensures false
    {
      OneSlot(t, s, i, key);
    }
    assert moved.Keys + {key} <= m.Keys;
    Pigeon(moved.Keys + {key}, m.Keys);
    var moved' := moved[key := en[i].val];
    forall k | k in moved'
      ensures k in m && moved'[k] == m[k] && exists s :: s < i + 1 && Holds(t, s, k)
    {
      if k != key {
        var s :| s < i && Holds(t, s, k);
      }
    }
  }

  lemma OneSlot<K, V>(t: Table<K, V>, s: int, s': int, key: K)
    requires Shaped(t) && OneSlotPerKey(t) && Holds(t, s, key) && Holds(t, s', key)
    ensures s == s'
  {
  }

  lemma Pigeon<K>(a: set<K>, b: set<K>)
    requires a <= b
    ensures |a| <= |b|
  {
    assert b == a + (b - a);
  }

  lemma MovedAll<K, V>(h: Hasher<K>, full: seq<int>, en: seq<Slot<K, V>>, c: Counts, shift: nat, m: map<K, V>, moved: map<K, V>)
    requires Sound(h, full, en, c, shift, m) && c.cap <= |full| && MovedBelow(full, en, c.cap, m, moved, c.cap)
    ensures moved == m
  {
    hide LegalCap, Findable, ShiftOf, LiveSlots, TombSlots, MaxFill, OneSlotPerKey;
    if c.cap > 0 {
      var t := Table(full[..c.cap], en);
      forall key | key in m
        ensures key in moved
      {
        var s :| Holds(t, s, key);
      }
    }
  }

  lemma SoundCounts<K, V>(h: Hasher<K>, full: seq<int>, en: seq<Slot<K, V>>, c: Counts, shift: nat, m: map<K, V>)
    requires Sound(h, full, en, c, shift, m)
    ensures Fits(c) && c.size == |m| && |en| == c.cap && (c.cap == 0 <==> |full| == 0)
    ensures c.cap > 0 ==> |full| == c.cap + GROUP && TableCap(c.cap) && shift == ShiftOf(c.cap)
    ensures c.cap == 0 ==> m == map[]
  {
  }

  /** No table holds more than the largest capacity's fill. */
  lemma SizeBounded<K, V>(h: Hasher<K>, full: seq<int>, en: seq<Slot<K, V>>, c: Counts, shift: nat, m: map<K, V>)
    requires Sound(h, full, en, c, shift, m)
    ensures c.size <= MaxFill(MAX_CAP)
  {
    MaxFillMonotone(c.cap, if c.cap <= MAX_CAP then MAX_CAP else c.cap);
  }

  /** The arrays and counters leave no choice of the map they stand for. */
  lemma ContentsDetermined<K, V>(h: Hasher<K>, full: seq<int>, en: seq<Slot<K, V>>, c: Counts, shift: nat, m: map<K, V>, m': map<K, V>)
    requires Sound(h, full, en, c, shift, m) && Sound(h, full, en, c, shift, m')
    ensures m == m'
  {
    if c.cap > 0 {
      RepresentsOne(Table(full[..c.cap], en), m, m');
    }
  }

  lemma SizePositive<K, V>(m: map<K, V>, key: K)
    ensures key in m ==> |m| > 0
  {
    if key in m {
      MapMinus(m, key);
    }
  }

  lemma SoundHolds<K, V>(h: Hasher<K>, full: seq<int>, en: seq<Slot<K, V>>, c: Counts, shift: nat, m: map<K, V>,
                         key: K, s: nat)
    requires Sound(h, full, en, c, shift, m) && s < c.cap <= |full| && Holds(Table(full[..c.cap], en), s, key)
    ensures s < |en| && key in m && en[s] == Entry(key, m[key])
  {
  }

  lemma ClearSound<K, V>(h: Hasher<K>, full: seq<int>, en: seq<Slot<K, V>>, cap: nat, shift: nat)
    requires |en| == cap && (cap == 0 ==> full == [])
    requires cap > 0 ==> TableCap(cap) && |full| == cap + GROUP && shift == ShiftOf(cap)
    requires forall i :: 0 <= i < |full| ==> full[i] == EMPTY
    requires forall i :: 0 <= i < cap ==> en[i].Raw?
    ensures Sound(h, full, en, Counts(cap, 0, 0), shift, map[])
  {
    if cap > 0 {
      BlankSound(h, full, en, cap);
    }
  }

  /** The capacity `reserve` settles on is one a rehash may use. */
  lemma ReserveRehash(c: Counts, n: nat)
    requires Fits(c) && n <= MaxFill(MAX_CAP)
    ensures var need := ReserveCap(n, MIN_CAP);
      TableCap(need) && (need > c.cap ==> c.size <= MaxFill(need))
  {
    assert TableCap(16) by {
      assert IsPow2(2) && IsPow2(4) && IsPow2(8) && IsPow2(16);
    }
    ReserveCapHolds(n, MIN_CAP);
    MaxFillMonotone(c.cap, if ReserveCap(n, MIN_CAP) > c.cap then ReserveCap(n, MIN_CAP) else c.cap);
  }

  /** A map with no storage is empty. */
  lemma NothingSound<K, V>(h: Hasher<K>, full: seq<int>, en: seq<Slot<K, V>>, shift: nat)
    requires full == [] && en == []
    ensures Sound(h, full, en, Counts(0, 0, 0), shift, map[])
  {
  }
}
