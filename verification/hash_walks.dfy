/** Walks over all the slots of a table: iteration, comparison, and the probe counts
    that `stats` reports. */
module HashWalks {
  import opened Lanes
  import opened Probing
  import opened HashTable
  import opened HashProbe
  import opened HashCapacity
  import opened HashSound

  /** The entries of the live slots below i, in slot order. */
  ghost function LiveEntries<K, V>(full: seq<int>, en: seq<Slot<K, V>>, i: nat): seq<(K, V)>
    requires i <= |full| && i <= |en|
    requires forall s :: 0 <= s < i && full[s] >= FULL_MIN ==> en[s].Entry?
  {
    if i == 0 then []
    else LiveEntries(full, en, i - 1) + if full[i - 1] >= FULL_MIN then [(en[i - 1].key, en[i - 1].val)] else []
  }

  /** Each pair of m once, and nothing else. */
  ghost predicate Enumerates<K, V>(visited: seq<(K, V)>, m: map<K, V>) {
    && |visited| == |m|
    && (forall i :: 0 <= i < |visited| ==> visited[i].0 in m && m[visited[i].0] == visited[i].1)
    && (forall i, j :: 0 <= i < j < |visited| ==> visited[i].0 != visited[j].0)
  }

  lemma EntriesStart<K, V>(full: seq<int>, en: seq<Slot<K, V>>)
    ensures LiveEntries(full, en, 0) == []
  {
  }

  lemma LiveEntry<K, V>(full: seq<int>, en: seq<Slot<K, V>>, i: nat)
    requires i < |full| && i < |en|
    requires forall s :: 0 <= s <= i && full[s] >= FULL_MIN ==> en[s].Entry?
    ensures LiveEntries(full, en, i + 1)
      == LiveEntries(full, en, i) + if full[i] >= FULL_MIN then [(en[i].key, en[i].val)] else []
  {
  }

  /** The high bits of eight state bytes: one 64-bit load and a mask. */
  function HighBits(full: seq<int>, i: nat): seq<bool>
    requires i + 8 <= |full|
  {
    seq(8, b requires 0 <= b < 8 => full[i + b] >= FULL_MIN)
  }

  lemma EightBits(full: seq<int>, i: nat)
    requires i + 8 <= |full|
    ensures |HighBits(full, i)| == 8
    ensures forall b :: 0 <= b < 8 ==> (HighBits(full, i)[b] <==> full[i + b] >= FULL_MIN)
  {
  }

  lemma {:induction false} DeadLanes<K, V>(full: seq<int>, en: seq<Slot<K, V>>, i: nat, from: nat, upto: nat)
    requires i + 8 <= |full| && i + 8 <= |en| && from <= upto <= 8
    requires forall s :: 0 <= s < i + 8 && full[s] >= FULL_MIN ==> en[s].Entry?
    requires forall b :: from <= b < upto ==> !HighBits(full, i)[b]
    ensures LiveEntries(full, en, i + from) == LiveEntries(full, en, i + upto)
    decreases upto
  {
    if from < upto {
      DeadLanes(full, en, i, from, upto - 1);
      assert !HighBits(full, i)[upto - 1];
      LiveEntry(full, en, i + upto - 1);
    }
  }

  lemma EnumeratesNext<K, V>(visited: seq<(K, V)>, m: map<K, V>, key: K, val: V)
    requires Enumerates(visited, m) && key !in m
    ensures Enumerates(visited + [(key, val)], m[key := val])
  {
    MapPlus(m, key, val);
  }

  lemma MapPlus<K, V>(m: map<K, V>, key: K, val: V)
    ensures key !in m ==> |m[key := val]| == |m| + 1
    ensures key in m ==> |m[key := val]| == |m|
  {
    assert m[key := val].Keys == m.Keys + {key};
  }

  lemma {:induction false} EntriesBelow<K, V>(h: Hasher<K>, full: seq<int>, en: seq<Slot<K, V>>, c: Counts, shift: nat, m: map<K, V>, i: nat)
    returns (moved: map<K, V>)
    requires Sound(h, full, en, c, shift, m) && i <= c.cap <= |full| && |en| == c.cap
    requires forall s :: 0 <= s < c.cap && full[s] >= FULL_MIN ==> en[s].Entry?
    ensures MovedBelow(full, en, c.cap, m, moved, i) && Enumerates(LiveEntries(full, en, i), moved)
  {
    hide Sound, MovedBelow;
    if i == 0 {
      moved := map[];
      MovedStart(full, en, c.cap, m);
    } else {
      moved := EntriesBelow(h, full, en, c, shift, m, i - 1);
      if full[i - 1] >= FULL_MIN {
        MovedNext(h, full, en, c, shift, m, moved, i - 1);
        EnumeratesNext(LiveEntries(full, en, i - 1), moved, en[i - 1].key, en[i - 1].val);
        moved := moved[en[i - 1].key := en[i - 1].val];
      } else {
        MovedSkip(full, en, c.cap, m, moved, i - 1);
      }
    }
  }

  /** The live slots in order are the map's pairs, each once. */
  lemma EntriesEnumerate<K, V>(h: Hasher<K>, full: seq<int>, en: seq<Slot<K, V>>, c: Counts, shift: nat, m: map<K, V>)
    requires Sound(h, full, en, c, shift, m) && c.cap <= |full| && |en| == c.cap
    requires forall s :: 0 <= s < c.cap && full[s] >= FULL_MIN ==> en[s].Entry?
    ensures Enumerates(LiveEntries(full, en, c.cap), m)
  {
    hide Sound, MovedBelow;
    var moved := EntriesBelow(h, full, en, c, shift, m, c.cap);
    MovedAll(h, full, en, c, shift, m, moved);
  }

  /** Every live slot below i holds a pair of m. */
  ghost predicate MatchedBelow<K, V>(full: seq<int>, en: seq<Slot<K, V>>, m: map<K, V>, i: nat) {
    forall s :: 0 <= s < i && s < |full| && s < |en| && full[s] >= FULL_MIN && en[s].Entry? ==>
      en[s].key in m && m[en[s].key] == en[s].val
  }

  lemma MatchedStart<K, V>(full: seq<int>, en: seq<Slot<K, V>>, m: map<K, V>)
    ensures MatchedBelow(full, en, m, 0)
  {
  }

  lemma MatchedNext<K, V>(full: seq<int>, en: seq<Slot<K, V>>, m: map<K, V>, i: nat)
    requires i < |full| && i < |en| && MatchedBelow(full, en, m, i)
    requires full[i] >= FULL_MIN && en[i].Entry? ==> en[i].key in m && m[en[i].key] == en[i].val
    ensures MatchedBelow(full, en, m, i + 1)
  {
  }

  lemma LiveMeans<K, V>(h: Hasher<K>, full: seq<int>, en: seq<Slot<K, V>>, c: Counts, shift: nat, m: map<K, V>, s: nat)
    requires Sound(h, full, en, c, shift, m) && s < c.cap <= |full| && full[s] >= FULL_MIN
    ensures s < |en| && en[s].Entry? && en[s].key in m && m[en[s].key] == en[s].val
  {
    assert Live(Table(full[..c.cap], en), s);
  }

  /** Every pair of m is a pair of m', and there are as many. */
  lemma MatchedAll<K, V>(h: Hasher<K>, full: seq<int>, en: seq<Slot<K, V>>, c: Counts, shift: nat, m: map<K, V>, m': map<K, V>)
    requires Sound(h, full, en, c, shift, m) && MatchedBelow(full, en, m', c.cap) && |m| == |m'|
    ensures m == m'
  {
    hide LegalCap, Findable, OneSlotPerKey, ShiftOf, LiveSlots, TombSlots, MaxFill;
    forall key | key in m
      ensures key in m' && m'[key] == m[key]
    {
      var s :| Holds(Table(full[..c.cap], en), s, key);
      assert full[s] >= FULL_MIN;
    }
    SameSizeKeys(m, m');
  }

  lemma SameSizeKeys<K, V>(m: map<K, V>, m': map<K, V>)
    requires |m| == |m'| && forall key :: key in m ==> key in m' && m'[key] == m[key]
    ensures m == m'
  {
    assert m.Keys <= m'.Keys;
    assert m'.Keys == m.Keys + (m'.Keys - m.Keys);
    assert |m.Keys| == |m'.Keys|;
    assert m'.Keys - m.Keys == {};
    assert m.Keys == m'.Keys;
  }

  /** A reserve on an empty map leaves room for what it was asked for. */
  lemma ReserveHolds(n: nat)
    requires n <= MaxFill(MAX_CAP)
    ensures n <= MaxFill(ReserveCap(n, MIN_CAP))
  {
    assert IsPow2(2) && IsPow2(4) && IsPow2(8) && IsPow2(16);
    ReserveCapHolds(n, MIN_CAP);
  }

  ghost function EmptySlots<K, V>(t: Table<K, V>): set<int> {
    set s | 0 <= s < |t.st| && t.st[s] == EMPTY
  }

  lemma EmptySlotIs<K, V>(t: Table<K, V>, s: int)
    requires 0 <= s < |t.st| && t.st[s] == EMPTY
    ensures s in EmptySlots(t)
  {
  }

  /** What one lane of the load at the i-th anchor says about its slot. */
  lemma LaneEmpty<K, V>(t: Table<K, V>, full: seq<int>, home: int, i: nat, offset: int, k: nat)
    requires LegalCap(|t.st|) && Mirrored(full, |t.st|) && full[..|t.st|] == t.st && k < GROUP
    requires 0 <= offset < |t.st| && offset == Anchor(home, |t.st|, i)
    ensures EqualLanes(full, offset, EMPTY)[k] <==> ProbeSlot(home, |t.st|, GROUP * i + k) in EmptySlots(t)
  {
    hide LegalCap, Anchor, ProbeSlot, Masked;
    LoadWraps(full, |t.st|, offset, k);
    ProbeSlotInGroup(home, |t.st|, i, k);
  }

  /** And the whole load about the group. */
  lemma GroupEmpties<K, V>(t: Table<K, V>, full: seq<int>, home: int, i: nat, offset: int, b: nat)
    requires LegalCap(|t.st|) && Mirrored(full, |t.st|) && full[..|t.st|] == t.st
    requires 0 <= offset < |t.st| && offset == Anchor(home, |t.st|, i)
    requires b == NextLane(EqualLanes(full, offset, EMPTY), 0)
    ensures b < GROUP ==> ProbeSlot(home, |t.st|, GROUP * i + b) in EmptySlots(t)
    ensures b >= GROUP ==> forall q: nat :: GROUP * i <= q < GROUP * (i + 1) ==> ProbeSlot(home, |t.st|, q) !in EmptySlots(t)
  {
    hide LegalCap, Anchor, ProbeSlot, Masked, EmptySlots, Mirrored;
    if b < GROUP {
      LaneEmpty(t, full, home, i, offset, b);
    } else {
      forall q: nat | GROUP * i <= q < GROUP * (i + 1)
        ensures ProbeSlot(home, |t.st|, q) !in EmptySlots(t)
      {
        LaneEmpty(t, full, home, i, offset, q - GROUP * i);
      }
    }
  }
}
