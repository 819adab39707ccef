/** The hash table of hash_map.hpp as a value: what its arrays must satisfy for the
    probes to find every key, and what each write does to the map they stand for. */
module HashTable {
  import opened Logarithm
  import opened Pigeonhole
  import opened Probing

  const EMPTY := 0
  const TOMB := 1
  const FULL_MIN := 0x80

  /** The largest capacity whose doublings stay inside a 32-bit unsigned. */
  const MAX_CAP := 0x8000_0000

  const FIB := 0x9E37_79B9_7F4A_7C15

  /** A hash function on keys; only the low 64 bits of a product with it are kept. */
  datatype Hasher<!K> = Hasher(code: K -> nat) {
    function Mix(key: K): (m: nat)
      ensures m < 0x1_0000_0000_0000_0000
    {
      (code(key) * FIB) % 0x1_0000_0000_0000_0000
    }

    function Home(key: K, shift: nat): int {
      Pow2Positive(shift);
      Mix(key) / Pow2(shift)
    }

    function Fingerprint(key: K): (fp: int)
      ensures FULL_MIN <= fp < 0x100
    {
      FULL_MIN + (Mix(key) / 0x100_0000) % 0x80
    }
  }

  lemma {:induction false} Pow2Positive(k: nat)
    ensures Pow2(k) > 0
  {
    if k > 0 {
      Pow2Positive(k - 1);
    }
  }

  lemma Pow2Of64()
    ensures Pow2(31) == 0x8000_0000 && Pow2(32) == 0x1_0000_0000 && Pow2(64) == 0x1_0000_0000_0000_0000
  {
    assert Pow2(4) == 16;
    Pow2Product(4, 4);
    Pow2Product(8, 8);
    Pow2Product(16, 16);
    Pow2Product(32, 32);
    assert Pow2(32) == 2 * Pow2(31);
  }

  ghost predicate TableCap(cap: int) {
    LegalCap(cap) && cap <= MAX_CAP
  }

  ghost function ShiftOf(cap: nat): int {
    64 - Log2Floor(cap)
  }

  /** The home slot of a key in a table of `cap` slots: the top bits of the mixed hash. */
  ghost function HomeOf<K>(h: Hasher<K>, key: K, cap: nat): (home: int)
    requires TableCap(cap)
    ensures 0 <= home < cap
  {
    HomeInRange(h, key, cap);
    h.Home(key, ShiftOf(cap))
  }

  lemma HomeInRange<K>(h: Hasher<K>, key: K, cap: nat)
    requires TableCap(cap)
    ensures ShiftOf(cap) >= 0
    ensures 0 <= h.Home(key, ShiftOf(cap)) < cap
  {
    hide Log2Floor, Pow2, IsPow2;
    Pow2Of64();
    Log2FloorMonotone(cap, MAX_CAP);
    Log2OfMaxCap();
    Pow2Log(cap);
    var k := ShiftOf(cap);
    Pow2Positive(k);
    Pow2Product(k, Log2Floor(cap));
    TopBits(h.Mix(key), Pow2(k), cap);
  }

  lemma TopBits(m: nat, p: nat, cap: nat)
    requires 0 < p && m < p * cap
    ensures 0 <= m / p < cap
  {
    DivMod(m, p);
    ProductMonotone(cap, m / p, p);
    ProductMonotone(m / p + 1, 0, p);
  }

  lemma Log2OfMaxCap()
    ensures Log2Floor(MAX_CAP) <= 31
  {
    Log2FloorBrackets(MAX_CAP);
    Pow2Of64();
    if Log2Floor(MAX_CAP) > 31 {
      Pow2Grows(32, Log2Floor(MAX_CAP));
    }
  }

  lemma {:induction false} Pow2Grows(j: nat, k: nat)
    requires j <= k
    ensures Pow2(j) <= Pow2(k)
    decreases k - j
  {
    if j < k {
      Pow2Grows(j, k - 1);
    }
  }

  /** Raw storage, or a key and its value constructed in it. */
  datatype Slot<K, V> = Raw | Entry(key: K, val: V)

  /** One state byte and one slot of storage for each place of the table. */
  datatype Table<K, V> = Table(st: seq<int>, en: seq<Slot<K, V>>)

  ghost predicate Live<K, V>(t: Table<K, V>, s: int) {
    0 <= s < |t.st| && t.st[s] >= FULL_MIN
  }

  ghost predicate Holds<K, V>(t: Table<K, V>, s: int, key: K) {
    Live(t, s) && s < |t.en| && t.en[s].Entry? && t.en[s].key == key
  }

  /** State bytes say what the storage holds. */
  ghost predicate Shaped<K, V>(t: Table<K, V>) {
    && TableCap(|t.st|) && |t.en| == |t.st|
    && (forall s :: 0 <= s < |t.st| ==>
          if t.st[s] < FULL_MIN then t.st[s] in {EMPTY, TOMB} && t.en[s].Raw? else t.st[s] < 0x100 && t.en[s].Entry?)
  }

  /** The q-th slot probed for `key`. */
  ghost function PathSlot<K>(h: Hasher<K>, key: K, cap: nat, q: nat): (s: int)
    requires TableCap(cap)
    ensures 0 <= s < cap
  {
    ProbeSlotDistance(HomeOf(h, key, cap), cap, q);
    ProbeSlot(HomeOf(h, key, cap), cap, q)
  }

  /** When slot s comes up on the path of `key`. */
  ghost function DepthOf<K>(h: Hasher<K>, key: K, cap: nat, s: int): (q: nat)
    requires TableCap(cap) && 0 <= s < cap
    ensures q < cap && PathSlot(h, key, cap, q) == s
  {
    Position(HomeOf(h, key, cap), cap, s)
  }

  lemma DepthOfPathSlot<K>(h: Hasher<K>, key: K, cap: nat, q: nat)
    requires TableCap(cap) && q < cap
    ensures DepthOf(h, key, cap, PathSlot(h, key, cap, q)) == q
  {
    PositionOf(HomeOf(h, key, cap), cap, q);
  }

  /** The first n slots probed for `key` hold no EMPTY. */
  ghost predicate PathClear<K, V>(h: Hasher<K>, t: Table<K, V>, key: K, n: nat)
    requires TableCap(|t.st|)
  {
    forall q: nat :: q < n ==> t.st[PathSlot(h, key, |t.st|, q)] != EMPTY
  }

  /** Every live slot carries its key's fingerprint and no EMPTY comes before it on the
      key's probe path. */
  ghost predicate Findable<K, V>(h: Hasher<K>, t: Table<K, V>)
    requires Shaped(t)
  {
    forall s :: Live(t, s) ==>
      t.st[s] == h.Fingerprint(t.en[s].key) && PathClear(h, t, t.en[s].key, DepthOf(h, t.en[s].key, |t.st|, s))
  }

  ghost predicate OneSlotPerKey<K, V>(t: Table<K, V>)
    requires Shaped(t)
  {
    forall s, s' :: Live(t, s) && Live(t, s') && t.en[s].key == t.en[s'].key ==> s == s'
  }

  ghost predicate WellFormed<K, V>(h: Hasher<K>, t: Table<K, V>) {
    Shaped(t) && Findable(h, t) && OneSlotPerKey(t)
  }

  /** The finite map the table stands for. */
  ghost predicate Represents<K, V>(t: Table<K, V>, m: map<K, V>)
    requires Shaped(t)
  {
    && (forall s :: Live(t, s) ==> t.en[s].key in m && m[t.en[s].key] == t.en[s].val)
    && (forall key :: key in m ==> exists s :: Holds(t, s, key))
  }

  /** A table stands for one map only. */
  lemma RepresentsOne<K, V>(t: Table<K, V>, m: map<K, V>, m': map<K, V>)
    requires Shaped(t) && Represents(t, m) && Represents(t, m')
    ensures m == m'
  {
    forall key | key in m
      ensures key in m' && m'[key] == m[key]
    {
      var s :| Holds(t, s, key);
    }
    forall key | key in m'
      ensures key in m
    {
      var s :| Holds(t, s, key);
    }
  }

  ghost function LiveSlots<K, V>(t: Table<K, V>): set<int> {
    set s | 0 <= s < |t.st| && t.st[s] >= FULL_MIN
  }

  ghost function TombSlots<K, V>(t: Table<K, V>): set<int> {
    set s | 0 <= s < |t.st| && t.st[s] == TOMB
  }

  ghost function Store<K, V>(t: Table<K, V>, s: int, b: int, e: Slot<K, V>): Table<K, V>
    requires 0 <= s < |t.st| == |t.en|
  {
    Table(t.st[s := b], t.en[s := e])
  }

  lemma BlankIsEmpty<K, V>(h: Hasher<K>, t: Table<K, V>)
    requires TableCap(|t.st|) && |t.en| == |t.st|
    requires forall s :: 0 <= s < |t.st| ==> t.st[s] == EMPTY && t.en[s].Raw?
    ensures WellFormed(h, t) && Represents(t, map[]) && LiveSlots(t) == {} && TombSlots(t) == {}
  {
  }

  /** Filling no EMPTY back in, a write leaves every clear path clear. */
  lemma PathStaysClear<K, V>(h: Hasher<K>, t: Table<K, V>, t': Table<K, V>, key: K, n: nat)
    requires TableCap(|t.st|) && |t'.st| == |t.st| && PathClear(h, t, key, n)
    requires forall s :: 0 <= s < |t.st| && t.st[s] != EMPTY ==> t'.st[s] != EMPTY
    ensures PathClear(h, t', key, n)
  {
  }

  lemma FindableStays<K, V>(h: Hasher<K>, t: Table<K, V>, s: int, b: int, e: Slot<K, V>)
    requires Shaped(t) && Findable(h, t) && 0 <= s < |t.st| && b != EMPTY
    requires Shaped(Store(t, s, b, e))
    requires b >= FULL_MIN ==> e.Entry? && b == h.Fingerprint(e.key) && PathClear(h, t, e.key, DepthOf(h, e.key, |t.st|, s))
    ensures Findable(h, Store(t, s, b, e))
  {
    hide TableCap, HomeOf, PathClear, DepthOf;
    var t' := Store(t, s, b, e);
    forall x | Live(t', x)
      ensures t'.st[x] == h.Fingerprint(t'.en[x].key)
      ensures PathClear(h, t', t'.en[x].key, DepthOf(h, t'.en[x].key, |t.st|, x))
    {
      var key := t'.en[x].key;
      PathStaysClear(h, t, t', key, DepthOf(h, key, |t.st|, x));
    }
  }

  lemma StoreShaped<K, V>(t: Table<K, V>, s: int, b: int, e: Slot<K, V>)
    requires Shaped(t) && 0 <= s < |t.st|
    requires if e.Raw? then b == TOMB else FULL_MIN <= b < 0x100
    ensures Shaped(Store(t, s, b, e))
    ensures e.Raw? ==> LiveSlots(Store(t, s, b, e)) == LiveSlots(t) - {s} && TombSlots(Store(t, s, b, e)) == TombSlots(t) + {s}
    ensures e.Entry? ==> LiveSlots(Store(t, s, b, e)) == LiveSlots(t) + {s} && TombSlots(Store(t, s, b, e)) == TombSlots(t) - {s}
  {
    hide TableCap;
  }

  /** Writing an absent key into a free slot with no EMPTY before it on its path. */
  lemma PlaceKeeps<K, V>(h: Hasher<K>, t: Table<K, V>, m: map<K, V>, key: K, val: V, s: int)
    requires WellFormed(h, t) && Represents(t, m) && key !in m
    requires 0 <= s < |t.st| && !Live(t, s) && PathClear(h, t, key, DepthOf(h, key, |t.st|, s))
    ensures var t' := Store(t, s, h.Fingerprint(key), Entry(key, val));
      && WellFormed(h, t') && Represents(t', m[key := val])
      && LiveSlots(t') == LiveSlots(t) + {s} && TombSlots(t') == TombSlots(t) - {s}
  {
    StoreShaped(t, s, h.Fingerprint(key), Entry(key, val));
    FindableStays(h, t, s, h.Fingerprint(key), Entry(key, val));
    WriteRepresents(t, m, key, val, s, h.Fingerprint(key));
  }

  lemma WriteRepresents<K, V>(t: Table<K, V>, m: map<K, V>, key: K, val: V, s: int, b: int)
    requires Shaped(t) && Represents(t, m) && OneSlotPerKey(t) && 0 <= s < |t.st| && b >= FULL_MIN
    requires |t.en| == |t.st|
    requires if key in m then Holds(t, s, key) else !Live(t, s)
    requires Shaped(Store(t, s, b, Entry(key, val)))
    ensures Represents(Store(t, s, b, Entry(key, val)), m[key := val])
    ensures OneSlotPerKey(Store(t, s, b, Entry(key, val)))
  {
    hide Shaped, TableCap;
    var t' := Store(t, s, b, Entry(key, val));
    forall x | Live(t', x) && x != s
      ensures Live(t, x) && t'.en[x] == t.en[x] && t.en[x].key != key && t.en[x].key in m
    {
      assert Live(t, x);
      if key in m {
        assert Live(t, s) && t.en[s].key == key;
      }
    }
    forall k | k in m || k == key
      ensures exists x :: Holds(t', x, k)
    {
      if k == key {
        assert Holds(t', s, k);
      } else {
        var x :| Holds(t, x, k);
        assert Holds(t', x, k);
      }
    }
  }

  /** Turning a live slot into a tombstone. */
  lemma EraseKeeps<K, V>(h: Hasher<K>, t: Table<K, V>, m: map<K, V>, key: K, s: int)
    requires WellFormed(h, t) && Represents(t, m) && Holds(t, s, key)
    ensures var t' := Store(t, s, TOMB, Raw);
      && WellFormed(h, t') && Represents(t', m - {key})
      && LiveSlots(t') == LiveSlots(t) - {s} && TombSlots(t') == TombSlots(t) + {s}
  {
    StoreShaped(t, s, TOMB, Raw);
    FindableStays(h, t, s, TOMB, Raw);
    EraseRepresents(t, m, key, s);
  }

  lemma EraseRepresents<K, V>(t: Table<K, V>, m: map<K, V>, key: K, s: int)
    requires Shaped(t) && Represents(t, m) && OneSlotPerKey(t) && Holds(t, s, key) && |t.en| == |t.st|
    requires Shaped(Store(t, s, TOMB, Raw))
    ensures Represents(Store(t, s, TOMB, Raw), m - {key}) && OneSlotPerKey(Store(t, s, TOMB, Raw))
  {
    hide Shaped, TableCap;
    var t' := Store(t, s, TOMB, Raw);
    forall k | k in m - {key}
      ensures exists x :: Holds(t', x, k)
    {
      var x :| Holds(t, x, k);
      assert Holds(t', x, k);
    }
  }

  /** Overwriting the value of a live slot. */
  lemma AssignKeeps<K, V>(h: Hasher<K>, t: Table<K, V>, m: map<K, V>, key: K, val: V, s: int)
    requires WellFormed(h, t) && Represents(t, m) && Holds(t, s, key)
    ensures key in m
    ensures var t' := Store(t, s, t.st[s], Entry(key, val));
      && WellFormed(h, t') && Represents(t', m[key := val])
      && LiveSlots(t') == LiveSlots(t) && TombSlots(t') == TombSlots(t)
  {
    StoreShaped(t, s, t.st[s], Entry(key, val));
    FindableStays(h, t, s, t.st[s], Entry(key, val));
    WriteRepresents(t, m, key, val, s, t.st[s]);
  }

  /** None of the first n slots probed for `key` holds it. */
  ghost predicate NotWithin<K, V>(h: Hasher<K>, t: Table<K, V>, key: K, n: nat)
    requires TableCap(|t.st|)
  {
    forall q: nat :: q < n ==> !Holds(t, PathSlot(h, key, |t.st|, q), key)
  }

  lemma NotPastEmpty<K, V>(h: Hasher<K>, t: Table<K, V>, key: K, s: int, n: nat)
    requires WellFormed(h, t) && Holds(t, s, key) && n < |t.st|
    requires t.st[PathSlot(h, key, |t.st|, n)] == EMPTY
    ensures exists q: nat :: q < n && Holds(t, PathSlot(h, key, |t.st|, q), key)
  {
    var p := DepthOf(h, key, |t.st|, s);
    assert PathClear(h, t, key, p);
    assert PathSlot(h, key, |t.st|, p) == s;
  }

  /** A search may stop at the first EMPTY. */
  lemma AbsentAtEmpty<K, V>(h: Hasher<K>, t: Table<K, V>, m: map<K, V>, key: K, n: nat)
    requires WellFormed(h, t) && Represents(t, m) && NotWithin(h, t, key, n) && n < |t.st|
    requires t.st[PathSlot(h, key, |t.st|, n)] == EMPTY
    ensures key !in m
  {
    if key in m {
      var s :| Holds(t, s, key);
      NotPastEmpty(h, t, key, s, n);
    }
  }

  /** Fewer live slots and tombstones than slots leave an EMPTY one. */
  lemma SomeEmpty<K, V>(t: Table<K, V>) returns (s: int)
    requires Shaped(t) && |LiveSlots(t)| + |TombSlots(t)| < |t.st|
    ensures 0 <= s < |t.st| && t.st[s] == EMPTY
  {
    var used := LiveSlots(t) + TombSlots(t);
    assert LiveSlots(t) * TombSlots(t) == {};
    assert |used| == |LiveSlots(t)| + |TombSlots(t)|;
    RangeSize(|t.st|);
    assert used != Range(|t.st|);
    assert used <= Range(|t.st|);
    s :| s in Range(|t.st|) && s !in used;
  }
}
