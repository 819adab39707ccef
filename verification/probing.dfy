/** The probe sequence of hash_map.hpp: groups of sixteen slots whose anchors step
    away from the home slot by triangular numbers of groups. */
module Probing {
  import opened Logarithm
  import opened Pigeonhole

  const GROUP := 16

  ghost predicate IsPow2(n: nat) {
    n == 1 || (n > 1 && n % 2 == 0 && IsPow2(n / 2))
  }

  /** A power of two no smaller than one group. */
  ghost predicate LegalCap(cap: int) {
    GROUP <= cap && IsPow2(cap)
  }

  lemma {:induction false} Pow2Log(n: nat)
    requires IsPow2(n)
    ensures Pow2(Log2Floor(n)) == n
  {
    if n > 1 {
      Pow2Log(n / 2);
    }
  }

  lemma {:induction false} Pow2Product(j: nat, k: nat)
    ensures Pow2(j) * Pow2(k) == Pow2(j + k)
  {
    if j > 0 {
      Pow2Product(j - 1, k);
      assert Pow2(j) * Pow2(k) == 2 * (Pow2(j - 1) * Pow2(k));
    }
  }

  // Remainders by a divisor that is not a literal: each fact from its quotient.

  lemma QuotientUnique(c: int, q: int, r: int, q': int, r': int)
    requires 0 <= r < c && 0 <= r' < c && q * c + r == q' * c + r'
    ensures q == q' && r == r'
  {
    assert (q - q') * c == r' - r;
    ProductMonotone(q - q', -1, c);
    ProductMonotone(1, q - q', c);
  }

  lemma ModIs(x: int, c: int, q: int, r: int)
    requires 0 <= r < c && x == q * c + r
    ensures x % c == r && x / c == q
  {
    QuotientUnique(c, x / c, x % c, q, r);
  }

  lemma ModAddLeft(x: int, y: int, c: int)
    requires 0 < c
    ensures (x % c + y) % c == (x + y) % c
  {
    var q := x / c;
    var z := x % c + y;
    assert x + y == (q + z / c) * c + z % c by {
      assert x == q * c + x % c && z == (z / c) * c + z % c;
      assert (q + z / c) * c == q * c + (z / c) * c;
    }
    ModIs(x + y, c, q + z / c, z % c);
  }

  ghost function Tri(i: nat): nat {
    if i == 0 then 0 else Tri(i - 1) + i
  }

  lemma {:induction false} TriDifference(i: nat, j: nat)
    requires i <= j
    ensures 2 * (Tri(j) - Tri(i)) == (j - i) * (j + i + 1)
    decreases j - i
  {
    if i < j {
      TriDifference(i, j - 1);
      assert (j - i) * (j + i + 1) == (j - 1 - i) * (j + i) + 2 * j;
    }
  }

  lemma OddHalves(a: int, b: int, h: int)
    requires a % 2 == 1 && a * b == 2 * h
    ensures b % 2 == 0 && a * (b / 2) == h
  {
    var c := a / 2;
    OddProduct(c, b);
    assert a == 2 * c + 1;
    var x := c * b;
    assert b == 2 * (h - x);
    EvenProduct(a, h - x);
  }

  lemma OddProduct(c: int, b: int)
    ensures (2 * c + 1) * b == 2 * (c * b) + b
  {
  }

  lemma Commutes(a: int, b: int)
    ensures a * b == b * a
  {
  }

  lemma EvenProduct(a: int, k: int)
    ensures a * (2 * k) == 2 * (a * k)
  {
  }

  /** An odd factor takes no power of two with it. */
  lemma {:induction false} OddFactor(a: int, b: int, q: int, m: nat) returns (q': int)
    requires a % 2 == 1 && a * b == q * Pow2(m)
    ensures b == q' * Pow2(m)
    decreases m
  {
    if m == 0 {
      q' := b;
    } else {
      var h := q * Pow2(m - 1);
      assert q * Pow2(m) == 2 * h;
      OddHalves(a, b, h);
      q' := OddFactor(a, b / 2, q, m - 1);
      assert q' * Pow2(m) == 2 * (q' * Pow2(m - 1));
    }
  }

  /** So it cannot be what makes up a power of two with something smaller than that power. */
  lemma OddFactorTooSmall(a: int, b: int, q: int, m: nat)
    requires a % 2 == 1 && 0 < b < Pow2(m)
    ensures a * b != q * Pow2(m)
  {
    if a * b == q * Pow2(m) {
      var q' := OddFactor(a, b, q, m);
      ProductMonotone(q', 0, Pow2(m));
      ProductMonotone(1, q', Pow2(m));
    }
  }

  /** Triangular numbers differ modulo a power of two for indices below it. */
  lemma TriDistinct(i: nat, j: nat, groups: nat, q: int)
    requires IsPow2(groups) && i < j < groups
    ensures Tri(j) - Tri(i) != q * groups
  {
    hide Tri, Pow2, Log2Floor;
    TriDifference(i, j);
    var k := Log2Floor(groups);
    Pow2Log(groups);
    Pow2Next(k);
    hide IsPow2;
    DoubledProduct(q, groups, Pow2(k + 1));
    OneFactorOdd(j - i, j + i + 1, i, q, k + 1);
  }

  lemma OneFactorOdd(a: int, b: int, i: int, q: int, m: nat)
    requires 0 < a < Pow2(m) && 0 < b < Pow2(m) && b == a + 2 * i + 1
    ensures a * b != q * Pow2(m)
  {
    hide Pow2;
    if a % 2 == 1 {
      OddFactorTooSmall(a, b, q, m);
    } else {
      OddFactorTooSmall(b, a, q, m);
      Commutes(a, b);
    }
  }

  lemma DoubledProduct(q: int, n: int, twice: int)
    requires twice == 2 * n
    ensures q * twice == 2 * (q * n)
  {
    EvenProduct(q, n);
  }

  lemma Pow2Next(k: nat)
    ensures Pow2(k + 1) == 2 * Pow2(k)
  {
  }

  /** Every group is reached: the first `groups` triangular numbers hit each residue. */
  lemma TriCovers(groups: nat, g: nat) returns (i: nat)
    requires IsPow2(groups) && g < groups
    ensures i < groups && Tri(i) % groups == g
  {
    var walk := seq(groups, i requires 0 <= i < groups => Tri(i) % groups);
    forall i, j | 0 <= i < j < groups
      ensures walk[i] != walk[j]
    {
      TriApart(groups, i, j);
    }
    DistinctCovers(walk, g);
    i :| 0 <= i < groups && walk[i] == g;
  }

  lemma SameRemainder(x: int, y: int, c: int)
    requires 0 < c && x % c == y % c
    ensures y - x == (y / c - x / c) * c
  {
    var p, q := x / c, y / c;
    assert x == p * c + x % c && y == q * c + y % c;
    assert (q - p) * c == q * c - p * c;
  }

  lemma TriApart(groups: nat, i: nat, j: nat)
    requires IsPow2(groups) && i < j < groups
    ensures Tri(i) % groups != Tri(j) % groups
  {
    hide Tri, IsPow2;
    var x, y := Tri(i), Tri(j);
    if x % groups == y % groups {
      SameRemainder(x, y, groups);
      TriDistinct(i, j, groups, y / groups - x / groups);
    }
  }

  /** First slot of the i-th group probed from `home`. */
  ghost function Anchor(home: int, cap: int, i: nat): int
    requires 0 < cap
  {
    (home + GROUP * Tri(i)) % cap
  }

  /** The p-th slot probed from `home`: sixteen to a group. */
  ghost function ProbeSlot(home: int, cap: int, p: nat): int
    requires 0 < cap
  {
    (Anchor(home, cap, p / GROUP) + p % GROUP) % cap
  }

  /** x masked with cap - 1, cap being a power of two. */
  function Masked(x: nat, cap: nat): (r: nat)
    requires 0 < cap
    ensures r < cap
  {
    x % cap
  }

  /** One step of the walk: the step grows by a group and is added to the offset. */
  lemma AnchorStep(home: int, cap: int, i: nat)
    requires 0 < cap
    ensures 0 <= Anchor(home, cap, i) && Anchor(home, cap, i + 1) == Masked(Anchor(home, cap, i) + GROUP * (i + 1), cap)
  {
    ModAddLeft(home + GROUP * Tri(i), GROUP * (i + 1), cap);
  }

  lemma AnchorStart(home: int, cap: int)
    requires 0 <= home < cap
    ensures Anchor(home, cap, 0) == home
  {
    ModIs(home, cap, 0, home);
  }

  lemma ProbeSlotInGroup(home: int, cap: int, i: nat, b: int)
    requires 0 < cap && 0 <= b < GROUP
    ensures 0 <= Anchor(home, cap, i) < cap
    ensures ProbeSlot(home, cap, GROUP * i + b) == (Anchor(home, cap, i) + b) % cap == Masked(Anchor(home, cap, i) + b, cap)
  {
  }

  /** How far, going round, slot s is past slot h. */
  function Distance(h: int, s: int, cap: int): int
    requires 0 < cap
  {
    (s - h) % cap
  }

  lemma ProbeSlotDistance(home: int, cap: int, p: nat)
    requires LegalCap(cap)
    ensures 0 <= ProbeSlot(home, cap, p) < cap
    ensures Distance(home, ProbeSlot(home, cap, p), cap) == GROUP * (Tri(p / GROUP) % (cap / GROUP)) + p % GROUP
  {
    hide Tri, LegalCap;
    LegalCapGroups(cap);
    var t, b := Tri(p / GROUP), p % GROUP;
    ModAddLeft(home + GROUP * t, b, cap);
    DistanceIs(home, t, b, cap / GROUP, cap, home + GROUP * t + b);
  }

  lemma DistanceIs(home: int, t: nat, b: int, groups: int, cap: int, x: int)
    requires 0 < cap == GROUP * groups && 0 <= b < GROUP && x == home + GROUP * t + b
    ensures 0 <= x % cap < cap && (x % cap - home) % cap == GROUP * (t % groups) + b
  {
    DivMod(x, cap);
    DivMod(t, groups);
    var q, r, u, v := x / cap, x % cap, t / groups, t % groups;
    DistanceArithmetic(home, t, b, groups, cap, q, r, u, v);
    ModIs(r - home, cap, u - q, GROUP * v + b);
  }

  lemma DistanceArithmetic(home: int, t: int, b: int, groups: int, cap: int, q: int, r: int, u: int, v: int)
    requires cap == GROUP * groups && 0 <= b < GROUP && 0 <= v < groups
    requires home + GROUP * t + b == q * cap + r && t == u * groups + v
    ensures r - home == (u - q) * cap + (GROUP * v + b)
    ensures 0 <= GROUP * v + b < cap
  {
    assert GROUP * (u * groups) == u * cap;
    assert (u - q) * cap == u * cap - q * cap;
  }

  lemma DivMod(x: int, c: int)
    requires 0 < c
    ensures x == (x / c) * c + x % c && 0 <= x % c < c
  {
  }

  lemma Halved(n: nat)
    requires IsPow2(n) && 1 < n
    ensures n == 2 * (n / 2) && IsPow2(n / 2)
  {
  }

  lemma Doubled(n: nat)
    requires IsPow2(n)
    ensures IsPow2(2 * n)
  {
    assert 2 * n / 2 == n;
  }

  lemma LegalCapGroups(cap: int)
    requires LegalCap(cap)
    ensures cap == GROUP * (cap / GROUP) && IsPow2(cap / GROUP)
  {
    hide IsPow2;
    Halved(cap);
    Halved(cap / 2);
    Halved(cap / 4);
    Halved(cap / 8);
  }

  lemma SameDistance(home: int, s: int, s': int, cap: int)
    requires 0 <= s < cap && 0 <= s' < cap && Distance(home, s, cap) == Distance(home, s', cap)
    ensures s == s'
  {
    SameRemainder(s - home, s' - home, cap);
    var k := (s' - home) / cap - (s - home) / cap;
    ProductMonotone(1, k, cap);
    ProductMonotone(k, -1, cap);
  }

  /** The walk from any home visits every slot within its first `cap` probes... */
  lemma ProbeCovers(home: int, cap: int, s: int) returns (p: nat)
    requires LegalCap(cap) && 0 <= s < cap
    ensures p < cap && ProbeSlot(home, cap, p) == s
  {
    hide LegalCap, IsPow2, Tri, ProbeSlot, Distance;
    LegalCapGroups(cap);
    DistanceNonNegative(home, s, cap);
    var d := Distance(home, s, cap);
    var i := TriCovers(cap / GROUP, d / GROUP);
    p := GROUP * i + d % GROUP;
    ProbeSlotDistance(home, cap, p);
    SameDistance(home, ProbeSlot(home, cap, p), s, cap);
  }

  /** ... and none of them twice. */
  lemma ProbeOnce(home: int, cap: int, p: nat, q: nat)
    requires LegalCap(cap) && p < q < cap
    ensures ProbeSlot(home, cap, p) != ProbeSlot(home, cap, q)
  {
    hide LegalCap, IsPow2, Tri, ProbeSlot, Distance;
    LegalCapGroups(cap);
    ProbeSlotDistance(home, cap, p);
    ProbeSlotDistance(home, cap, q);
    if p / GROUP < q / GROUP {
      TriApart(cap / GROUP, p / GROUP, q / GROUP);
    }
  }

  lemma ProbeReaches(home: int, cap: int, s: int)
    requires LegalCap(cap) && 0 <= s < cap
    ensures exists p: nat :: p < cap && ProbeSlot(home, cap, p) == s
  {
    var p := ProbeCovers(home, cap, s);
  }

  /** When in the walk from `home` slot s comes up. */
  ghost function Position(home: int, cap: int, s: int): (p: nat)
    requires LegalCap(cap) && 0 <= s < cap
    ensures p < cap && ProbeSlot(home, cap, p) == s
  {
    ProbeReaches(home, cap, s);
    var p: nat :| p < cap && ProbeSlot(home, cap, p) == s;
    p
  }

  lemma PositionOf(home: int, cap: int, p: nat)
    requires LegalCap(cap) && p < cap
    ensures 0 <= ProbeSlot(home, cap, p) < cap
    ensures Position(home, cap, ProbeSlot(home, cap, p)) == p
  {
    hide LegalCap, ProbeSlot;
    ProbeSlotDistance(home, cap, p);
    var q := Position(home, cap, ProbeSlot(home, cap, p));
    if p < q {
      ProbeOnce(home, cap, p, q);
    } else if q < p {
      ProbeOnce(home, cap, q, p);
    }
  }

  lemma GoForward(a: int, s: int, cap: int)
    requires 0 <= s < cap
    ensures (a + Distance(a, s, cap)) % cap == s
  {
    ModAddLeft(s - a, a, cap);
    ModIs(s, cap, 0, s);
  }

  lemma ComeBack(a: int, b: int, cap: int)
    requires 0 <= b < cap
    ensures Distance(a, (a + b) % cap, cap) == b
  {
    ModAddLeft(a + b, -a, cap);
    ModIs(b, cap, 0, b);
  }

  /** Slot s is within a group of the k-th anchor exactly when the walk finds it in its
      k-th group. */
  lemma GroupHit(home: int, cap: int, k: nat, s: int)
    requires LegalCap(cap) && 0 <= s < cap && GROUP * k < cap
    ensures Distance(Anchor(home, cap, k), s, cap) < GROUP <==> Position(home, cap, s) / GROUP == k
  {
    hide LegalCap, IsPow2, Anchor, ProbeSlot, Tri, Distance;
    LegalCapGroups(cap);
    var a, p := Anchor(home, cap, k), Position(home, cap, s);
    if Distance(a, s, cap) < GROUP {
      HitInGroup(home, cap, k, s);
    }
    if p / GROUP == k {
      ProbeSlotInGroup(home, cap, k, p % GROUP);
      ComeBack(a, p % GROUP, cap);
    }
  }

  lemma HitInGroup(home: int, cap: int, k: nat, s: int)
    requires LegalCap(cap) && 0 <= s < cap && GROUP * k < cap && Distance(Anchor(home, cap, k), s, cap) < GROUP
    ensures Position(home, cap, s) / GROUP == k
  {
    hide LegalCap, IsPow2, Anchor, ProbeSlot, Tri, Distance, Position;
    LegalCapGroups(cap);
    var d := WalkedTo(home, cap, k, s);
    PositionOf(home, cap, GROUP * k + d);
  }

  lemma WalkedTo(home: int, cap: int, k: nat, s: int) returns (d: nat)
    requires LegalCap(cap) && 0 <= s < cap && Distance(Anchor(home, cap, k), s, cap) < GROUP
    ensures d < GROUP && ProbeSlot(home, cap, GROUP * k + d) == s
  {
    hide IsPow2, Anchor, ProbeSlot, Tri, Distance, Position;
    var a := Anchor(home, cap, k);
    DistanceNonNegative(a, s, cap);
    d := Distance(a, s, cap);
    GoForward(a, s, cap);
    ProbeSlotInGroup(home, cap, k, d);
  }

  lemma DistanceNonNegative(a: int, s: int, cap: int)
    requires 0 < cap
    ensures 0 <= Distance(a, s, cap) < cap
  {
  }

  /** A set that some slot is in is met by the walk before it has gone round. */
  lemma WalkBounded(home: int, cap: int, wanted: set<int>, s: int, i: nat)
    requires LegalCap(cap) && 0 <= s < cap && s in wanted
    requires forall q: nat :: q < GROUP * i ==> ProbeSlot(home, cap, q) !in wanted
    ensures GROUP * (i + 1) <= cap
  {
    hide LegalCap, IsPow2, ProbeSlot;
    LegalCapGroups(cap);
    var p := ProbeCovers(home, cap, s);
  }
}
