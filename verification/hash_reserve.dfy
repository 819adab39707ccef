/** What `reserve` of hash_map.hpp promises, and when the promise holds. */
module HashReserve {
  import opened Probing
  import opened HashTable
  import opened HashCapacity

  // -----------------------------------------------------------------------
  // Filling after a reserve
  // -----------------------------------------------------------------------

  ghost function Created(ops: seq<Op>): nat {
    if ops == [] then 0
    else (if ops[0].FreshInsert? || ops[0].ReusingInsert? then 1 else 0) + Created(ops[1..])
  }

  predicate Inserts(ops: seq<Op>, repeats: bool) {
    forall op :: op in ops ==> IsInsert(op) && (repeats || !op.PresentInsert?)
  }

  /** A run of inserts that brings in at most k keys; `repeats` says whether it may also insert keys
      that are there already. */
  ghost predicate Fills(c: Counts, k: nat, repeats: bool, ops: seq<Op>) {
    Runs(c, ops) && Created(ops) <= k && Inserts(ops, repeats)
  }

  /** No such run rebuilds the table. */
  ghost predicate AllFillsQuiet(c: Counts, k: nat, repeats: bool) {
    forall ops :: Fills(c, k, repeats, ops) ==> Quiet(c, ops)
  }

  /** n entries and the tombstones fit below the fill limit, and one more if keys are repeated: a
      repeated key asks for room before it is found. */
  predicate Roomy(c: Counts, n: nat, repeats: bool) {
    n + c.tombs + (if repeats then 1 else 0) <= MaxFill(c.cap)
  }

  lemma {:induction false} RoomyFillQuiet(c: Counts, k: nat, repeats: bool, ops: seq<Op>)
    requires Fills(c, k, repeats, ops) && Roomy(c, c.size + k, repeats)
    ensures Quiet(c, ops)
    decreases |ops|
  {
    if ops != [] {
      var op := ops[0];
      assert op in ops;
      var left := if op.PresentInsert? then k else k - 1;
      assert !Triggers(c);
      RoomyFillQuiet(Apply(c, op), left, repeats, ops[1..]);
    }
  }

  /** Inserts alone: the entries are those brought in, and quietly they only use tombstones up. */
  lemma {:induction false} InsertsSize(c: Counts, ops: seq<Op>, repeats: bool)
    requires Runs(c, ops) && Inserts(ops, repeats)
    ensures After(c, ops).size == c.size + Created(ops)
    ensures Quiet(c, ops) ==> After(c, ops).cap == c.cap && After(c, ops).tombs <= c.tombs
    decreases |ops|
  {
    if ops != [] {
      assert ops[0] in ops;
      InsertsSize(Apply(c, ops[0]), ops[1..], repeats);
    }
  }

  function Repeat(op: Op, k: nat): (ops: seq<Op>)
    ensures |ops| == k && forall x :: x in ops ==> x == op
  {
    seq(k, i => op)
  }

  lemma {:induction false} CreatedConcat(ops: seq<Op>, more: seq<Op>)
    ensures Created(ops + more) == Created(ops) + Created(more)
    decreases |ops|
  {
    if ops == [] {
      assert ops + more == more;
    } else {
      assert (ops + more)[1..] == ops[1..] + more;
      CreatedConcat(ops[1..], more);
    }
  }

  /** k new keys into never-used slots: quiet exactly while they fit, and then they only add up. */
  lemma {:induction false} FreshFill(c: Counts, k: nat)
    ensures Runs(c, Repeat(FreshInsert, k)) && Created(Repeat(FreshInsert, k)) == k
    ensures After(c, Repeat(FreshInsert, k)).size == c.size + k
    ensures Quiet(c, Repeat(FreshInsert, k)) <==> k == 0 || c.size + c.tombs + k <= MaxFill(c.cap)
    ensures Quiet(c, Repeat(FreshInsert, k)) ==> After(c, Repeat(FreshInsert, k)) == Counts(c.cap, c.size + k, c.tombs)
    decreases k
  {
    if k > 0 {
      assert Repeat(FreshInsert, k)[1..] == Repeat(FreshInsert, k - 1);
      FreshFill(Apply(c, FreshInsert), k - 1);
    }
  }

  lemma {:induction false} QuietGrows(c: Counts, ops: seq<Op>)
    requires Runs(c, ops) && Quiet(c, ops)
    ensures Growing(c, ops)
    decreases |ops|
  {
    if ops != [] {
      QuietGrows(Apply(c, ops[0]), ops[1..]);
    }
  }

  /** The counts when only never-used slots were taken and none is left below the fill limit. */
  function Brim(c: Counts): Counts {
    Counts(c.cap, if c.tombs <= MaxFill(c.cap) then MaxFill(c.cap) - c.tombs else 0, c.tombs)
  }

  /** New keys up to the brim, and one insert more: of a new key if n entries allow it, otherwise of a
      key that is there. */
  function TightFill(c: Counts, n: nat): seq<Op> {
    Repeat(FreshInsert, if Brim(c).size >= c.size then Brim(c).size - c.size else 0)
    + [if n > Brim(c).size then FreshInsert else PresentInsert]
  }

  lemma FilledToBrim(c: Counts)
    requires c.size + c.tombs <= MaxFill(c.cap)
    ensures Brim(c).size >= c.size && Triggers(Brim(c))
    ensures var news := Repeat(FreshInsert, Brim(c).size - c.size);
      && Runs(c, news) && After(c, news) == Brim(c) && Created(news) == Brim(c).size - c.size
      && Quiet(c, news) && Growing(c, news)
  {
    var k := Brim(c).size - c.size;
    assert Triggers(Brim(c)) && Brim(c) == Counts(c.cap, c.size + k, c.tombs);
    assert k > 0 ==> c.size + c.tombs + k <= MaxFill(c.cap);
    hide Brim, MaxFill, Repeat, Triggers, Created, Quiet, Growing, Runs, After;
    FreshFill(c, k);
    QuietGrows(c, Repeat(FreshInsert, k));
  }

  /** One step more at the end of a run. */
  lemma RunsOneMore(c: Counts, ops: seq<Op>, op: Op)
    requires Runs(c, ops) && Enabled(After(c, ops), op)
    ensures Runs(c, ops + [op])
    ensures Created(ops + [op]) == Created(ops) + if op.FreshInsert? || op.ReusingInsert? then 1 else 0
    ensures Quiet(c, ops + [op]) <==> Quiet(c, ops) && (IsInsert(op) ==> !Triggers(After(c, ops)))
    ensures Growing(c, ops + [op]) <==> Growing(c, ops) && (IsInsert(op) ==> CanGrow(After(c, ops)))
  {
    OneStep(After(c, ops), op);
    assert [op][1..] == [] && Created([]) == 0;
    assert Created([op]) == if op.FreshInsert? || op.ReusingInsert? then 1 else 0;
    hide Created, Quiet, Growing, Runs, After, Triggers, CanGrow, IsInsert, Enabled;
    CreatedConcat(ops, [op]);
    RunsConcat(c, ops, [op]);
    QuietConcat(c, ops, [op]);
    GrowingConcat(c, ops, [op]);
  }

  lemma InsertsOnly(news: seq<Op>, last: Op, repeats: bool)
    requires (forall op :: op in news ==> op == FreshInsert) && IsInsert(last) && (repeats || !last.PresentInsert?)
    ensures Inserts(news + [last], repeats)
  {
    assert forall op :: op in news + [last] ==> op in news || op == last;
  }

  /** Whatever is inserted at the brim rebuilds the table. */
  lemma BrimThen(c: Counts, last: Op, repeats: bool)
    requires c.size + c.tombs <= MaxFill(c.cap) && Brim(c).size >= c.size
    requires IsInsert(last) && Enabled(Brim(c), last) && (repeats || !last.PresentInsert?)
    ensures var ops, k := Repeat(FreshInsert, Brim(c).size - c.size) + [last], Brim(c).size - c.size;
      && Fills(c, if last.PresentInsert? then k else k + 1, repeats, ops) && !Quiet(c, ops)
      && (Growing(c, ops) <==> CanGrow(Brim(c)))
  {
    var news := Repeat(FreshInsert, Brim(c).size - c.size);
    InsertsOnly(news, last, repeats);
    FilledToBrim(c);
    hide Brim, MaxFill, Repeat, Triggers, CanGrow, Created, Quiet, Growing, Runs, After, Inserts, Enabled;
    RunsOneMore(c, news, last);
  }

  /** When there is too little room this fill rebuilds the table, at its last insert. */
  lemma TightFillRebuilds(c: Counts, n: nat, repeats: bool)
    requires c.size <= n <= MaxFill(c.cap) && 0 < n && c.size + c.tombs <= MaxFill(c.cap)
    requires !Roomy(c, n, repeats)
    ensures Fills(c, n - c.size, repeats, TightFill(c, n)) && !Quiet(c, TightFill(c, n))
    ensures Growing(c, TightFill(c, n)) <==> CanGrow(Brim(c))
  {
    hide Triggers, CanGrow, Created, Quiet, Growing, Runs, Inserts, Repeat;
    BrimThen(c, if n > Brim(c).size then FreshInsert else PresentInsert, repeats);
  }

  /** `reserve(n)` and then any inserts that bring the map up to n entries at most, in whatever mix of
      never-used slots, reused tombstones and keys already there: no such run rebuilds the table
      exactly when n and the tombstones left stay below the fill limit, by one more if keys may be
      repeated. */
  lemma ReserveThenFill(c: Counts, n: nat, repeats: bool)
    requires Fits(c) && c.size <= n && 0 < n <= MaxFill(MAX_CAP)
    ensures var r := Reserve(c, n);
      AllFillsQuiet(r, n - c.size, repeats) <==> Roomy(r, n, repeats)
    ensures c.tombs == 0 ==> AllFillsQuiet(Reserve(c, n), n - c.size, false)
  {
    var r, k := Reserve(c, n), n - c.size;
    ReserveLeavesRoom(c, n);
    forall q: bool
      ensures AllFillsQuiet(r, k, q) <==> Roomy(r, n, q)
    {
      if Roomy(r, n, q) {
        forall ops | Fills(r, k, q, ops)
          ensures Quiet(r, ops)
        {
          RoomyFillQuiet(r, k, q, ops);
        }
      } else {
        TightFillRebuilds(r, n, q);
      }
    }
  }

  lemma ReserveLeavesRoom(c: Counts, n: nat)
    requires Fits(c) && c.size <= n && 0 < n <= MaxFill(MAX_CAP)
    ensures var r := Reserve(c, n);
      && r.size == c.size && r.tombs <= c.tombs && n <= MaxFill(r.cap)
      && r.size + r.tombs <= MaxFill(r.cap)
  {
    SmallestCap();
    ReserveCapHolds(n, MIN_CAP);
    MaxFillMonotone(ReserveCap(n, MIN_CAP), Reserve(c, n).cap);
  }

  // -----------------------------------------------------------------------
  // When `reserve` ends
  // -----------------------------------------------------------------------

  /** The 32-bit capacity tried after k doublings. */
  function Tried(k: nat): nat {
    if k == 0 then MIN_CAP else Tried(k - 1) * 2 % 0x1_0000_0000
  }

  lemma {:induction false} TriedIs(k: nat)
    ensures Tried(k) == 0 || TableCap(Tried(k))
  {
    if k == 0 {
      SmallestCap();
    } else {
      TriedIs(k - 1);
      NextTried(Tried(k - 1));
    }
  }

  lemma NextTried(need: nat)
    requires need == 0 || TableCap(need)
    ensures need < MAX_CAP ==> need * 2 % 0x1_0000_0000 == 2 * need
    ensures need * 2 % 0x1_0000_0000 == 0 || TableCap(need * 2 % 0x1_0000_0000)
  {
    if 0 < need < MAX_CAP {
      DoubleCap(need);
    }
    assert need <= MAX_CAP;
    hide TableCap;
  }

  lemma TriedDoubles(k: nat)
    requires TableCap(Tried(k)) && Tried(k) < MAX_CAP
    ensures TableCap(Tried(k + 1)) && Tried(k + 1) == 2 * Tried(k) && Tried(k) < Tried(k + 1) <= MAX_CAP
  {
    var need := Tried(k);
    DoubleCap(need);
    NextTried(need);
    assert Tried(k + 1) == need * 2 % 0x1_0000_0000;
  }

  lemma CapBounds(cap: nat)
    requires TableCap(cap)
    ensures 1 <= cap <= MAX_CAP
  {
    hide IsPow2;
  }

  lemma ReserveCapStep(n: nat, need: nat)
    requires 1 <= need && n <= MaxFill(MAX_CAP)
    ensures ReserveCap(n, need) == if need >= MAX_CAP || n <= MaxFill(need) then need else ReserveCap(n, 2 * need)
  {
  }

  lemma {:induction false} TriedReaches(n: nat, k: nat) returns (stop: nat)
    requires n <= MaxFill(MAX_CAP) && TableCap(Tried(k))
    ensures k <= stop && Tried(stop) == ReserveCap(n, Tried(k)) && n <= MaxFill(Tried(stop))
    ensures forall j :: k <= j < stop ==> n > MaxFill(Tried(j))
    decreases MAX_CAP - Tried(k)
  {
    hide TableCap, Tried, MaxFill, ReserveCap;
    CapBounds(Tried(k));
    ReserveCapStep(n, Tried(k));
    if Tried(k) >= MAX_CAP || n <= MaxFill(Tried(k)) {
      stop := k;
    } else {
      TriedDoubles(k);
      stop := TriedReaches(n, k + 1);
    }
  }

  /** The doubling loop of `reserve(n)` ends if and only if the largest 32-bit power of two holds n:
      past it the capacity wraps to nothing and stays there. When it ends, it does at the capacity of
      `ReserveCap`, the first that holds n. */
  lemma ReserveEnds(n: nat)
    ensures (forall k :: n > MaxFill(Tried(k))) <==> n > MaxFill(MAX_CAP)
    ensures n <= MaxFill(MAX_CAP) ==> exists stop: nat ::
              n <= MaxFill(Tried(stop)) && Tried(stop) == ReserveCap(n, MIN_CAP) && forall j :: 0 <= j < stop ==> n > MaxFill(Tried(j))
  {
    if n > MaxFill(MAX_CAP) {
      forall k: nat
        ensures n > MaxFill(Tried(k))
      {
        TriedIs(k);
        MaxFillMonotone(Tried(k), MAX_CAP);
      }
    } else {
      TriedIs(0);
      var stop := TriedReaches(n, 0);
    }
  }
}
