/** When the table of hash_map.hpp is rebuilt, and at what capacity: the arithmetic of
    `_max_fill`, `_purge_limit` and the head of `_emplace_slot`, over whole runs. */
module HashCapacity {
  import opened Logarithm
  import opened Probing
  import opened HashTable

  const MIN_CAP := 16

  /** Seven eighths: how full, tombstones included, a table may get. */
  function MaxFill(cap: nat): nat {
    cap - cap / 8
  }

  /** 25/32: live entries up to here are rebuilt at the same capacity. */
  function PurgeLimit(cap: nat): nat {
    (cap / 32) * 25
  }

  datatype Counts = Counts(cap: nat, size: nat, tombs: nat)

  ghost predicate Fits(c: Counts) {
    && (c.cap == 0 || TableCap(c.cap))
    && c.size + c.tombs <= MaxFill(c.cap)
  }

  /** The next insert has to rebuild the table first. */
  predicate Triggers(c: Counts) {
    c.size + c.tombs + 1 > MaxFill(c.cap)
  }

  /** The capacity it is rebuilt at. */
  function RoomCap(c: Counts): nat {
    if c.cap != 0 && c.size + 1 <= PurgeLimit(c.cap) then c.cap
    else if c.cap == 0 then MIN_CAP else c.cap * 2
  }

  function MakeRoom(c: Counts): Counts {
    if Triggers(c) then Counts(RoomCap(c), c.size, 0) else c
  }

  lemma CapMultiple(cap: nat)
    requires TableCap(cap)
    ensures cap == 16 || (cap % 32 == 0 && 32 <= cap)
  {
    LegalCapGroups(cap);
  }

  lemma DoubleCap(cap: nat)
    requires TableCap(cap) && cap < MAX_CAP
    ensures TableCap(2 * cap)
  {
    assert IsPow2(2 * cap / 2);
    Pow2Of64();
    Pow2Log(cap);
    if Log2Floor(cap) > 30 {
      Pow2Grows(31, Log2Floor(cap));
    }
    Pow2Grows(Log2Floor(cap), 30);
    assert Pow2(31) == 2 * Pow2(30);
  }

  lemma SmallestCap()
    ensures TableCap(MIN_CAP)
  {
    assert IsPow2(2) && IsPow2(4) && IsPow2(8) && IsPow2(16);
  }

  /** The next insert does not have to double a capacity whose double wraps to nothing. */
  predicate CanGrow(c: Counts) {
    Triggers(c) && c.size + 1 > PurgeLimit(c.cap) ==> c.cap < MAX_CAP
  }

  /** When an insert rebuilds and at what capacity, in numbers: past seven eighths; and then at the same
      capacity while the entries with the new one are at most 25/32 of it, otherwise at twice that, the
      smallest table always at twice its size. */
  ghost predicate RoomInNumbers(c: Counts, cap: nat) {
    if 8 * (c.size + c.tombs + 1) <= 7 * c.cap then cap == c.cap
    else if c.cap == 0 then cap == 16
    else if 32 <= c.cap && 32 * (c.size + 1) <= 25 * c.cap then cap == c.cap
    else cap == 2 * c.cap
  }

  lemma MakeRoomIs(c: Counts)
    requires Fits(c)
    ensures RoomInNumbers(c, MakeRoom(c).cap) && MakeRoom(c).size == c.size
    ensures MakeRoom(c).tombs == if 8 * (c.size + c.tombs + 1) <= 7 * c.cap then c.tombs else 0
    ensures CanGrow(c) <==> MakeRoom(c).cap <= 0x8000_0000
  {
    if c.cap != 0 {
      CapMultiple(c.cap);
      assert c.cap <= 0x8000_0000;
      if c.cap < MAX_CAP {
        DoubleCap(c.cap);
      }
    }
    assert c.cap == 0 || c.cap == 16 || c.cap % 32 == 0;
    hide TableCap, Fits, MakeRoom, CanGrow, RoomInNumbers;
    RoomArithmetic(c);
  }

  lemma RoomArithmetic(c: Counts)
    requires c.cap == 0 || c.cap == 16 || c.cap % 32 == 0
    requires c.cap == MAX_CAP || 2 * c.cap <= MAX_CAP
    ensures RoomInNumbers(c, MakeRoom(c).cap) && MakeRoom(c).size == c.size
    ensures MakeRoom(c).tombs == if 8 * (c.size + c.tombs + 1) <= 7 * c.cap then c.tombs else 0
    ensures CanGrow(c) <==> MakeRoom(c).cap <= 0x8000_0000
  {
    var q := c.cap / 32;
    if c.cap != 16 {
      assert c.cap == 32 * q && MaxFill(c.cap) == 28 * q && PurgeLimit(c.cap) == 25 * q;
      hide MaxFill, PurgeLimit;
    }
  }

  lemma RoomCapFits(c: Counts)
    requires Fits(c) && Triggers(c) && CanGrow(c)
    ensures TableCap(RoomCap(c))
    ensures c.size + 1 <= MaxFill(RoomCap(c)) < RoomCap(c)
  {
    SmallestCap();
    if c.cap != 0 {
      CapMultiple(c.cap);
      if c.cap < MAX_CAP {
        DoubleCap(c.cap);
      }
    }
  }

  /** Making room leaves a legal table with room for one more. */
  lemma MakeRoomFits(c: Counts)
    requires Fits(c) && CanGrow(c)
    ensures Triggers(c) ==> TableCap(RoomCap(c)) && c.size <= MaxFill(RoomCap(c))
    ensures var r := MakeRoom(c); TableCap(r.cap) && r.size + r.tombs + 1 <= MaxFill(r.cap) < r.cap
  {
    if Triggers(c) {
      RoomCapFits(c);
    } else {
      CapMultiple(c.cap);
    }
  }

  lemma RoomToInsert(c: Counts)
    requires c.size + c.tombs + 1 <= MaxFill(c.cap)
    ensures CanGrow(c)
  {
  }

  /** The number of entries below which no history stands in the way of one more. */
  lemma SizeLimitIsExact(size: nat)
    requires 8 * size <= 7 * 0x8000_0000
    ensures (forall c :: Fits(c) && c.size == size ==> MakeRoom(c).cap <= 0x8000_0000) <==> 32 * size < 25 * 0x8000_0000
    ensures (forall c :: Fits(c) && c.size == size ==> CanGrow(c)) <==> 32 * size < 25 * 0x8000_0000
  {
    forall c | Fits(c)
      ensures CanGrow(c) <==> MakeRoom(c).cap <= 0x8000_0000
    {
      MakeRoomIs(c);
    }
    if 32 * size >= 25 * 0x8000_0000 {
      var c := Counts(MAX_CAP, size, MaxFill(MAX_CAP) - size);
      LargestCap();
      assert Fits(c) && !CanGrow(c);
    } else {
      forall c | Fits(c) && c.size == size
        ensures CanGrow(c)
      {
      }
    }
  }

  lemma LargestCap()
    ensures TableCap(MAX_CAP)
  {
    Pow2Of64();
    Pow2Is(31);
  }

  lemma {:induction false} Pow2Is(k: nat)
    ensures IsPow2(Pow2(k))
  {
    if k > 0 {
      Pow2Is(k - 1);
      Pow2Next(k - 1);
      hide Pow2, IsPow2;
      Doubled(Pow2(k - 1));
    }
  }

  /** What a call does to the counts: an insert may take a never-used slot, reuse a
      tombstone's, or find its key present. */
  datatype Op = FreshInsert | ReusingInsert | PresentInsert | Erase | Clear

  predicate IsInsert(op: Op) {
    op.FreshInsert? || op.ReusingInsert? || op.PresentInsert?
  }

  predicate Enabled(c: Counts, op: Op) {
    match op
    case FreshInsert => true
    case ReusingInsert => MakeRoom(c).tombs > 0
    case PresentInsert => c.size > 0
    case Erase => c.size > 0
    case Clear => true
  }

  function Apply(c: Counts, op: Op): Counts
    requires Enabled(c, op)
  {
    match op
    case FreshInsert => var r := MakeRoom(c); Counts(r.cap, r.size + 1, r.tombs)
    case ReusingInsert => var r := MakeRoom(c); Counts(r.cap, r.size + 1, r.tombs - 1)
    case PresentInsert => MakeRoom(c)
    case Erase => Counts(c.cap, c.size - 1, c.tombs + 1)
    case Clear => Counts(c.cap, 0, 0)
  }

  ghost predicate Runs(c: Counts, ops: seq<Op>)
    decreases |ops|
  {
    ops == [] || (Enabled(c, ops[0]) && Runs(Apply(c, ops[0]), ops[1..]))
  }

  ghost function After(c: Counts, ops: seq<Op>): Counts
    requires Runs(c, ops)
    decreases |ops|
  {
    if ops == [] then c else After(Apply(c, ops[0]), ops[1..])
  }

  /** A new key in a table with room and no tombstones takes a never-used slot. */
  lemma FreshWithoutTombs(c: Counts, op: Op)
    requires c.tombs == 0 && c.size + 1 <= MaxFill(c.cap)
    requires IsInsert(op) && !op.PresentInsert? && Enabled(c, op)
    ensures Apply(c, op) == Counts(c.cap, c.size + 1, 0)
  {
  }

  lemma {:induction false} RunsPrefix(c: Counts, ops: seq<Op>, more: seq<Op>)
    requires Runs(c, ops + more)
    ensures Runs(c, ops)
    decreases |ops|
  {
    if ops != [] {
      assert (ops + more)[1..] == ops[1..] + more;
      RunsPrefix(Apply(c, ops[0]), ops[1..], more);
    }
  }

  /** A run is the run of its parts. */
  lemma {:induction false} RunsConcat(c: Counts, ops: seq<Op>, more: seq<Op>)
    requires Runs(c, ops)
    ensures Runs(c, ops + more) <==> Runs(After(c, ops), more)
    ensures Runs(c, ops + more) ==> After(c, ops + more) == After(After(c, ops), more)
    decreases |ops|
  {
    if ops == [] {
      assert ops + more == more;
    } else {
      assert (ops + more)[1..] == ops[1..] + more;
      RunsConcat(Apply(c, ops[0]), ops[1..], more);
    }
  }

  /** Every insert of the run starts with live entries below 25/32 of the capacity. */
  ghost predicate Churning(c: Counts, ops: seq<Op>)
    requires Runs(c, ops)
    decreases |ops|
  {
    ops == [] ||
    ((IsInsert(ops[0]) ==> 32 * c.size < 25 * c.cap) && Churning(Apply(c, ops[0]), ops[1..]))
  }

  lemma {:induction false} ChurningConcat(c: Counts, ops: seq<Op>, more: seq<Op>)
    requires Runs(c, ops) && Runs(c, ops + more)
    ensures Runs(After(c, ops), more)
    ensures Churning(c, ops + more) <==> Churning(c, ops) && Churning(After(c, ops), more)
    decreases |ops|
  {
    RunsConcat(c, ops, more);
    if ops == [] {
      assert ops + more == more;
    } else {
      assert (ops + more)[1..] == ops[1..] + more;
      ChurningConcat(Apply(c, ops[0]), ops[1..], more);
    }
  }

  lemma ChurningStep(c: Counts, op: Op)
    requires Fits(c) && c.cap != 16 && Enabled(c, op) && (IsInsert(op) ==> 32 * c.size < 25 * c.cap)
    ensures Apply(c, op).cap == c.cap && Fits(Apply(c, op))
  {
    if c.cap != 0 {
      CapMultiple(c.cap);
    }
    hide TableCap;
  }

  /** Churn cannot grow the map: the capacity never changes, over any run.  The smallest capacity is
      left out, as its tables double whenever they are full, of tombstones or not. */
  lemma {:induction false} ChurnKeepsCapacity(c: Counts, ops: seq<Op>)
    requires Fits(c) && c.cap != 16 && Runs(c, ops) && Churning(c, ops)
    ensures After(c, ops).cap == c.cap
    decreases |ops|
  {
    if ops != [] {
      ChurningStep(c, ops[0]);
      ChurnKeepsCapacity(Apply(c, ops[0]), ops[1..]);
    }
  }

  /** It does grow a table of sixteen: six entries and eight tombstones. */
  lemma SmallestTableGrows()
    ensures Fits(Counts(16, 6, 8)) && Churning(Counts(16, 6, 8), [FreshInsert])
    ensures After(Counts(16, 6, 8), [FreshInsert]) == Counts(32, 7, 0)
  {
    SmallestCap();
    OneStep(Counts(16, 6, 8), FreshInsert);
  }

  /** No insert of the run rebuilds the table. */
  ghost predicate Quiet(c: Counts, ops: seq<Op>)
    requires Runs(c, ops)
    decreases |ops|
  {
    ops == [] ||
    ((IsInsert(ops[0]) ==> !Triggers(c)) && Quiet(Apply(c, ops[0]), ops[1..]))
  }

  lemma {:induction false} QuietConcat(c: Counts, ops: seq<Op>, more: seq<Op>)
    requires Runs(c, ops) && Runs(c, ops + more)
    ensures Runs(After(c, ops), more)
    ensures Quiet(c, ops + more) <==> Quiet(c, ops) && Quiet(After(c, ops), more)
    decreases |ops|
  {
    RunsConcat(c, ops, more);
    if ops == [] {
      assert ops + more == more;
    } else {
      assert (ops + more)[1..] == ops[1..] + more;
      QuietConcat(Apply(c, ops[0]), ops[1..], more);
    }
  }

  /** No insert of the run would have to double the largest capacity. */
  ghost predicate Growing(c: Counts, ops: seq<Op>)
    requires Runs(c, ops)
    decreases |ops|
  {
    ops == [] ||
    ((IsInsert(ops[0]) ==> CanGrow(c)) && Growing(Apply(c, ops[0]), ops[1..]))
  }

  lemma {:induction false} GrowingConcat(c: Counts, ops: seq<Op>, more: seq<Op>)
    requires Runs(c, ops) && Runs(c, ops + more)
    ensures Runs(After(c, ops), more)
    ensures Growing(c, ops + more) <==> Growing(c, ops) && Growing(After(c, ops), more)
    decreases |ops|
  {
    RunsConcat(c, ops, more);
    if ops == [] {
      assert ops + more == more;
    } else {
      assert (ops + more)[1..] == ops[1..] + more;
      GrowingConcat(Apply(c, ops[0]), ops[1..], more);
    }
  }

  /** Runs of one step. */
  lemma OneStep(c: Counts, op: Op)
    ensures Runs(c, [op]) <==> Enabled(c, op)
    ensures Enabled(c, op) ==> After(c, [op]) == Apply(c, op)
    ensures Enabled(c, op) ==> (Churning(c, [op]) <==> (IsInsert(op) ==> 32 * c.size < 25 * c.cap))
    ensures Enabled(c, op) ==> (Quiet(c, [op]) <==> (IsInsert(op) ==> !Triggers(c)))
    ensures Enabled(c, op) ==> (Growing(c, [op]) <==> (IsInsert(op) ==> CanGrow(c)))
  {
    assert [op][1..] == [];
    assert Enabled(c, op) ==> Runs(Apply(c, op), []);
  }

  ghost function FreshInserts(ops: seq<Op>): nat {
    if ops == [] then 0 else (if ops[0].FreshInsert? then 1 else 0) + FreshInserts(ops[1..])
  }

  lemma {:induction false} QuietFill(c: Counts, ops: seq<Op>)
    requires Runs(c, ops) && Quiet(c, ops)
    ensures After(c, ops).cap == c.cap
    ensures After(c, ops).size + After(c, ops).tombs <= c.size + c.tombs + FreshInserts(ops)
    decreases |ops|
  {
    if ops != [] {
      QuietFill(Apply(c, ops[0]), ops[1..]);
    }
  }

  /** After an insert that rebuilt the table at capacity n, at least 3n/32 inserts into
      never-used slots come before the next rebuild. */
  lemma RebuildsAreSpaced(c: Counts, first: Op, ops: seq<Op>)
    requires Fits(c) && CanGrow(c) && IsInsert(first) && Triggers(c) && Enabled(c, first)
    requires Runs(Apply(c, first), ops) && Quiet(Apply(c, first), ops)
    requires Triggers(After(Apply(c, first), ops))
    ensures 32 * FreshInserts(ops) >= 3 * Apply(c, first).cap
  {
    MakeRoomFits(c);
    CapMultiple(RoomCap(c));
    if c.cap != 0 {
      CapMultiple(c.cap);
    }
    QuietFill(Apply(c, first), ops);
  }

  /** Capacity after `reserve(n)`: the first doubling of MIN_CAP that holds n, if that is more. */
  function ReserveCap(n: nat, need: nat): nat
    requires 1 <= need && n <= MaxFill(MAX_CAP)
    decreases if need < MAX_CAP then MAX_CAP - need else 0
  {
    if need >= MAX_CAP || n <= MaxFill(need) then need else ReserveCap(n, 2 * need)
  }

  function Reserve(c: Counts, n: nat): Counts
    requires n <= MaxFill(MAX_CAP)
  {
    var need := ReserveCap(n, MIN_CAP);
    if need > c.cap then Counts(need, c.size, 0) else c
  }

  lemma {:induction false} ReserveCapHolds(n: nat, need: nat)
    requires 1 <= need <= MAX_CAP && n <= MaxFill(MAX_CAP)
    requires need == MAX_CAP || TableCap(need)
    ensures n <= MaxFill(ReserveCap(n, need)) && need <= ReserveCap(n, need)
    ensures TableCap(need) ==> TableCap(ReserveCap(n, need))
    decreases MAX_CAP - need
  {
    if need < MAX_CAP && n > MaxFill(need) {
      DoubleCap(need);
      ReserveCapHolds(n, 2 * need);
    }
  }

  lemma MaxFillMonotone(x: nat, y: nat)
    requires x <= y
    ensures MaxFill(x) <= MaxFill(y)
  {
  }
}
