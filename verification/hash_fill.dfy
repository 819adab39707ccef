/** The count machine and the map, both ways: every run of the machine is taken by calls of a map whose
    hash reaches every slot, and what that makes of the promise of `reserve`
    (mcp/hexport/src/kstl/hash_map.hpp, hash.hpp). */
module HashFills {
  import opened Logarithm
  import opened Probing
  import opened HashTable
  import opened HashCapacity
  import opened HashReserve
  import opened HashSound
  import opened HashWalks
  import opened HashMaps
  import opened HashRuns
  import opened Options

  // -----------------------------------------------------------------------
  // Hashes that reach every slot
  // -----------------------------------------------------------------------

  /** `pick(cap, s, j)` is the j-th of more keys with home slot s than a table of `cap` slots holds. */
  ghost predicate Reaching<K>(h: Hasher<K>, pick: (nat, nat, nat) -> K) {
    && (forall cap: nat, s: nat, j: nat :: TableCap(cap) && s < cap && j <= MaxFill(cap) ==> HomeOf(h, pick(cap, s, j), cap) == s)
    && (forall cap: nat, s: nat, i: nat, j: nat :: TableCap(cap) && s < cap && i < j <= MaxFill(cap) ==> pick(cap, s, i) != pick(cap, s, j))
  }

  /** The inverse of FIB modulo 2^64. */
  const UNFIB := 0xF1DE_83E1_9937_733D

  const WORD := 0x1_0000_0000_0000_0000

  /** The hash of a 64-bit integer key is the key. */
  function Identity(): Hasher<nat> {
    Hasher((key: nat) => key)
  }

  function IntegerKey(cap: nat, s: nat, j: nat): nat {
    if cap == 0 then 0 else UNFIB * (s * (WORD / cap) + j) % WORD
  }

  /** The multiplication by FIB hits every 64-bit value. */
  lemma MixHits(y: nat)
    requires y < WORD
    ensures Identity().Mix(UNFIB * y % WORD) == y
  {
    var q, t := UNFIB * y / WORD, UNFIB * FIB / WORD;
    assert UNFIB * FIB == t * WORD + 1;
    calc {
      (UNFIB * y % WORD) * FIB;
      (UNFIB * y - q * WORD) * FIB;
      (UNFIB * FIB) * y - (q * FIB) * WORD;
      (t * y - q * FIB) * WORD + y;
    }
    ModIs((UNFIB * y % WORD) * FIB, WORD, t * y - q * FIB, y);
  }

  /** How many mixed values share a home slot. */
  lemma SlotWidth(cap: nat) returns (p: nat)
    requires TableCap(cap)
    ensures ShiftOf(cap) >= 0 && p == Pow2(ShiftOf(cap)) == WORD / cap && p * cap == WORD && MaxFill(cap) < p
  {
    ShiftIs(cap);
    Pow2Of64();
    Pow2Log(cap);
    p := Pow2(ShiftOf(cap));
    Pow2Product(ShiftOf(cap), Log2Floor(cap));
    hide Pow2, Log2Floor, IsPow2;
    ModIs(WORD, cap, p, 0);
    if p <= MaxFill(cap) {
      ProductMonotone(p, cap, cap);
      ProductMonotone(cap, MAX_CAP, cap);
    }
  }

  lemma SlotOfValue(cap: nat, p: nat, s: nat, j: nat)
    requires 0 < cap && p * cap == WORD && s < cap && j < p
    ensures s * p + j < WORD && (s * p + j) / p == s && (s * p + j) % p == j
  {
    ProductMonotone(s + 1, cap, p);
    assert (s + 1) * p == s * p + p && cap * p == p * cap;
    ModIs(s * p + j, p, s, j);
  }

  lemma IntegerHome(cap: nat, s: nat, j: nat)
    requires TableCap(cap) && s < cap && j <= MaxFill(cap)
    ensures HomeOf(Identity(), IntegerKey(cap, s, j), cap) == s
    ensures Identity().Mix(IntegerKey(cap, s, j)) % (WORD / cap) == j
  {
    var p := SlotWidth(cap);
    SlotOfValue(cap, p, s, j);
    MixHits(s * p + j);
    HomeUnfolds(Identity(), IntegerKey(cap, s, j), cap);
  }

  /** The fingerprint is independent of the slot: for every slot and every one of the 128 fingerprints there
      is a 64-bit integer key with both. */
  lemma FingerprintIndependent(cap: nat, s: nat, v: nat) returns (key: nat)
    requires TableCap(cap) && s < cap && v < 0x80
    ensures key < WORD && HomeOf(Identity(), key, cap) == s && Identity().Fingerprint(key) == FULL_MIN + v
  {
    var p := SlotWidth(cap);
    var half := WideSlots(cap, p);
    var y := s * p + v * 0x100_0000;
    SlotOfValue(cap, p, s, v * 0x100_0000);
    key := UNFIB * y % WORD;
    MixHits(y);
    HomeUnfolds(Identity(), key, cap);
    MiddleBits(s, half, p, v);
  }

  lemma MiddleBits(s: nat, half: nat, p: nat, v: nat)
    requires p == half * 0x8000_0000 && v < 0x80
    ensures ((s * p + v * 0x100_0000) / 0x100_0000) % 0x80 == v
  {
    var q := s * half;
    assert s * p == q * 0x8000_0000;
    assert (q * 0x8000_0000 + v * 0x100_0000) / 0x100_0000 == q * 0x80 + v;
  }

  /** The home slot takes the top 31 bits at most. */
  lemma WideSlots(cap: nat, p: nat) returns (q: nat)
    requires TableCap(cap) && ShiftOf(cap) >= 0 && p == Pow2(ShiftOf(cap))
    ensures q > 0 && p == q * 0x8000_0000
  {
    ShiftIs(cap);
    Log2FloorMonotone(cap, MAX_CAP);
    Log2OfMaxCap();
    Pow2Of64();
    var k := ShiftOf(cap) - 31;
    Pow2Product(k, 31);
    Pow2Positive(k);
    q := Pow2(k);
  }

  /** 64-bit integer keys, hashed to themselves, reach every slot. */
  lemma IntegersReach()
    ensures Reaching(Identity(), IntegerKey)
  {
    forall cap: nat, s: nat, j: nat | TableCap(cap) && s < cap && j <= MaxFill(cap)
      ensures HomeOf(Identity(), IntegerKey(cap, s, j), cap) == s
    {
      IntegerHome(cap, s, j);
    }
    forall cap: nat, s: nat, i: nat, j: nat | TableCap(cap) && s < cap && i < j <= MaxFill(cap)
      ensures IntegerKey(cap, s, i) != IntegerKey(cap, s, j)
    {
      IntegerHome(cap, s, i);
      IntegerHome(cap, s, j);
    }
  }

  // -----------------------------------------------------------------------
  // One step of the machine, taken by a call
  // -----------------------------------------------------------------------

  lemma {:induction false} ManyKeys<K, V>(m: map<K, V>, keys: seq<K>)
    requires forall k :: k in keys ==> k in m
    requires forall i, j :: 0 <= i < j < |keys| ==> keys[i] != keys[j]
    ensures |keys| <= |m|
  {
    if keys != [] {
      var last := |keys| - 1;
      MapMinus(m, keys[last]);
      forall k | k in keys[..last]
        ensures k in m - {keys[last]}
      {
        var i :| 0 <= i < last && keys[i] == k;
      }
      ManyKeys(m - {keys[last]}, keys[..last]);
    }
  }

  /** A key the map has not got, with home slot s in a table of `cap` slots. */
  method NewKeyAt<K(==), V>(h: HashMap<K, V>, pick: (nat, nat, nat) -> K, cap: nat, s: nat) returns (key: K)
    requires h.Valid() && Reaching(h.hasher, pick) && TableCap(cap) && s < cap && |h.contents| <= MaxFill(cap)
    ensures key !in h.contents && HomeOf(h.hasher, key, cap) == s
  {
    hide Sound, HashMap.Valid, TableCap, MaxFill, HomeOf;
    var j := 0;
    key := pick(cap, s, 0);
    var r := h.Find(key);
    while r.Some?
      invariant 0 <= j <= MaxFill(cap) && key == pick(cap, s, j)
      invariant r.Some? <==> key in h.contents
      invariant forall i: nat :: i < j ==> pick(cap, s, i) in h.contents
      decreases MaxFill(cap) - j
    {
      Outnumbered(h.contents, pick, cap, s, j + 1);
      j := j + 1;
      key := pick(cap, s, j);
      r := h.Find(key);
    }
  }

  lemma Outnumbered<K, V>(m: map<K, V>, pick: (nat, nat, nat) -> K, cap: nat, s: nat, n: nat)
    requires forall i: nat :: i < n ==> pick(cap, s, i) in m
    requires forall i: nat, j: nat :: i < j < n ==> pick(cap, s, i) != pick(cap, s, j)
    ensures n <= |m|
  {
    var keys := seq(n, i requires 0 <= i < n => pick(cap, s, i));
    ManyKeys(m, keys);
  }

  /** A slot with the state byte v. */
  method SlotWith<K(==), V>(h: HashMap<K, V>, v: int, ghost e: nat) returns (s: nat)
    requires h.Valid() && e < h.cap && h.cap <= h.state.Length && h.state[e] == v
    ensures s < h.cap && h.state[s] == v
  {
    hide Sound, HashMap.Valid;
    s := 0;
    while h.state[s] != v
      invariant s <= e
      decreases e - s
    {
      s := s + 1;
    }
  }

  lemma EmptyThere<K, V>(h: Hasher<K>, full: seq<int>, en: seq<Slot<K, V>>, c: Counts, shift: nat, m: map<K, V>) returns (e: nat)
    requires Sound(h, full, en, c, shift, m) && c.cap > 0
    ensures e < c.cap <= |full| && full[e] == EMPTY
  {
    hide Findable, OneSlotPerKey, Represents;
    MaxFillBelow(c.cap);
    e := SomeEmpty(Table(full[..c.cap], en));
  }

  lemma TombThere<K, V>(h: Hasher<K>, full: seq<int>, en: seq<Slot<K, V>>, c: Counts, shift: nat, m: map<K, V>) returns (e: nat)
    requires Sound(h, full, en, c, shift, m) && c.tombs > 0
    ensures e < c.cap <= |full| && full[e] == TOMB
  {
    hide Findable, OneSlotPerKey, Represents;
    var t := Table(full[..c.cap], en);
    assert TombSlots(t) != {};
    var s :| s in TombSlots(t);
    e := s;
  }

  /** A new key that lands as the step says: in the home slot that is EMPTY or a tombstone, or anywhere
      when the table is rebuilt first. */
  method NewKeyFor<K(==), V>(h: HashMap<K, V>, pick: (nat, nat, nat) -> K, op: Op) returns (key: K)
    requires h.Valid() && Reaching(h.hasher, pick)
    requires (op.FreshInsert? || op.ReusingInsert?) && Enabled(h.Tally(), op)
    ensures key !in h.contents
    ensures !Triggers(h.Tally()) ==> h.cap > 0 && h.HomeByte(key) == if op.ReusingInsert? then TOMB else EMPTY
  {
    ghost var m, c := h.contents, h.Tally();
    SoundCounts(h.hasher, h.state[..], h.ent[..], c, h.shift, m);
    if Triggers(Counts(h.cap, h.size, h.tombs)) {
      LargestCap();
      SizeBounded(h.hasher, h.state[..], h.ent[..], c, h.shift, m);
      hide Sound, HashMap.Valid, TableCap, MaxFill;
      key := NewKeyAt(h, pick, MAX_CAP, 0);
    } else {
      ghost var e;
      if op.ReusingInsert? {
        e := TombThere(h.hasher, h.state[..], h.ent[..], c, h.shift, m);
      } else {
        e := EmptyThere(h.hasher, h.state[..], h.ent[..], c, h.shift, m);
      }
      assert |m| <= MaxFill(h.cap);
      hide Sound, HashMap.Valid, TableCap, MaxFill, HomeOf;
      var s := SlotWith(h, if op.ReusingInsert? then TOMB else EMPTY, e);
      key := NewKeyAt(h, pick, h.cap, s);
    }
  }

  /** A key of a map that has one. */
  method SomeKey<K(==), V>(h: HashMap<K, V>) returns (key: K)
    requires h.Valid() && h.size > 0
    ensures key in h.contents
  {
    h.ThisCounts();
    var visited := h.ForEach();
    key := visited[0].0;
  }

  /** The call that takes a given step of the machine. */
  method Take<K(==), V>(h: HashMap<K, V>, pick: (nat, nat, nat) -> K, op: Op, val: V) returns (call: Call<K, V>)
    requires h.Valid() && Reaching(h.hasher, pick) && Enabled(h.Tally(), op) && (IsInsert(op) ==> CanGrow(h.Tally()))
    modifies h, h.state, h.ent
    ensures Steady(call) && (IsInsert(op) <==> Inserting(call)) && StepFits(old(h.contents), call, Some(op))
    ensures h.Valid() && h.contents == HashRuns.After(old(h.contents), call)
    ensures Stepped(old(h.Tally()), h.Tally(), Some(op))
    ensures if IsInsert(op) && Triggers(old(h.Tally())) then fresh(h.state) && fresh(h.ent)
            else h.state == old(h.state) && h.ent == old(h.ent)
  {
    hide Sound, HashMap.Valid, CanGrow, Triggers, Reaching, HashMap.HomeByte;
    ghost var c := h.Tally();
    match op {
      case Clear =>
        call := Call.Clear;
        h.Clear();
      case Erase =>
        var key := SomeKey(h);
        call := Call.Erase(key);
        var erased := h.Erase(key);
      case PresentInsert =>
        var key := SomeKey(h);
        call := Insert(key, val);
        var created, o := h.Insert(key, val);
      case _ =>
        var key := NewKeyFor(h, pick, op);
        call := Insert(key, val);
        var created, o := h.Insert(key, val);
        if Triggers(c) {
          WithoutTombs(c, op, o);
        }
    }
  }

  /** Right after a rebuild a new key has no tombstone to reuse. */
  lemma WithoutTombs(c: Counts, op: Op, o: Op)
    requires !op.PresentInsert? && !o.PresentInsert? && IsInsert(op) && IsInsert(o)
    requires Enabled(c, op) && Enabled(c, o) && Triggers(c)
    ensures o == op
  {
  }

  // -----------------------------------------------------------------------
  // Whole runs of the machine
  // -----------------------------------------------------------------------

  /** Every run of the count machine that needs no capacity past the largest is the run of some calls:
      these calls are made, and the counts take exactly those steps. */
  method Realise<K(==), V>(h: HashMap<K, V>, pick: (nat, nat, nat) -> K, ops: seq<Op>, val: V)
    returns (calls: seq<Call<K, V>>, ghost steps: seq<Option<Op>>)
    requires h.Valid() && Reaching(h.hasher, pick)
    requires Runs(h.Tally(), ops) && Growing(h.Tally(), ops)
    modifies h, h.state, h.ent
    ensures |calls| == |ops| && AllSteady(calls)
    ensures h.Valid() && h.contents == Final(old(h.contents), calls)
    ensures |steps| == |ops| && (forall i :: 0 <= i < |ops| ==> steps[i] == Some(ops[i])) && Ops(steps) == ops
    ensures StepsFit(old(h.contents), calls, steps) && Moved(old(h.Tally()), h.Tally(), ops)
    ensures if Quiet(old(h.Tally()), ops) then h.state == old(h.state) && h.ent == old(h.ent) else fresh(h.state) && fresh(h.ent)
  {
    hide Sound, HashMap.Valid, HashMap.Tally, CanGrow, Triggers, Reaching, StepFits, Stepped, Moved, Ops, Steady, Undisturbed, Tracked,
      IsInsert, Inserting, Enabled, HashCapacity.Apply, HashRuns.After, AllSteady;
    ghost var m, c := h.contents, h.Tally();
    TrackedStart(m, c);
    calls, steps := [], [];
    OpsStart<K, V>();
    var i := 0;
    while i < |ops|
      invariant 0 <= i <= |ops| && |calls| == |steps| == i
      invariant h.Valid() && h.contents == Final(m, calls)
      invariant Runs(h.Tally(), ops[i..]) && Growing(h.Tally(), ops[i..])
      invariant forall k :: 0 <= k < i ==> steps[k] == Some(ops[k])
      invariant AllSteady(calls) && Tracked(m, calls, c, h.Tally(), steps) && Ops(steps) == ops[..i]
      invariant (h.state == old(h.state) || fresh(h.state)) && (h.ent == old(h.ent) || fresh(h.ent))
      invariant if Undisturbed(c, steps) then h.state == old(h.state) && h.ent == old(h.ent) else fresh(h.state) && fresh(h.ent)
    {
      ghost var before := h.Tally();
      NextOp(before, ops, i);
      var call := Take(h, pick, ops[i], val);
      TakenOn(m, calls, call, c, before, h.Tally(), steps, ops, i);
      calls, steps := calls + [call], steps + [Some(ops[i])];
      i := i + 1;
    }
    TrackedEnd(m, calls, c, h.Tally(), steps);
    assert ops[..i] == ops;
  }

  lemma OpsStart<K, V>()
    ensures Ops([]) == [] && AllSteady<K, V>([])
  {
  }

  lemma NextOp(c: Counts, ops: seq<Op>, i: nat)
    requires i < |ops| && Runs(c, ops[i..]) && Growing(c, ops[i..])
    ensures Enabled(c, ops[i]) && (IsInsert(ops[i]) ==> CanGrow(c))
    ensures Runs(HashCapacity.Apply(c, ops[i]), ops[i + 1..]) && Growing(HashCapacity.Apply(c, ops[i]), ops[i + 1..])
  {
    assert ops[i..][1..] == ops[i + 1..];
  }

  lemma TakenOn<K, V>(m: map<K, V>, calls: seq<Call<K, V>>, call: Call<K, V>, c: Counts, d: Counts, e: Counts,
                      steps: seq<Option<Op>>, ops: seq<Op>, i: nat)
    requires i < |ops| && |calls| == |steps| == i && AllSteady(calls) && Steady(call)
    requires Tracked(m, calls, c, d, steps) && Ops(steps) == ops[..i]
    requires StepFits(Final(m, calls), call, Some(ops[i])) && Stepped(d, e, Some(ops[i]))
    ensures e == HashCapacity.Apply(d, ops[i])
    ensures Final(m, calls + [call]) == HashRuns.After(Final(m, calls), call)
    ensures AllSteady(calls + [call]) && Tracked(m, calls + [call], c, e, steps + [Some(ops[i])])
    ensures Ops(steps + [Some(ops[i])]) == ops[..i + 1]
    ensures Undisturbed(c, steps + [Some(ops[i])]) <==> Undisturbed(c, steps) && (Inserting(call) ==> !Triggers(d))
  {
    var now := calls + [call];
    assert now[..i] == calls && now[..i + 1] == now && now[i] == call;
    SteadyMore(calls, call);
    OpsMore(steps, ops, i);
    hide Final, StepFits, Steady, Tracked, Undisturbed, Triggers, Inserting, HashRuns.After, AllSteady, Ops, Enabled, HashCapacity.Apply;
    RunStep(m, now, i);
    TrackedOn(m, now, i, c, d, e, steps, Some(ops[i]));
  }

  lemma SteadyMore<K, V>(calls: seq<Call<K, V>>, call: Call<K, V>)
    requires AllSteady(calls) && Steady(call)
    ensures AllSteady(calls + [call])
  {
  }

  lemma OpsMore(steps: seq<Option<Op>>, ops: seq<Op>, i: nat)
    requires i < |ops| && Ops(steps) == ops[..i]
    ensures Ops(steps + [Some(ops[i])]) == ops[..i + 1]
  {
    assert (steps + [Some(ops[i])])[..|steps|] == steps && ops[..i + 1] == ops[..i] + [ops[i]];
  }

  lemma TrackedEnd<K, V>(m: map<K, V>, calls: seq<Call<K, V>>, c: Counts, d: Counts, steps: seq<Option<Op>>)
    requires AllSteady(calls) && Tracked(m, calls, c, d, steps)
    ensures StepsFit(m, calls, steps) && Moved(c, d, Ops(steps))
    ensures Undisturbed(c, steps) <==> Quiet(c, Ops(steps))
  {
  }

  // -----------------------------------------------------------------------
  // The promise of reserve
  // -----------------------------------------------------------------------

  /** Calls that only insert and leave n entries at most; `repeats` says whether keys may be inserted
      that are there already. */
  ghost predicate Filling<K, V>(m: map<K, V>, calls: seq<Call<K, V>>, n: nat, repeats: bool) {
    && |Final(m, calls)| <= n
    && forall i :: 0 <= i < |calls| ==> Inserting(calls[i]) && (repeats || calls[i].key !in Final(m, calls[..i]))
  }

  lemma {:induction false} FillingGrows<K, V>(m: map<K, V>, calls: seq<Call<K, V>>, n: nat, repeats: bool, j: nat)
    requires Filling(m, calls, n, repeats) && j <= |calls|
    ensures |Final(m, calls[..j])| <= n
    ensures j < |calls| && calls[j].key !in Final(m, calls[..j]) ==> |Final(m, calls[..j])| < n
    decreases |calls| - j
  {
    if j == |calls| {
      assert calls[..j] == calls;
    } else {
      var before, call := Final(m, calls[..j]), calls[j];
      RunStep(m, calls, j);
      assert Inserting(call);
      FillingGrows(m, calls, n, repeats, j + 1);
      hide Final;
      match call {
        case Insert(k, v) => MapPlus(before, k, v);
        case Index(k, d) => MapPlus(before, k, d);
        case Assign(k, _, v) => MapPlus(before, k, v);
        case TryEmplace(k, v) => MapPlus(before, k, v);
      }
    }
  }

  lemma FillingAt<K, V>(m: map<K, V>, calls: seq<Call<K, V>>, n: nat, repeats: bool, j: nat)
    requires Filling(m, calls, n, repeats) && j < |calls|
    ensures Inserting(calls[j]) && (repeats || calls[j].key !in Final(m, calls[..j]))
  {
  }

  lemma FillingSteady<K, V>(m: map<K, V>, calls: seq<Call<K, V>>, n: nat, repeats: bool, j: nat)
    requires Filling(m, calls, n, repeats) && j <= |calls|
    ensures AllSteady(calls[..j])
  {
    forall k | 0 <= k < j
      ensures Steady(calls[..j][k])
    {
      assert Inserting(calls[k]);
    }
  }

  lemma {:induction false} FillingInserts<K, V>(m: map<K, V>, calls: seq<Call<K, V>>, n: nat, repeats: bool, j: nat, steps: seq<Option<Op>>)
    requires Filling(m, calls, n, repeats) && j <= |calls| && |steps| == j && StepsFit(m, calls[..j], steps)
    ensures AllSteady(calls[..j]) && Inserts(Ops(steps), repeats)
    decreases j
  {
    hide Final, Filling, Ops, StepFits, StepsFit, Inserts, AllSteady;
    FillingSteady(m, calls, n, repeats, j);
    if j == 0 {
      NothingInserted(steps, repeats);
    } else {
      var i := j - 1;
      assert calls[..j][..i] == calls[..i];
      PrefixFits(m, calls[..j], steps);
      FillingInserts(m, calls, n, repeats, i, steps[..i]);
      FillingAt(m, calls, n, repeats, i);
      LastFits(m, calls[..j], steps);
      LastInserts(Final(m, calls[..i]), calls[i], steps, repeats);
    }
  }

  lemma NothingInserted(steps: seq<Option<Op>>, repeats: bool)
    requires steps == []
    ensures Inserts(Ops(steps), repeats)
  {
  }

  lemma LastFits<K, V>(m: map<K, V>, calls: seq<Call<K, V>>, steps: seq<Option<Op>>)
    requires calls != [] && StepsFit(m, calls, steps)
    ensures |steps| == |calls| && StepFits(Final(m, calls[..|calls| - 1]), calls[|calls| - 1], steps[|calls| - 1])
  {
  }

  lemma LastInserts<K, V>(m: map<K, V>, call: Call<K, V>, steps: seq<Option<Op>>, repeats: bool)
    requires steps != [] && Inserts(Ops(steps[..|steps| - 1]), repeats)
    requires Inserting(call) && StepFits(m, call, steps[|steps| - 1]) && (repeats || call.key !in m)
    ensures Inserts(Ops(steps), repeats)
  {
  }

  /** With room for n entries no fill up to n comes to an insert that has to rebuild. */
  lemma RoomyFill<K, V>(c: Counts, d: Counts, m: map<K, V>, calls: seq<Call<K, V>>, n: nat, repeats: bool, j: nat, steps: seq<Option<Op>>)
    requires c.size == |m| && Filling(m, calls, n, repeats) && Roomy(c, n, repeats)
    requires j <= |calls| && Tracked(m, calls[..j], c, d, steps) && AllSteady(calls[..j])
    ensures Undisturbed(c, steps) && (j < |calls| ==> Served(d, calls[j]))
  {
    assert StepsFit(m, calls[..j], steps) && |steps| == j;
    hide Final, Ops, Runs, HashCapacity.After, HashCapacity.Apply, Quiet, Filling, StepsFit, Inserts, AllSteady;
    FillingInserts(m, calls, n, repeats, j, steps);
    FillingGrows(m, calls, n, repeats, j);
    SizeFollows(c, m, calls[..j], steps);
    InsertsSize(c, Ops(steps), repeats);
    RoomyFillQuiet(c, n - c.size, repeats, Ops(steps));
    if j < |calls| {
      FillingAt(m, calls, n, repeats, j);
    }
  }

  /** Whatever the hash: with room for n entries below the fill limit no run of inserts up to n entries
      rebuilds the table. */
  method FillKeepsTable<K(==), V>(h: HashMap<K, V>, calls: seq<Call<K, V>>, n: nat, repeats: bool)
    returns (answers: seq<Answer<V>>)
    requires h.Valid() && Filling(h.contents, calls, n, repeats) && Roomy(h.Tally(), n, repeats)
    modifies h, h.state, h.ent
    ensures h.Valid() && h.contents == Final(old(h.contents), calls)
    ensures answers == Answers(old(h.contents), calls)
    ensures h.state == old(h.state) && h.ent == old(h.ent)
  {
    ghost var m, c := h.contents, h.Tally();
    h.ThisCounts();
    hide Sound, HashMap.Valid, HashMap.Tally, Roomy, Filling, Final, Answers, Undisturbed, Tracked, AllSteady, Served, Admitted;
    ghost var steps;
    var done;
    answers, done, steps := Run(h, calls);
    FillingSteady(m, calls, n, repeats, done);
    RoomyFill(c, h.Tally(), m, calls, n, repeats, done, steps);
    assert calls[..done] == calls;
  }

  /** The calls of a tight fill are a fill. */
  lemma RealisedFill<K, V>(c: Counts, m: map<K, V>, calls: seq<Call<K, V>>, n: nat, repeats: bool, steps: seq<Option<Op>>, ops: seq<Op>)
    requires c.size == |m| <= n && AllSteady(calls) && StepsFit(m, calls, steps)
    requires |calls| == |steps| == |ops| && (forall i :: 0 <= i < |ops| ==> steps[i] == Some(ops[i])) && Ops(steps) == ops
    requires Fills(c, n - c.size, repeats, ops)
    ensures Filling(m, calls, n, repeats)
  {
    assert Inserts(ops, repeats) && Runs(c, ops) && Created(ops) <= n - c.size;
    hide Final, Ops, Runs, HashCapacity.After, StepsFit, AllSteady, Created, Inserts;
    SizeFollows(c, m, calls, steps);
    InsertsSize(c, ops, repeats);
    forall i | 0 <= i < |calls|
      ensures Inserting(calls[i]) && (repeats || calls[i].key !in Final(m, calls[..i]))
    {
      StepOfFill(m, calls, steps, ops, repeats, i);
    }
  }

  lemma StepOfFill<K, V>(m: map<K, V>, calls: seq<Call<K, V>>, steps: seq<Option<Op>>, ops: seq<Op>, repeats: bool, i: nat)
    requires AllSteady(calls) && StepsFit(m, calls, steps) && Inserts(ops, repeats)
    requires i < |calls| && |ops| == |steps| == |calls| && steps[i] == Some(ops[i])
    ensures Inserting(calls[i]) && (repeats || calls[i].key !in Final(m, calls[..i]))
  {
    assert Steady(calls[i]) && StepFits(Final(m, calls[..i]), calls[i], steps[i]);
    assert ops[i] in ops;
    hide Final;
  }

  lemma TightFillReady(c: Counts, n: nat, repeats: bool)
    requires c.size <= n <= MaxFill(c.cap) && 0 < n && c.size + c.tombs <= MaxFill(c.cap)
    requires !Roomy(c, n, repeats) && CanGrow(Brim(c))
    ensures var ops := TightFill(c, n);
      Fills(c, n - c.size, repeats, ops) && Runs(c, ops) && Growing(c, ops) && !Quiet(c, ops)
  {
    TightFillRebuilds(c, n, repeats);
  }

  /** And without that room, for a hash that reaches every slot, some run of inserts up to n entries
      does rebuild it: these calls are made. */
  method FillMovesTable<K(==), V>(h: HashMap<K, V>, pick: (nat, nat, nat) -> K, n: nat, repeats: bool, val: V)
    returns (calls: seq<Call<K, V>>)
    requires h.Valid() && Reaching(h.hasher, pick)
    requires |h.contents| <= n <= MaxFill(h.cap) && 0 < n && !Roomy(h.Tally(), n, repeats)
    requires CanGrow(Brim(h.Tally()))
    modifies h, h.state, h.ent
    ensures Filling(old(h.contents), calls, n, repeats)
    ensures h.Valid() && h.contents == Final(old(h.contents), calls)
    ensures fresh(h.state) && fresh(h.ent)
  {
    ghost var m, c := h.contents, h.Tally();
    h.ThisCounts();
    TallyIs(h);
    var ops := TightFill(Counts(h.cap, h.size, h.tombs), n);
    TightFillReady(c, n, repeats);
    hide *;
    ghost var steps;
    calls, steps := Realise(h, pick, ops, val);
    RealisedFill(c, m, calls, n, repeats, steps, ops);
  }

  // -----------------------------------------------------------------------
  // Two maps for which the promise fails, whatever the hash
  // -----------------------------------------------------------------------

  /** The capacity n new keys bring a new map to. */
  function FillCap(n: nat): nat
    requires n <= 56
  {
    if n == 0 then 0 else if n <= 14 then 16 else if n <= 28 then 32 else 64
  }

  lemma FillStep(n: nat)
    requires n < 56
    ensures CanGrow(Counts(FillCap(n), n, 0))
    ensures forall op :: IsInsert(op) && !op.PresentInsert? && Enabled(Counts(FillCap(n), n, 0), op) ==>
              HashCapacity.Apply(Counts(FillCap(n), n, 0), op) == Counts(FillCap(n + 1), n + 1, 0)
  {
  }

  predicate Distinct<K(==)>(keys: seq<K>) {
    forall i, j :: 0 <= i < j < |keys| ==> keys[i] != keys[j]
  }

  /** The map has these keys and no others. */
  ghost predicate HasKeys<K, V>(m: map<K, V>, keys: seq<K>) {
    m.Keys == set k | k in keys
  }

  lemma KeysMore<K, V>(m: map<K, V>, keys: seq<K>, i: nat, val: V)
    requires i < |keys| && Distinct(keys) && HasKeys(m, keys[..i])
    ensures keys[i] !in m && HasKeys(m[keys[i] := val], keys[..i + 1])
  {
    assert keys[..i + 1] == keys[..i] + [keys[i]];
  }

  lemma KeysFewer<K, V>(m: map<K, V>, keys: seq<K>, i: nat)
    requires i < |keys| && Distinct(keys) && HasKeys(m, keys[i..])
    ensures keys[i] in m && HasKeys(m - {keys[i]}, keys[i + 1..])
  {
    assert keys[i..] == [keys[i]] + keys[i + 1..];
  }

  lemma NoKeys<K, V>(m: map<K, V>)
    ensures HasKeys(m, []) <==> m == map[]
  {
    if HasKeys(m, []) {
      assert m.Keys == {};
    }
  }

  /** A new map with these keys inserted one after the other. */
  method Filled<K(==), V>(hasher: Hasher<K>, minCap: nat, keys: seq<K>, val: V) returns (h: HashMap<K, V>)
    requires |keys| <= 56 && Distinct(keys)
    ensures h.Valid() && fresh(h) && fresh(h.state) && fresh(h.ent)
    ensures h.Tally() == Counts(FillCap(|keys|), |keys|, 0) && HasKeys(h.contents, keys)
  {
    h := new HashMap(hasher, minCap);
    h.ThisCounts();
    NoKeys(h.contents);
    TallyIs(h);
    assert h.size == 0 && h.tombs == 0;
    hide Sound, HashMap.Valid, HashMap.Tally, FillCap, Distinct, HasKeys, CanGrow, Triggers, IsInsert, Enabled, HashCapacity.Apply;
    assert FillCap(0) == 0;
    var i := 0;
    while i < |keys|
      invariant 0 <= i <= |keys| && h.Valid() && fresh(h) && fresh(h.state) && fresh(h.ent)
      invariant h.Tally() == Counts(FillCap(i), i, 0) && HasKeys(h.contents, keys[..i])
    {
      FillStep(i);
      KeysMore(h.contents, keys, i, val);
      var created, op := h.Insert(keys[i], val);
      i := i + 1;
    }
    assert keys[..i] == keys;
  }

  lemma EraseStep(n: nat, i: nat)
    requires i < n
    ensures HashCapacity.Apply(Counts(64, n - i, i), HashCapacity.Erase) == Counts(64, n - i - 1, i + 1)
  {
  }

  /** Every key of the map erased. */
  method EraseAll<K(==), V>(h: HashMap<K, V>, keys: seq<K>)
    requires h.Valid() && Distinct(keys) && HasKeys(h.contents, keys) && h.Tally() == Counts(64, |keys|, 0)
    modifies h, h.state, h.ent
    ensures h.Valid() && h.contents == map[] && h.Tally() == Counts(64, 0, |keys|)
  {
    hide Sound, HashMap.Valid, HashMap.Tally, Distinct, HasKeys, Enabled, HashCapacity.Apply;
    assert keys[0..] == keys;
    var i := 0;
    while i < |keys|
      invariant 0 <= i <= |keys| && h.Valid() && h.state == old(h.state) && h.ent == old(h.ent)
      invariant h.Tally() == Counts(64, |keys| - i, i) && HasKeys(h.contents, keys[i..])
    {
      KeysFewer(h.contents, keys, i);
      EraseStep(|keys|, i);
      var erased := h.Erase(keys[i]);
      i := i + 1;
    }
    assert keys[i..] == [];
    NoKeys(h.contents);
  }

  /** A new map filled with 56 keys and emptied again: `reserve(40)` leaves it as it is, tombstones and
      all, and the very next insert rebuilds it. */
  method ReserveCanFail<K(==), V>(hasher: Hasher<K>, minCap: nat, keys: seq<K>, val: V) returns (h: HashMap<K, V>)
    requires |keys| == 56 && Distinct(keys)
    ensures h.Valid() && h.contents == map[] && h.Tally() == Counts(64, 0, 56)
    ensures HashCapacity.Reserve(h.Tally(), 40) == h.Tally() && Triggers(h.Tally())
  {
    assert FillCap(56) == 64 && ReserveCap(40, 32) == 64;
    hide Sound, HashMap.Valid, HashMap.Tally, Distinct, HasKeys, FillCap;
    h := Filled(hasher, minCap, keys, val);
    EraseAll(h, keys);
  }

  /** A key inserted twice into a table with one place left. */
  method InsertTwice<K(==), V>(h: HashMap<K, V>, key: K, val: V)
    requires h.Valid() && h.Tally() == Counts(64, 55, 0) && key !in h.contents
    modifies h, h.state, h.ent
    ensures h.Valid() && h.contents == old(h.contents)[key := val] && h.Tally() == Counts(128, 56, 0)
  {
    LastPlace();
    TallyIs(h);
    hide Sound, HashMap.Valid, HashMap.Tally, CanGrow, Triggers, IsInsert, Enabled, HashCapacity.Apply, MaxFill, HomeOf, HashMap.HomeByte;
    h.InsertNew(key, val);
    assert h.Tally() == Counts(64, 56, 0);
    var again, last := h.Insert(key, val);
    assert last == PresentInsert;
  }

  lemma LastPlace()
    ensures 56 <= MaxFill(64)
    ensures CanGrow(Counts(64, 56, 0)) && HashCapacity.Apply(Counts(64, 56, 0), PresentInsert) == Counts(128, 56, 0)
  {
  }

  /** Without a single tombstone a repeated key is enough: 55 of 56 entries there, one more inserted
      twice, and the capacity doubles although the map never holds more than was reserved. */
  method RepeatedKeyCanGrow<K(==), V>(hasher: Hasher<K>, minCap: nat, keys: seq<K>, val: V)
    returns (h: HashMap<K, V>, reserved: nat)
    requires |keys| == 56 && Distinct(keys)
    ensures h.Valid() && HasKeys(h.contents, keys)
    ensures reserved == 64 && h.Tally() == Counts(128, 56, 0)
  {
    Reserve56();
    assert FillCap(55) == 64 && keys[..55] + [keys[55]] == keys;
    assert Distinct(keys[..55]);
    hide Sound, HashMap.Valid, HashMap.Tally, Distinct, HasKeys, MaxFill, HashCapacity.Reserve, FillCap;
    h := Filled(hasher, minCap, keys[..55], val);
    KeysMore(h.contents, keys, 55, val);
    h.Reserve(56);
    TallyIs(h);
    reserved := h.cap;
    assert keys[..56] == keys;
    InsertTwice(h, keys[55], val);
  }

  lemma Reserve56()
    ensures 56 <= MaxFill(MAX_CAP) && HashCapacity.Reserve(Counts(64, 55, 0), 56) == Counts(64, 55, 0)
  {
    assert ReserveCap(56, 32) == 64;
  }
}
