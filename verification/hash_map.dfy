/** `kstl::hash_map`: the class, method by method, against the finite map it stands for. */
module HashMaps {
  import opened Lanes
  import opened Logarithm
  import opened Probing
  import opened HashTable
  import opened HashProbe
  import opened HashCapacity
  import opened HashSound
  import opened HashWalks
  import opened Options

  class HashMap<K(==), V> {
    const hasher: Hasher<K>
    const homeProbeMinCap: nat
    var state: array<int>
    var ent: array<Slot<K, V>>
    var cap: nat
    var size: nat
    var tombs: nat
    var shift: nat
    ghost var contents: map<K, V>

    ghost predicate Valid()
      reads this, state, ent
    {
      Sound(hasher, state[..], ent[..], Tally(), shift, contents)
    }

    ghost function Tally(): Counts
      reads this
    {
      Counts(cap, size, tombs)
    }

    ghost function Tbl(): Table<K, V>
      requires cap <= state.Length
      reads this, state, ent
    {
      Table(state[..][..cap], ent[..])
    }

    /** The state byte of a key's home slot. */
    ghost function HomeByte(key: K): int
      requires Valid() && cap > 0
      reads this, state, ent
    {
      state[HomeOf(hasher, key, cap)]
    }

    constructor (h: Hasher<K>, minCap: nat)
      ensures Valid() && contents == map[] && cap == 0
      ensures hasher == h && fresh(state) && fresh(ent)
    {
      hasher, homeProbeMinCap := h, minCap;
      state, ent := new int[0], new Slot<K, V>[0];
      cap, size, tombs, shift := 0, 0, 0, 0;
      contents := map[];
    }

    /** One group of a probe: the fingerprint matches before the group's first EMPTY are
        checked against the key. */
    method FindInGroup(key: K, fp: int, offset: nat, ghost i: nat)
      returns (found: bool, j: nat, limit: nat)
      requires Valid() && cap > 0 && fp == hasher.Fingerprint(key)
      requires offset < cap && offset == Anchor(HomeOf(hasher, key, cap), cap, i)
      ensures limit <= GROUP && FirstEmpty(hasher, Tbl(), key, i, limit)
      ensures found ==> j < cap && Holds(Tbl(), j, key)
      ensures !found ==> NoMatch(hasher, Tbl(), key, i, limit)
    {
      hide HomeOf, Anchor, Masked, LegalCap, LaneSlot, FirstEmpty, NoMatch, EqualLanes, Findable, OneSlotPerKey,
        Represents, Holds;
      ghost var t, full := Tbl(), state[..];
      var cand := EqualLanes(state[..], offset, fp);
      limit := NextLane(EqualLanes(state[..], offset, EMPTY), 0);
      LoadedGroup(hasher, t, full, key, i, offset);
      LaneCount(full, offset, fp);
      LaneCount(full, offset, EMPTY);
      var b := NextLane(cand, 0);
      NoMatchStart(hasher, t, key, i);
      SkipLanes(hasher, t, full, key, i, offset, 0, if b < limit then b else limit);
      found, j := false, 0;
      while b < limit
        invariant b <= GROUP && (b < GROUP ==> cand[b])
        invariant NoMatch(hasher, t, key, i, if b < limit then b else limit)
      {
        CandidateLive(hasher, t, full, key, i, offset, b);
        j := Masked(offset + b, cap);
        if ent[j].key == key {
          found := true;
          return;
        }
        NoMatchNext(hasher, t, key, i, b);
        ghost var from := b + 1;
        b := NextLane(cand, b + 1);
        SkipLanes(hasher, t, full, key, i, offset, from, if b < limit then b else limit);
      }
    }

    method SetState(i: nat, v: int)
      requires i < cap && state.Length == cap + GROUP
      modifies state
      ensures state[..] == StateSet(old(state[..]), cap, i, v)
    {
      state[i] := v;
      if i < GROUP {
        state[cap + i] := v;
      }
    }

    method Locate(key: K) returns (r: Option<nat>)
      requires Valid() && cap > 0
      ensures r.Some? <==> key in contents
      ensures r.Some? ==> r.value < cap && Holds(Tbl(), r.value, key)
      ensures r.Some? ==> ent[r.value] == Entry(key, contents[key])
    {
      hide HomeOf, Anchor, Masked, LegalCap, LaneSlot, FirstEmpty, NoMatch, Findable, OneSlotPerKey, Represents,
        PathSlot, Searched, PathClear, NotWithin, ShiftOf, LiveSlots, TombSlots;
      ghost var t := Tbl();
      WalkStart(hasher, key, cap, shift);
      var home := hasher.Home(key, shift);
      var fp := hasher.Fingerprint(key);
      var s0 := state[home];
      assert s0 == t.st[home];
      if s0 == fp && ent[home].key == key {
        HoldsMeans(hasher, t, contents, key, home);
        return Some(home);
      }
      if cap >= homeProbeMinCap && s0 == EMPTY {
        AbsentAtHome(hasher, t, contents, key);
        return None;
      }
      var offset, step := home, 0;
      ghost var i := 0;
      SearchStart(hasher, t, key);
      while true
        invariant 0 <= i && step == GROUP * i && 0 <= offset < cap
        invariant offset == Anchor(HomeOf(hasher, key, cap), cap, i)
        invariant Searched(hasher, t, key, GROUP * i)
        decreases cap - GROUP * i
      {
        SearchEnds(hasher, t, Tally(), contents, key, i);
        var found, j, limit := FindInGroup(key, fp, offset, i);
        if found {
          HoldsMeans(hasher, t, contents, key, j);
          return Some(j);
        }
        SearchGroup(hasher, t, key, i, limit);
        if limit < GROUP {
          SearchMiss(hasher, t, contents, key, i, limit);
          return None;
        }
        AnchorStep(HomeOf(hasher, key, cap), cap, i);
        step := step + GROUP;
        offset := Masked(offset + step, cap);
        i := i + 1;
      }
    }

    /** The probe loop of `_emplace_slot`: where the key is, or else the first free slot of
        its path. */
    method ProbeToPlace(key: K) returns (found: bool, idx: nat)
      requires Valid() && cap > 0
      ensures idx < cap && (found <==> key in contents)
      ensures found ==> Holds(Tbl(), idx, key)
      ensures !found ==> FirstOnPath(hasher, Tbl(), key, idx)
    {
      hide HomeOf, Anchor, Masked, LegalCap, LaneSlot, FirstEmpty, NoMatch, Findable, OneSlotPerKey, Represents,
        PathSlot, Searched, PathClear, NotWithin, ShiftOf, LiveSlots, TombSlots, FreeLanes, FirstFree, DepthOf, FirstOnPath;
      ghost var t, full := Tbl(), state[..];
      WalkStart(hasher, key, cap, shift);
      var home := hasher.Home(key, shift);
      var fp := hasher.Fingerprint(key);
      var firstFree, offset, step := cap, home, 0;
      ghost var i, q := 0, 0;
      SearchStart(hasher, t, key);
      FreeStart(hasher, t, key);
      while true
        invariant 0 <= i && step == GROUP * i && 0 <= offset < cap
        invariant offset == Anchor(HomeOf(hasher, key, cap), cap, i)
        invariant Searched(hasher, t, key, GROUP * i)
        invariant 0 <= q && FirstFree(hasher, t, key, GROUP * i, firstFree, q)
        decreases cap - GROUP * i
      {
        SearchEnds(hasher, t, Tally(), contents, key, i);
        var limit;
        found, idx, limit := FindInGroup(key, fp, offset, i);
        if found {
          HoldsMeans(hasher, t, contents, key, idx);
          return;
        }
        SearchGroup(hasher, t, key, i, limit);
        ghost var free;
        free, q := FreeLane(hasher, t, full, key, i, offset, firstFree, q);
        if firstFree == cap {
          LaneCount(full, offset, EMPTY);
          var b := NextLane(FreeLanes(state[..], offset), 0);
          if b < GROUP {
            firstFree := Masked(offset + b, cap);
          }
        }
        if limit < GROUP {
          SearchMiss(hasher, t, contents, key, i, limit);
          FreeBeforeEmpty(hasher, t, key, i, limit, firstFree, q);
          return false, firstFree;
        }
        AnchorStep(HomeOf(hasher, key, cap), cap, i);
        step := step + GROUP;
        offset := Masked(offset + step, cap);
        i := i + 1;
      }
    }

    /** `_emplace_slot` once there is room: find the key, or construct it with `val`. */
    method FindOrPlace(key: K, val: V) returns (created: bool, idx: nat, ghost reused: bool)
      requires Valid() && cap > 0 && size + tombs + 1 <= MaxFill(cap)
      modifies `size, `tombs, `contents, state, ent
      ensures Valid() && idx < cap && Holds(Tbl(), idx, key)
      ensures created <==> key !in old(contents)
      ensures contents == if created then old(contents)[key := val] else old(contents)
      ensures size == old(size) + if created then 1 else 0
      ensures reused ==> created && old(tombs) > 0
      ensures tombs == old(tombs) - if reused then 1 else 0
      ensures created && old(HomeByte(key)) in {EMPTY, TOMB} ==> (reused <==> old(HomeByte(key)) == TOMB)
    {
      hide LegalCap, Findable, OneSlotPerKey, Represents, PathClear, ShiftOf, LiveSlots, TombSlots, MaxFill,
        StateSet, DepthOf, WellFormed, HomeOf;
      ghost var full, en := state[..], ent[..];
      var found, pos := ProbeToPlace(key);
      if found {
        return false, pos, false;
      }
      TableShaped(hasher, full, en, Tally(), shift, contents);
      FirstIsPlace(hasher, Tbl(), key, pos);
      PlaceSound(hasher, full, en, Tally(), shift, contents, key, val, pos);
      PlacedHolds(full, en, cap, pos, hasher.Fingerprint(key), key, val);
      reused := state[pos] == TOMB;
      if state[pos] == TOMB {
        tombs := tombs - 1;
      }
      ent[pos] := Entry(key, val);
      SetState(pos, hasher.Fingerprint(key));
      size := size + 1;
      contents := contents[key := val];
      return true, pos, reused;
    }

    /** The probe loop of `_move_into`: the first EMPTY on the path of a key in a table
        that holds no tombstones and not this key. */
    method FirstBlank(ns: array<int>, newCap: nat, newShift: nat, key: K, ghost en: seq<Slot<K, V>>, ghost moved: map<K, V>)
      returns (j: nat)
      requires 0 < newCap && Sound(hasher, ns[..], en, Counts(newCap, |moved|, 0), newShift, moved)
      ensures j < newCap && ns[j] == EMPTY
      ensures PathClear(hasher, Table(ns[..][..newCap], en), key, DepthOf(hasher, key, newCap, j))
    {
      hide HomeOf, Anchor, Masked, LegalCap, LaneSlot, FirstEmpty, Findable, OneSlotPerKey, Represents,
        PathSlot, PathClear, ShiftOf, LiveSlots, TombSlots, MaxFill, DepthOf, EqualLanes;
      ghost var full := ns[..];
      ghost var t, c := Table(full[..newCap], en), Counts(newCap, |moved|, 0);
      WalkStart(hasher, key, newCap, newShift);
      var offset, step := hasher.Home(key, newShift), 0;
      ghost var i := 0;
      ClearStart(hasher, t, key);
      while true
        invariant 0 <= i && step == GROUP * i && 0 <= offset < newCap
        invariant offset == Anchor(HomeOf(hasher, key, newCap), newCap, i)
        invariant PathClear(hasher, t, key, GROUP * i)
        decreases newCap - GROUP * i
      {
        ClearEnds(hasher, t, c, moved, key, i);
        var b := NextLane(EqualLanes(ns[..], offset, EMPTY), 0);
        LaneCount(full, offset, EMPTY);
        LoadedGroup(hasher, t, full, key, i, offset);
        ClearGroup(hasher, t, key, i, b);
        if b < GROUP {
          EmptyPlace(hasher, t, full, key, i, offset, b);
          return Masked(offset + b, newCap);
        }
        AnchorStep(HomeOf(hasher, key, newCap), newCap, i);
        step := step + GROUP;
        offset := Masked(offset + step, newCap);
        i := i + 1;
      }
    }

    /** `_move_into`: one old entry into the new table. */
    method MoveInto(ns: array<int>, ne: array<Slot<K, V>>, newCap: nat, newShift: nat, key: K, val: V,
                    ghost moved: map<K, V>)
      requires 0 < newCap && Sound(hasher, ns[..], ne[..], Counts(newCap, |moved|, 0), newShift, moved)
      requires key !in moved && |moved| + 1 <= MaxFill(newCap)
      modifies ns, ne
      ensures Sound(hasher, ns[..], ne[..], Counts(newCap, |moved[key := val]|, 0), newShift, moved[key := val])
    {
      hide LegalCap, Findable, OneSlotPerKey, Represents, PathClear, ShiftOf, LiveSlots, TombSlots, MaxFill, StateSet,
        DepthOf, WellFormed;
      ghost var full, en := ns[..], ne[..];
      var j := FirstBlank(ns, newCap, newShift, key, en, moved);
      PlaceSound(hasher, full, en, Counts(newCap, |moved|, 0), newShift, moved, key, val, j);
      StateSetIs(full, newCap, j, hasher.Fingerprint(key));
      ne[j] := Entry(key, val);
      ns[j] := hasher.Fingerprint(key);
      if j < GROUP {
        ns[newCap + j] := ns[j];
      }
    }

    /** Storage for `newCap` slots, all EMPTY. */
    method Allocate(newCap: nat) returns (ns: array<int>, ne: array<Slot<K, V>>, newShift: nat)
      requires TableCap(newCap)
      ensures fresh(ns) && fresh(ne) && 0 < newCap
      ensures Sound(hasher, ns[..], ne[..], Counts(newCap, 0, 0), newShift, map[])
    {
      hide LegalCap, Sound, Log2Floor;
      ns := new int[newCap + GROUP];
      ne := new Slot<K, V>[newCap](_ => Raw);
      var k := 0;
      while k < newCap + GROUP
        invariant 0 <= k <= newCap + GROUP
        invariant forall x :: 0 <= x < k ==> ns[x] == EMPTY
        invariant forall x :: 0 <= x < newCap ==> ne[x].Raw?
        modifies ns
      {
        ns[k] := EMPTY;
        k := k + 1;
      }
      var bits := ILog2(newCap);
      ShiftIs(newCap);
      newShift := 64 - bits;
      BlankSound(hasher, ns[..], ne[..], newCap);
    }

    /** `_rehash`: a fresh table at `newCap`, every live entry moved into it. */
    method Rehash(newCap: nat)
      requires Valid() && TableCap(newCap) && size <= MaxFill(newCap)
      modifies this
      ensures Valid() && fresh(state) && fresh(ent)
      ensures contents == old(contents) && cap == newCap && size == old(size) && tombs == 0
    {
      hide TableCap, MaxFill, Sound, MovedBelow;
      ghost var m, full, en := contents, state[..], ent[..];
      SoundShape(hasher, full, en, Tally(), shift, m);
      var ns, ne, newShift := Allocate(newCap);
      ghost var moved: map<K, V> := map[];
      MovedStart(full, en, cap, m);
      var i := 0;
      while i < cap
        invariant 0 <= i <= cap && state[..] == full && ent[..] == en
        invariant Sound(hasher, ns[..], ne[..], Counts(newCap, |moved|, 0), newShift, moved)
        invariant MovedBelow(full, en, cap, m, moved, i)
        modifies ns, ne
      {
        if state[i] >= FULL_MIN {
          MovedNext(hasher, full, en, Tally(), shift, m, moved, i);
          var e := ent[i];
          MoveInto(ns, ne, newCap, newShift, e.key, e.val, moved);
          moved := moved[e.key := e.val];
        } else {
          MovedSkip(full, en, cap, m, moved, i);
        }
        i := i + 1;
      }
      MovedAll(hasher, full, en, Tally(), shift, m, moved);
      state, ent := ns, ne;
      cap, shift, tombs := newCap, newShift, 0;
    }

    /** `_emplace_slot`: make room first, even if the key turns out to be present.  What
        every caller constructs in a new slot is passed as `val`. */
    method EmplaceSlot(key: K, val: V) returns (created: bool, idx: nat, ghost op: Op)
      requires Valid() && CanGrow(Tally())
      modifies this, state, ent
      ensures Valid() && if Triggers(old(Tally())) then fresh(state) && fresh(ent) else state == old(state) && ent == old(ent)
      ensures idx < cap && Holds(Tbl(), idx, key)
      ensures created <==> key !in old(contents)
      ensures contents == if created then old(contents)[key := val] else old(contents)
      ensures IsInsert(op) && (created <==> !op.PresentInsert?)
      ensures Enabled(old(Tally()), op) && Tally() == Apply(old(Tally()), op) && RoomInNumbers(old(Tally()), cap)
      ensures created && !Triggers(old(Tally())) && old(HomeByte(key)) in {EMPTY, TOMB} ==>
                op == if old(HomeByte(key)) == TOMB then ReusingInsert else FreshInsert
    {
      hide Sound, TableCap, MaxFill, PurgeLimit, CanGrow, Holds, RoomInNumbers;
      ghost var c := Tally();
      SoundCounts(hasher, state[..], ent[..], c, shift, contents);
      MakeRoomFits(c);
      MakeRoomIs(c);
      if size + tombs + 1 > MaxFill(cap) {
        Rehash(RoomCap(Counts(cap, size, tombs)));
      }
      ghost var reused;
      created, idx, reused := FindOrPlace(key, val);
      op := if !created then PresentInsert else if reused then ReusingInsert else FreshInsert;
      SizePositive(old(contents), key);
    }

    method Insert(key: K, val: V) returns (created: bool, ghost op: Op)
      requires Valid() && CanGrow(Tally())
      modifies this, state, ent
      ensures Valid() && if Triggers(old(Tally())) then fresh(state) && fresh(ent) else state == old(state) && ent == old(ent)
      ensures contents == old(contents)[key := val] && (created <==> key !in old(contents))
      ensures IsInsert(op) && (created <==> !op.PresentInsert?)
      ensures Enabled(old(Tally()), op) && Tally() == Apply(old(Tally()), op) && RoomInNumbers(old(Tally()), cap)
      ensures created && !Triggers(old(Tally())) && old(HomeByte(key)) in {EMPTY, TOMB} ==>
                op == if old(HomeByte(key)) == TOMB then ReusingInsert else FreshInsert
    {
      hide Sound, TableCap, Holds, RoomInNumbers;
      var i;
      created, i, op := EmplaceSlot(key, val);
      SoundShape(hasher, state[..], ent[..], Tally(), shift, contents);
      if !created {
        AssignSound(hasher, state[..], ent[..], Tally(), shift, contents, key, val, i);
        ent[i] := Entry(key, val);
        contents := contents[key := val];
      }
    }

    /** `operator[]`: the slot of a key, which a missing key gets with a default value.  The reference
        the source returns is the value of that slot, read here and assigned by `AssignThrough`. */
    method Index(key: K, byDefault: V) returns (val: V, idx: nat, ghost op: Op)
      requires Valid() && CanGrow(Tally())
      modifies this, state, ent
      ensures Valid() && if Triggers(old(Tally())) then fresh(state) && fresh(ent) else state == old(state) && ent == old(ent)
      ensures contents == if key in old(contents) then old(contents) else old(contents)[key := byDefault]
      ensures val == contents[key] && idx < cap && Holds(Tbl(), idx, key)
      ensures IsInsert(op) && (op.PresentInsert? <==> key in old(contents))
      ensures Enabled(old(Tally()), op) && Tally() == Apply(old(Tally()), op) && RoomInNumbers(old(Tally()), cap)
    {
      hide Sound, TableCap, Holds, CanGrow, Enabled, Apply, IsInsert, RoomInNumbers;
      var created;
      created, idx, op := EmplaceSlot(key, byDefault);
      SoundShape(hasher, state[..], ent[..], Tally(), shift, contents);
      SoundHolds(hasher, state[..], ent[..], Tally(), shift, contents, key, idx);
      val := ent[idx].val;
    }

    /** Assigning through the reference a key's slot gave, while the slot still holds the key. */
    method AssignThrough(idx: nat, ghost key: K, val: V)
      requires Valid() && idx < cap && Holds(Tbl(), idx, key)
      modifies `contents, ent
      ensures Valid() && contents == old(contents)[key := val] && key in old(contents)
    {
      hide Sound, TableCap, Holds;
      SoundShape(hasher, state[..], ent[..], Tally(), shift, contents);
      SoundHolds(hasher, state[..], ent[..], Tally(), shift, contents, key, idx);
      AssignSound(hasher, state[..], ent[..], Tally(), shift, contents, key, val, idx);
      ent[idx] := Entry(ent[idx].key, val);
      contents := contents[key := val];
    }

    /** Leaves a present key's value alone. */
    method TryEmplace(key: K, val: V) returns (created: bool, ghost op: Op)
      requires Valid() && CanGrow(Tally())
      modifies this, state, ent
      ensures Valid() && if Triggers(old(Tally())) then fresh(state) && fresh(ent) else state == old(state) && ent == old(ent)
      ensures created <==> key !in old(contents)
      ensures contents == if created then old(contents)[key := val] else old(contents)
      ensures IsInsert(op) && (created <==> !op.PresentInsert?)
      ensures Enabled(old(Tally()), op) && Tally() == Apply(old(Tally()), op) && RoomInNumbers(old(Tally()), cap)
    {
      hide Sound, TableCap, Holds, CanGrow, Enabled, Apply, IsInsert, RoomInNumbers;
      var i;
      created, i, op := EmplaceSlot(key, val);
    }

    method Find(key: K) returns (r: Option<V>)
      requires Valid()
      ensures r == if key in contents then Some(contents[key]) else None
    {
      if cap == 0 {
        return None;
      }
      var i := Locate(key);
      r := if i.Some? then Some(ent[i.value].val) else None;
    }

    method Erase(key: K) returns (erased: bool)
      requires Valid()
      modifies `size, `tombs, `contents, state, ent
      ensures Valid()
      ensures (erased <==> key in old(contents)) && contents == old(contents) - {key}
      ensures erased ==> Enabled(old(Tally()), HashCapacity.Erase) && Tally() == Apply(old(Tally()), HashCapacity.Erase)
      ensures !erased ==> Tally() == old(Tally())
    {
      hide TableCap, Holds, SoundTable;
      if cap == 0 {
        return false;
      }
      var r := Locate(key);
      if r.None? {
        return false;
      }
      var i := r.value;
      EraseSound(hasher, state[..], ent[..], Tally(), shift, contents, key, i);
      ent[i] := Raw;
      SetState(i, TOMB);
      size, tombs := size - 1, tombs + 1;
      contents := contents - {key};
      return true;
    }

    method Clear()
      requires Valid()
      modifies `size, `tombs, `contents, state, ent
      ensures Valid() && contents == map[] && Tally() == Apply(old(Tally()), HashCapacity.Clear)
    {
      hide TableCap, Sound;
      ghost var c := Tally();
      SoundCounts(hasher, state[..], ent[..], c, shift, contents);
      SoundShape(hasher, state[..], ent[..], c, shift, contents);
      for i := 0 to cap
        invariant forall x :: 0 <= x < i ==> state[x] == EMPTY && ent[x].Raw?
        invariant forall x :: i <= x < cap ==> (state[x] < FULL_MIN ==> ent[x].Raw?)
      {
        if state[i] >= FULL_MIN {
          ent[i] := Raw;
        }
        state[i] := EMPTY;
      }
      if cap != 0 {
        for i := 0 to GROUP
          invariant forall x :: 0 <= x < cap + i ==> state[x] == EMPTY
          modifies state
        {
          state[cap + i] := EMPTY;
        }
      }
      size, tombs, contents := 0, 0, map[];
      ClearSound(hasher, state[..], ent[..], cap, shift);
    }

    /** Pre-size for n entries. */
    method Reserve(n: nat)
      requires Valid() && n <= MaxFill(MAX_CAP)
      modifies this
      ensures Valid() && (state == old(state) || fresh(state)) && (ent == old(ent) || fresh(ent))
      ensures old(cap) == 0 ==> fresh(state) && fresh(ent)
      ensures ReserveCap(n, MIN_CAP) <= old(cap) ==> state == old(state) && ent == old(ent)
      ensures contents == old(contents) && Tally() == HashCapacity.Reserve(old(Tally()), n)
    {
      hide TableCap, Sound, MaxFill;
      SoundCounts(hasher, state[..], ent[..], Tally(), shift, contents);
      ReserveRehash(Tally(), n);
      var need := MIN_CAP;
      while n > MaxFill(need)
        invariant MIN_CAP <= need <= MAX_CAP && ReserveCap(n, need) == ReserveCap(n, MIN_CAP)
        decreases MAX_CAP - need
      {
        need := need * 2;
      }
      if need > cap {
        Rehash(need);
      }
    }

    /** Visit every live entry, eight state bytes to a load.  `visited` is what the visitor
        is handed, in order. */
    method ForEach() returns (visited: seq<(K, V)>)
      requires Valid()
      ensures Enumerates(visited, contents)
    {
      hide Sound, TableCap, Enumerates, LiveEntries, HighBits;
      ghost var full, en := state[..], ent[..];
      SoundShape(hasher, full, en, Tally(), shift, contents);
      visited := [];
      EntriesStart(full, en);
      var i := 0;
      while i + 8 <= cap
        invariant 0 <= i <= cap && visited == LiveEntries(full, en, i)
      {
        var occupied := HighBits(state[..], i);
        EightBits(full, i);
        var b := NextLane(occupied, 0);
        DeadLanes(full, en, i, 0, b);
        while b < 8
          invariant b <= 8 && (b < 8 ==> occupied[b])
          invariant visited == LiveEntries(full, en, i + b)
        {
          var j := i + b;
          EightBits(full, i);
          visited := visited + [(ent[j].key, ent[j].val)];
          LiveEntry(full, en, j);
          ghost var from := b + 1;
          b := NextLane(occupied, b + 1);
          DeadLanes(full, en, i, from, b);
        }
        i := i + 8;
      }
      while i < cap
        invariant 0 <= i <= cap && visited == LiveEntries(full, en, i)
      {
        if state[i] >= FULL_MIN {
          visited := visited + [(ent[i].key, ent[i].val)];
        }
        LiveEntry(full, en, i);
        i := i + 1;
      }
      EntriesEnumerate(hasher, full, en, Tally(), shift, contents);
    }

    /** `stats`, hits: the group probes that reach the live key in slot i. */
    method HitProbes(i: nat) returns (probes: nat)
      requires Valid() && i < cap && state[i] >= FULL_MIN && ent[i].Entry?
      ensures probes == DepthOf(hasher, ent[i].key, cap, i) / GROUP + 1
    {
      hide HomeOf, Anchor, Masked, LegalCap, Findable, OneSlotPerKey, Represents, PathSlot, LiveSlots, TombSlots,
        ShiftOf, Distance, MaxFill;
      ghost var key := ent[i].key;
      ghost var home := HomeOf(hasher, key, cap);
      ghost var depth := DepthOf(hasher, key, cap, i);
      WalkStart(hasher, key, cap, shift);
      var offset, step := hasher.Home(ent[i].key, shift), 0;
      probes := 1;
      GroupHit(home, cap, 0, i);
      while Distance(offset, i, cap) >= GROUP
        invariant 1 <= probes <= depth / GROUP + 1 && step == GROUP * (probes - 1)
        invariant 0 <= offset < cap && offset == Anchor(home, cap, probes - 1)
        invariant Distance(offset, i, cap) < GROUP <==> depth / GROUP == probes - 1
        decreases depth / GROUP + 1 - probes
      {
        AnchorStep(home, cap, probes - 1);
        step := step + GROUP;
        offset := Masked(offset + step, cap);
        probes := probes + 1;
        GroupHit(home, cap, probes - 1, i);
      }
    }

    /** `stats`, misses: the group probes from a home slot until a group holds an EMPTY. */
    method MissProbes(home: nat) returns (probes: nat)
      requires Valid() && home < cap
      ensures 1 <= probes && GROUP * probes <= cap
      ensures forall q: nat :: q < GROUP * (probes - 1) ==> ProbeSlot(home, cap, q) !in EmptySlots(Tbl())
      ensures exists q: nat :: q < GROUP * probes && ProbeSlot(home, cap, q) in EmptySlots(Tbl())
    {
      hide Anchor, Masked, LegalCap, Findable, OneSlotPerKey, Represents, LiveSlots, TombSlots, ShiftOf, MaxFill,
        ProbeSlot, EmptySlots, EqualLanes;
      ghost var t, full := Tbl(), state[..];
      MaxFillBelow(cap);
      ghost var s := SomeEmpty(t);
      EmptySlotIs(t, s);
      var offset, step := home, 0;
      AnchorStart(home, cap);
      probes := 1;
      while true
        invariant 1 <= probes && step == GROUP * (probes - 1)
        invariant 0 <= offset < cap && offset == Anchor(home, cap, probes - 1)
        invariant forall q: nat :: q < GROUP * (probes - 1) ==> ProbeSlot(home, cap, q) !in EmptySlots(t)
        decreases cap - GROUP * probes
      {
        WalkBounded(home, cap, EmptySlots(t), s, probes - 1);
        LaneCount(full, offset, EMPTY);
        var b := NextLane(EqualLanes(state[..], offset, EMPTY), 0);
        GroupEmpties(t, full, home, probes - 1, offset, b);
        if b < GROUP {
          return;
        }
        AnchorStep(home, cap, probes - 1);
        step := step + GROUP;
        offset := Masked(offset + step, cap);
        probes := probes + 1;
      }
    }

    /** `_clear_and_free`. */
    method ClearAndFree()
      requires Valid()
      modifies this, state, ent
      ensures Valid() && contents == map[] && Tally() == Counts(0, 0, 0)
      ensures fresh(state) && fresh(ent)
    {
      hide Sound;
      Clear();
      state, ent := new int[0], new Slot<K, V>[0];
      cap := 0;
      NothingSound(hasher, state[..], ent[..], shift);
    }

    /** A new key into a table that has room and no tombstones. */
    method InsertNew(key: K, val: V)
      requires Valid() && key !in contents && tombs == 0 && size + 1 <= MaxFill(cap)
      modifies this, state, ent
      ensures Valid() && state == old(state) && ent == old(ent)
      ensures contents == old(contents)[key := val] && |contents| == |old(contents)| + 1
      ensures Tally() == Counts(old(cap), old(size) + 1, 0)
    {
      hide Sound, MaxFill, CanGrow, Enabled, Apply, IsInsert;
      ghost var before, c := contents, Tally();
      RoomToInsert(c);
      var created;
      ghost var op;
      created, op := Insert(key, val);
      FreshWithoutTombs(c, op);
      MapPlus(before, key, val);
    }

    /** Insert every live entry of another table's arrays. */
    method InsertLive(full: seq<int>, en: seq<Slot<K, V>>, ocap: nat, ghost oh: Hasher<K>, ghost c: Counts, ghost sh: nat, ghost m: map<K, V>)
      requires Valid() && Sound(oh, full, en, c, sh, m) && ocap == c.cap == |en| <= |full| && c.size == |m|
      requires contents == map[] && tombs == 0 && c.size <= MaxFill(cap)
      modifies this, state, ent
      ensures Valid() && state == old(state) && ent == old(ent)
      ensures contents == m && Tally() == Counts(old(cap), |m|, 0)
    {
      hide Sound, TableCap, MovedBelow, MaxFill, HashMap.Valid;
      ThisCounts();
      MovedStart(full, en, ocap, m);
      var i := 0;
      while i < ocap
        invariant 0 <= i <= ocap && Valid()
        invariant state == old(state) && ent == old(ent)
        invariant MovedBelow(full, en, ocap, m, contents, i)
        invariant Tally() == Counts(old(cap), |contents|, 0)
      {
        if full[i] >= FULL_MIN {
          MovedNext(oh, full, en, c, sh, m, contents, i);
          InsertNew(en[i].key, en[i].val);
        } else {
          MovedSkip(full, en, ocap, m, contents, i);
        }
        i := i + 1;
      }
      MovedAll(oh, full, en, c, sh, m, contents);
    }

    /** `_reinsert_from` into an empty map already sized for it: it never rebuilds. */
    method ReinsertFrom(o: HashMap<K, V>)
      requires Valid() && o.Valid() && o != this && {o.state as object, o.ent} !! {state as object, ent}
      requires contents == map[] && tombs == 0 && o.size <= MaxFill(cap)
      modifies this, state, ent
      ensures Valid() && state == old(state) && ent == old(ent)
      ensures contents == o.contents && Tally() == Counts(old(cap), o.size, 0)
    {
      hide Sound, TableCap, MaxFill, HashMap.Valid;
      OtherSound(o, o.state[..], o.ent[..], o.Tally(), o.shift, o.contents);
      InsertLive(o.state[..], o.ent[..], o.cap, o.hasher, o.Tally(), o.shift, o.contents);
    }

    lemma ThisCounts()
      requires Valid()
      ensures Fits(Tally()) && size == |contents|
    {
    }

    lemma OtherSound(o: HashMap<K, V>, full: seq<int>, en: seq<Slot<K, V>>, c: Counts, sh: nat, m: map<K, V>)
      requires o.Valid() && full == o.state[..] && en == o.ent[..] && c == o.Tally() && sh == o.shift && m == o.contents
      ensures Sound(o.hasher, full, en, c, sh, m)
      ensures c.size == |m| && c.cap == o.cap <= |full| && c.size == o.size && c.cap == |en|
    {
    }

    /** What copying does once the target is empty. */
    method FillFrom(o: HashMap<K, V>)
      requires Valid() && o.Valid() && o != this && {o.state as object, o.ent} !! {state as object, ent}
      requires contents == map[] && Tally() == Counts(0, 0, 0)
      modifies this, state, ent
      ensures Valid() && fresh(state) && fresh(ent)
      ensures contents == o.contents && Tally() == Counts(ReserveCap(o.size, MIN_CAP), o.size, 0)
    {
      hide Sound, TableCap, MaxFill, ReserveCap;
      SizeBounded(o.hasher, o.state[..], o.ent[..], o.Tally(), o.shift, o.contents);
      ReserveHolds(o.size);
      Reserve(o.size);
      ReinsertFrom(o);
    }

    /** The copy constructor. */
    constructor Copy(o: HashMap<K, V>)
      requires o.Valid()
      ensures Valid() && fresh(state) && fresh(ent) && contents == o.contents
      ensures Tally() == Counts(ReserveCap(o.size, MIN_CAP), o.size, 0)
    {
      hasher, homeProbeMinCap := o.hasher, o.homeProbeMinCap;
      state, ent := new int[0], new Slot<K, V>[0];
      cap, size, tombs, shift := 0, 0, 0, 0;
      contents := map[];
      new;
      hide Sound, PurgeLimit, ReserveCap;
      NothingSound(hasher, state[..], ent[..], shift);
      assert Tally() == Counts(0, 0, 0) && o.Valid();
      FillFrom(o);
    }

    /** Copy assignment. */
    method Assign(o: HashMap<K, V>)
      requires Valid() && o.Valid()
      requires o != this ==> {o.state as object, o.ent} !! {state as object, ent}
      modifies this, state, ent
      ensures Valid() && contents == old(o.contents)
      ensures Tally() == if this == o then old(Tally()) else Counts(ReserveCap(old(o.size), MIN_CAP), old(o.size), 0)
    {
      if this != o {
        ClearAndFree();
        FillFrom(o);
      }
    }
  }

  /** `operator==`: whatever the layouts and histories of the two maps. */
  method Equals<K(==), V(==)>(a: HashMap<K, V>, b: HashMap<K, V>) returns (same: bool)
    requires a.Valid() && b.Valid()
    ensures same <==> a.contents == b.contents
  {
    hide Sound, TableCap, MatchedBelow;
    ghost var full, en := a.state[..], a.ent[..];
    SoundShape(a.hasher, full, en, a.Tally(), a.shift, a.contents);
    SoundShape(b.hasher, b.state[..], b.ent[..], b.Tally(), b.shift, b.contents);
    if a.size != b.size {
      return false;
    }
    MatchedStart(full, en, b.contents);
    var i := 0;
    while i < a.cap
      invariant 0 <= i <= a.cap && MatchedBelow(full, en, b.contents, i)
    {
      if a.state[i] >= FULL_MIN {
        var v := b.Find(a.ent[i].key);
        LiveMeans(a.hasher, full, en, a.Tally(), a.shift, a.contents, i);
        if v.None? || v.value != a.ent[i].val {
          return false;
        }
      }
      MatchedNext(full, en, b.contents, i);
      i := i + 1;
    }
    MatchedAll(a.hasher, full, en, a.Tally(), a.shift, a.contents, b.contents);
    return true;
  }
}
