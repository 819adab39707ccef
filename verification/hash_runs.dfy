/** Whole runs of a hash map: any sequence of calls answers as the finite map it stands for would,
    whatever probing, tombstones, purges and growth happened on the way
    (mcp/hexport/src/kstl/hash_map.hpp). */
module HashRuns {
  import opened HashTable
  import opened HashCapacity
  import opened HashSound
  import opened HashWalks
  import opened HashMaps
  import opened Options

  /** The public calls.  `Assign` is `m[key] = val`: a value assigned through the reference that
      `operator[]` returns. */
  datatype Call<K, V> =
    | Insert(key: K, val: V)
    | Index(key: K, byDefault: V)
    | Assign(key: K, byDefault: V, val: V)
    | TryEmplace(key: K, val: V)
    | Erase(key: K)
    | Find(key: K)
    | Reserve(n: nat)
    | Clear
    | ClearAndFree

  datatype Answer<V> = Silent | Changed(yes: bool) | Value(val: V) | Looked(r: Option<V>)

  /** What a finite map becomes, and what it answers. */
  function After<K, V>(m: map<K, V>, call: Call<K, V>): map<K, V> {
    match call
    case Insert(k, v) => m[k := v]
    case Index(k, d) => if k in m then m else m[k := d]
    case Assign(k, _, v) => m[k := v]
    case TryEmplace(k, v) => if k in m then m else m[k := v]
    case Erase(k) => m - {k}
    case Find(_) => m
    case Reserve(_) => m
    case Clear => map[]
    case ClearAndFree => map[]
  }

  function Answered<K, V>(m: map<K, V>, call: Call<K, V>): Answer<V> {
    match call
    case Insert(k, _) => Changed(k !in m)
    case Index(k, d) => Value(if k in m then m[k] else d)
    case Assign(_, _, _) => Silent
    case TryEmplace(k, _) => Changed(k !in m)
    case Erase(k) => Changed(k in m)
    case Find(k) => Looked(if k in m then Some(m[k]) else None)
    case Reserve(_) => Silent
    case Clear => Silent
    case ClearAndFree => Silent
  }

  function Final<K, V>(m: map<K, V>, calls: seq<Call<K, V>>): map<K, V> {
    if calls == [] then m else After(Final(m, calls[..|calls| - 1]), calls[|calls| - 1])
  }

  function Answers<K, V>(m: map<K, V>, calls: seq<Call<K, V>>): seq<Answer<V>> {
    if calls == [] then []
    else
      var n := |calls| - 1;
      Answers(m, calls[..n]) + [Answered(Final(m, calls[..n]), calls[n])]
  }

  /** The calls that may add a key. */
  predicate Inserting<K, V>(call: Call<K, V>) {
    call.Insert? || call.Index? || call.Assign? || call.TryEmplace?
  }

  /** The call needs no capacity past the largest: past it the doublings wrap to nothing. */
  predicate Served<K, V>(c: Counts, call: Call<K, V>) {
    && (Inserting(call) ==> CanGrow(c))
    && (call.Reserve? ==> call.n <= MaxFill(MAX_CAP))
  }

  /** The call stays below the sizes where some history leaves it unserved. */
  predicate Admitted<K, V>(m: map<K, V>, call: Call<K, V>) {
    && (Inserting(call) ==> 32 * |m| < 25 * 0x8000_0000)
    && (call.Reserve? ==> call.n <= MaxFill(MAX_CAP))
  }

  // -----------------------------------------------------------------------
  // What a call does to the capacity machine
  // -----------------------------------------------------------------------

  /** A call that does not ask for a capacity. */
  predicate Steady<K, V>(call: Call<K, V>) {
    !call.Reserve? && !call.ClearAndFree?
  }

  /** The step a call takes: none when it changes no count. */
  predicate StepFits<K(==), V>(m: map<K, V>, call: Call<K, V>, step: Option<Op>) {
    if Inserting(call) then step.Some? && IsInsert(step.value) && (step.value.PresentInsert? <==> call.key in m)
    else if call.Erase? then step == if call.key in m then Some(HashCapacity.Erase) else None
    else if call.Clear? then step == Some(HashCapacity.Clear)
    else step == None
  }

  predicate Stepped(before: Counts, after: Counts, step: Option<Op>) {
    if step.Some? then Enabled(before, step.value) && after == HashCapacity.Apply(before, step.value) else after == before
  }

  function Ops(steps: seq<Option<Op>>): seq<Op> {
    if steps == [] then []
    else
      var n := |steps| - 1;
      Ops(steps[..n]) + if steps[n].Some? then [steps[n].value] else []
  }

  ghost predicate StepsFit<K, V>(m: map<K, V>, calls: seq<Call<K, V>>, steps: seq<Option<Op>>) {
    && |steps| == |calls|
    && forall i :: 0 <= i < |calls| ==> StepFits(Final(m, calls[..i]), calls[i], steps[i])
  }

  ghost predicate AllSteady<K, V>(calls: seq<Call<K, V>>) {
    forall i :: 0 <= i < |calls| ==> Steady(calls[i])
  }

  /** The counts moved as the steps say. */
  ghost predicate Moved(before: Counts, after: Counts, ops: seq<Op>) {
    Runs(before, ops) && after == HashCapacity.After(before, ops)
  }

  /** The steps can be taken, and no insert among them rebuilds the table. */
  ghost predicate Undisturbed(c: Counts, steps: seq<Option<Op>>) {
    Runs(c, Ops(steps)) && Quiet(c, Ops(steps))
  }

  lemma MovedStart(c: Counts)
    ensures Moved(c, c, Ops([]))
  {
  }

  lemma MovedOn(c: Counts, d: Counts, e: Counts, steps: seq<Option<Op>>, step: Option<Op>)
    requires Moved(c, d, Ops(steps)) && Stepped(d, e, step)
    ensures Moved(c, e, Ops(steps + [step]))
    ensures Undisturbed(c, steps + [step]) <==> Undisturbed(c, steps) && (step.Some? && IsInsert(step.value) ==> !Triggers(d))
  {
    assert (steps + [step])[..|steps|] == steps;
    if step.Some? {
      var op := step.value;
      OneStep(d, op);
      assert Ops(steps + [step]) == Ops(steps) + [op];
      hide Ops, Runs, Quiet, HashCapacity.After, HashCapacity.Apply, IsInsert, Triggers, Enabled;
      RunsConcat(c, Ops(steps), [op]);
      QuietConcat(c, Ops(steps), [op]);
    } else {
      assert Ops(steps) + [] == Ops(steps);
    }
  }

  // -----------------------------------------------------------------------
  // Calls and runs
  // -----------------------------------------------------------------------

  method PerformInsert<K(==), V>(h: HashMap<K, V>, call: Call<K, V>) returns (a: Answer<V>, ghost op: Op)
    requires h.Valid() && CanGrow(h.Tally()) && Inserting(call)
    modifies h, h.state, h.ent
    ensures h.Valid() && h.contents == After(old(h.contents), call)
    ensures a == Answered(old(h.contents), call)
    ensures if Triggers(old(h.Tally())) then fresh(h.state) && fresh(h.ent) else h.state == old(h.state) && h.ent == old(h.ent)
    ensures IsInsert(op) && (op.PresentInsert? <==> call.key in old(h.contents))
    ensures Enabled(old(h.Tally()), op) && h.Tally() == HashCapacity.Apply(old(h.Tally()), op)
  {
    hide Sound, HashMap.Valid, CanGrow, Triggers, Holds, Enabled, HashCapacity.Apply, IsInsert;
    if call.Insert? {
      var created;
      created, op := h.Insert(call.key, call.val);
      a := Changed(created);
    } else if call.Index? {
      var val, idx;
      val, idx, op := h.Index(call.key, call.byDefault);
      a := Value(val);
    } else if call.Assign? {
      var val, idx;
      val, idx, op := h.Index(call.key, call.byDefault);
      h.AssignThrough(idx, call.key, call.val);
      a := Silent;
    } else {
      var created;
      created, op := h.TryEmplace(call.key, call.val);
      a := Changed(created);
    }
  }

  /** The calls about storage. */
  method PerformStorage<K(==), V>(h: HashMap<K, V>, call: Call<K, V>)
    requires h.Valid() && (call.Reserve? ==> call.n <= MaxFill(MAX_CAP))
    requires call.Reserve? || call.Clear? || call.ClearAndFree?
    modifies h, h.state, h.ent
    ensures h.Valid() && h.contents == After(old(h.contents), call)
    ensures (h.state == old(h.state) || fresh(h.state)) && (h.ent == old(h.ent) || fresh(h.ent))
    ensures call.Clear? ==> h.state == old(h.state) && h.ent == old(h.ent)
    ensures call.Clear? ==> Stepped(old(h.Tally()), h.Tally(), Some(HashCapacity.Clear))
  {
    hide Sound, HashMap.Valid, MaxFill, HashCapacity.Reserve;
    match call {
      case Reserve(n) => h.Reserve(n);
      case Clear => h.Clear();
      case ClearAndFree => h.ClearAndFree();
    }
  }

  method PerformErase<K(==), V>(h: HashMap<K, V>, key: K) returns (erased: bool, ghost step: Option<Op>)
    requires h.Valid()
    modifies h, h.state, h.ent
    ensures h.Valid() && h.contents == old(h.contents) - {key} && (erased <==> key in old(h.contents))
    ensures h.state == old(h.state) && h.ent == old(h.ent)
    ensures step == (if erased then Some(HashCapacity.Erase) else None) && Stepped(old(h.Tally()), h.Tally(), step)
  {
    hide Sound, HashMap.Valid, Enabled, HashCapacity.Apply;
    erased := h.Erase(key);
    step := if erased then Some(HashCapacity.Erase) else None;
  }

  /** One call of any kind. */
  method Perform<K(==), V>(h: HashMap<K, V>, call: Call<K, V>) returns (a: Answer<V>, ghost step: Option<Op>)
    requires h.Valid() && Served(h.Tally(), call)
    modifies h, h.state, h.ent
    ensures h.Valid() && h.contents == After(old(h.contents), call)
    ensures a == Answered(old(h.contents), call)
    ensures (h.state == old(h.state) || fresh(h.state)) && (h.ent == old(h.ent) || fresh(h.ent))
    ensures Steady(call) ==> StepFits(old(h.contents), call, step) && Stepped(old(h.Tally()), h.Tally(), step)
    ensures Steady(call) ==> if Inserting(call) && Triggers(old(h.Tally())) then fresh(h.state) && fresh(h.ent)
                             else h.state == old(h.state) && h.ent == old(h.ent)
  {
    hide Sound, HashMap.Valid, HashMap.Tally, CanGrow, Triggers, Enabled, HashCapacity.Apply, IsInsert;
    a, step := Silent, None;
    if Inserting(call) {
      ghost var op;
      a, op := PerformInsert(h, call);
      step := Some(op);
    } else if call.Erase? {
      var erased;
      erased, step := PerformErase(h, call.key);
      a := Changed(erased);
    } else if call.Find? {
      var r := h.Find(call.key);
      a := Looked(r);
    } else {
      PerformStorage(h, call);
      step := if call.Clear? then Some(HashCapacity.Clear) else None;
    }
  }

  lemma AdmittedGrows<K, V>(hasher: Hasher<K>, full: seq<int>, en: seq<Slot<K, V>>, c: Counts, shift: nat, m: map<K, V>)
    requires Sound(hasher, full, en, c, shift, m)
    ensures forall call: Call<K, V> :: Admitted(m, call) ==> Served(c, call)
  {
    SizeBounded(hasher, full, en, c, shift, m);
    SizeLimitIsExact(c.size);
  }

  /** The steps of the first calls of a run, as far as it does not ask for a capacity. */
  ghost predicate Tracked<K, V>(m: map<K, V>, calls: seq<Call<K, V>>, c: Counts, d: Counts, steps: seq<Option<Op>>) {
    AllSteady(calls) ==> StepsFit(m, calls, steps) && Moved(c, d, Ops(steps))
  }

  lemma StepInserts<K, V>(m: map<K, V>, call: Call<K, V>, step: Option<Op>)
    requires Steady(call) && StepFits(m, call, step)
    ensures Inserting(call) <==> step.Some? && IsInsert(step.value)
  {
  }

  lemma TrackedOn<K, V>(m: map<K, V>, calls: seq<Call<K, V>>, i: nat, c: Counts, d: Counts, e: Counts, steps: seq<Option<Op>>, step: Option<Op>)
    requires i < |calls| && |steps| == i && Tracked(m, calls[..i], c, d, steps)
    requires Steady(calls[i]) ==> StepFits(Final(m, calls[..i]), calls[i], step) && Stepped(d, e, step)
    ensures Tracked(m, calls[..i + 1], c, e, steps + [step])
    ensures AllSteady(calls[..i + 1]) ==> AllSteady(calls[..i]) && Steady(calls[i])
    ensures AllSteady(calls[..i + 1]) ==>
              (Undisturbed(c, steps + [step]) <==> Undisturbed(c, steps) && (Inserting(calls[i]) ==> !Triggers(d)))
  {
    hide Final, Moved, Ops, Stepped, StepFits, Steady, Undisturbed, Triggers, Inserting, IsInsert;
    var now := calls[..i + 1];
    if AllSteady(now) {
      assert Steady(now[i]);
      assert AllSteady(calls[..i]) by {
        forall j | 0 <= j < i ensures Steady(calls[..i][j]) { assert Steady(now[j]); }
      }
      MovedOn(c, d, e, steps, step);
      StepInserts(Final(m, calls[..i]), calls[i], step);
      forall j | 0 <= j <= i
        ensures StepFits(Final(m, now[..j]), now[j], (steps + [step])[j])
      {
        assert now[..j] == calls[..j] && (j < i ==> calls[..i][..j] == calls[..j]);
      }
    }
  }

  /** Every run, from any map, up to the call that would need a capacity past the largest: each answer
      is the finite map's, and so is what is left.  While no call asks for a capacity the counts take
      the steps of the capacity machine, and the arrays are the old ones exactly when no insert of
      those steps rebuilds. */
  method Run<K(==), V>(h: HashMap<K, V>, calls: seq<Call<K, V>>)
    returns (answers: seq<Answer<V>>, done: nat, ghost steps: seq<Option<Op>>)
    requires h.Valid()
    modifies h, h.state, h.ent
    ensures done <= |calls| && (done < |calls| ==> !Served(h.Tally(), calls[done]))
    ensures (forall i :: 0 <= i < |calls| ==> Admitted(Final(old(h.contents), calls[..i]), calls[i])) ==> done == |calls|
    ensures h.Valid() && h.contents == Final(old(h.contents), calls[..done])
    ensures answers == Answers(old(h.contents), calls[..done])
    ensures Tracked(old(h.contents), calls[..done], old(h.Tally()), h.Tally(), steps)
    ensures (h.state == old(h.state) || fresh(h.state)) && (h.ent == old(h.ent) || fresh(h.ent))
    ensures AllSteady(calls[..done]) ==> if Undisturbed(old(h.Tally()), steps) then h.state == old(h.state) && h.ent == old(h.ent)
                                         else fresh(h.state) && fresh(h.ent)
  {
    hide Admitted, After, Answered, Stepped, StepFits, Sound, HashMap.Valid, HashMap.Tally, Moved, Ops, Steady, Tracked,
      Undisturbed, Triggers, CanGrow, Inserting, Served, AllSteady;
    ghost var m, c := h.contents, h.Tally();
    TrackedStart(m, c);
    answers, done, steps := [], 0, [];
    assert calls[..0] == [];
    while done < |calls|
      invariant 0 <= done <= |calls| == done + |calls[done..]| && |steps| == done
      invariant h.Valid() && h.contents == Final(m, calls[..done])
      invariant answers == Answers(m, calls[..done])
      invariant Tracked(m, calls[..done], c, h.Tally(), steps)
      invariant (h.state == old(h.state) || fresh(h.state)) && (h.ent == old(h.ent) || fresh(h.ent))
      invariant AllSteady(calls[..done]) ==> if Undisturbed(c, steps) then h.state == old(h.state) && h.ent == old(h.ent)
                                             else fresh(h.state) && fresh(h.ent)
    {
      HeldAdmits(h);
      TallyIs(h);
      if !Served(Counts(h.cap, h.size, h.tombs), calls[done]) {
        return;
      }
      RunStep(m, calls, done);
      ghost var before := h.Tally();
      ghost var step;
      var a;
      a, step := Perform(h, calls[done]);
      TrackedOn(m, calls, done, c, before, h.Tally(), steps, step);
      answers, steps := answers + [a], steps + [step];
      done := done + 1;
    }
  }

  lemma TallyIs<K, V>(h: HashMap<K, V>)
    ensures h.Tally() == Counts(h.cap, h.size, h.tombs)
  {
  }

  lemma HeldAdmits<K, V>(h: HashMap<K, V>)
    requires h.Valid()
    ensures forall call: Call<K, V> :: Admitted(h.contents, call) ==> Served(h.Tally(), call)
  {
    AdmittedGrows(h.hasher, h.state[..], h.ent[..], h.Tally(), h.shift, h.contents);
  }

  lemma TrackedStart<K, V>(m: map<K, V>, c: Counts)
    ensures Tracked(m, [], c, c, []) && Undisturbed(c, [])
  {
  }

  /** Churn, any run whose inserts all start with entries below 25/32 of the capacity, leaves the capacity
      alone, but for the smallest. */
  method RunChurn<K(==), V>(h: HashMap<K, V>, calls: seq<Call<K, V>>) returns (answers: seq<Answer<V>>)
    requires h.Valid() && h.cap != 16 && AllSteady(calls) && Churns(h.contents, calls, h.cap)
    modifies h, h.state, h.ent
    ensures h.Valid() && h.contents == Final(old(h.contents), calls)
    ensures answers == Answers(old(h.contents), calls)
    ensures h.cap == old(h.cap)
  {
    ghost var m, c := h.contents, h.Tally();
    SoundCounts(h.hasher, h.state[..], h.ent[..], c, h.shift, m);
    ChurnAdmitted(c, m, calls);
    hide Admitted, After, Answered, Sound, HashMap.Valid, Moved, Ops, Steady, Churns, StepFits;
    ghost var steps;
    var done;
    answers, done, steps := Run(h, calls);
    assert calls[..done] == calls;
    ChurnedCap(c, h.Tally(), m, calls, steps);
  }

  lemma ChurnAdmitted<K, V>(c: Counts, m: map<K, V>, calls: seq<Call<K, V>>)
    requires Fits(c) && AllSteady(calls) && Churns(m, calls, c.cap)
    ensures forall i :: 0 <= i < |calls| ==> Admitted(Final(m, calls[..i]), calls[i])
  {
    assert c.cap <= 0x8000_0000;
    forall i | 0 <= i < |calls|
      ensures Admitted(Final(m, calls[..i]), calls[i])
    {
      assert Steady(calls[i]);
    }
  }

  lemma RunStep<K, V>(m: map<K, V>, calls: seq<Call<K, V>>, i: nat)
    requires i < |calls|
    ensures Final(m, calls[..i + 1]) == After(Final(m, calls[..i]), calls[i])
    ensures Answers(m, calls[..i + 1]) == Answers(m, calls[..i]) + [Answered(Final(m, calls[..i]), calls[i])]
  {
    assert calls[..i + 1][..i] == calls[..i];
  }

  /** The last call that touches a key decides it: after any run a key holds what the last insert gave
      it, and nothing after the last erase. */
  lemma {:induction false} LastWordOnKey<K, V>(m: map<K, V>, calls: seq<Call<K, V>>, i: nat, k: K)
    requires i < |calls|
    requires forall j :: i < j < |calls| ==> !Touches(calls[j], k)
    requires calls[i].Insert? || calls[i].Assign? || calls[i].Erase?
    requires calls[i].key == k
    ensures if !calls[i].Erase? then k in Final(m, calls) && Final(m, calls)[k] == calls[i].val else k !in Final(m, calls)
    decreases |calls|
  {
    var n := |calls| - 1;
    if i < n {
      assert !Touches(calls[n], k);
      LastWordOnKey(m, calls[..n], i, k);
    }
  }

  /** May change what is stored under k. */
  predicate Touches<K(==), V>(call: Call<K, V>, k: K) {
    match call
    case Find(_) => false
    case Reserve(_) => false
    case Clear => true
    case ClearAndFree => true
    case _ => call.key == k
  }

  // -----------------------------------------------------------------------
  // Capacity over runs
  // -----------------------------------------------------------------------

  /** Every call that may add a key starts with entries below 25/32 of the capacity. */
  ghost predicate Churns<K, V>(m: map<K, V>, calls: seq<Call<K, V>>, cap: nat) {
    forall i :: 0 <= i < |calls| && Inserting(calls[i]) ==> 32 * |Final(m, calls[..i])| < 25 * cap
  }

  lemma PrefixFits<K, V>(m: map<K, V>, calls: seq<Call<K, V>>, steps: seq<Option<Op>>)
    requires calls != [] && StepsFit(m, calls, steps)
    ensures StepsFit(m, calls[..|calls| - 1], steps[..|calls| - 1])
    ensures forall cap :: Churns(m, calls, cap) ==> Churns(m, calls[..|calls| - 1], cap)
  {
    var n := |calls| - 1;
    forall i | 0 <= i < n
      ensures calls[..n][..i] == calls[..i]
    {
    }
  }

  /** The last step of a run on its own. */
  lemma LastStep(c: Counts, steps: seq<Option<Op>>)
    requires steps != [] && Runs(c, Ops(steps))
    ensures var ops, step := Ops(steps[..|steps| - 1]), steps[|steps| - 1];
      && Runs(c, ops) && Stepped(HashCapacity.After(c, ops), HashCapacity.After(c, Ops(steps)), step)
  {
    var ops, step := Ops(steps[..|steps| - 1]), steps[|steps| - 1];
    var more := if step.Some? then [step.value] else [];
    assert Ops(steps) == ops + more;
    RunsPrefix(c, ops, more);
    RunsConcat(c, ops, more);
    if step.Some? {
      OneStep(HashCapacity.After(c, ops), step.value);
    }
  }

  /** The count of entries follows the map. */
  lemma StepSize<K, V>(c: Counts, m: map<K, V>, call: Call<K, V>, step: Option<Op>)
    requires c.size == |m| && StepFits(m, call, step) && Steady(call)
    requires step.Some? ==> Enabled(c, step.value)
    ensures (if step.Some? then HashCapacity.Apply(c, step.value).size else c.size) == |After(m, call)|
  {
    match call {
      case Erase(k) => if k in m { MapMinus(m, k); } else { assert m - {k} == m; }
      case Insert(k, v) => MapPlus(m, k, v);
      case Index(k, d) => MapPlus(m, k, d);
      case Assign(k, _, v) => MapPlus(m, k, v);
      case TryEmplace(k, v) => MapPlus(m, k, v);
      case _ =>
    }
  }

  lemma {:induction false} SizeFollows<K, V>(c: Counts, m: map<K, V>, calls: seq<Call<K, V>>, steps: seq<Option<Op>>)
    requires c.size == |m| && AllSteady(calls) && StepsFit(m, calls, steps) && Runs(c, Ops(steps))
    ensures HashCapacity.After(c, Ops(steps)).size == |Final(m, calls)|
    decreases |calls|
  {
    hide Ops, Runs, HashCapacity.After, Enabled, HashCapacity.Apply, StepFits;
    if calls == [] {
      NoSteps(c);
    } else {
      var n := |calls| - 1;
      PrefixFits(m, calls, steps);
      LastStep(c, steps);
      SizeFollows(c, m, calls[..n], steps[..n]);
      StepSize(HashCapacity.After(c, Ops(steps[..n])), Final(m, calls[..n]), calls[n], steps[n]);
    }
  }

  lemma NoSteps(c: Counts)
    ensures Runs(c, Ops([])) && HashCapacity.After(c, Ops([])) == c && Churning(c, Ops([]))
  {
  }

  lemma ChurningMore(c: Counts, steps: seq<Option<Op>>)
    requires steps != [] && Runs(c, Ops(steps)) && Runs(c, Ops(steps[..|steps| - 1])) && Churning(c, Ops(steps[..|steps| - 1]))
    requires var d, step := HashCapacity.After(c, Ops(steps[..|steps| - 1])), steps[|steps| - 1];
      step.Some? && IsInsert(step.value) ==> 32 * d.size < 25 * d.cap
    ensures Churning(c, Ops(steps))
  {
    var ops, step := Ops(steps[..|steps| - 1]), steps[|steps| - 1];
    hide IsInsert, Enabled, HashCapacity.Apply;
    if step.Some? {
      assert Ops(steps) == ops + [step.value];
      hide Ops;
      ChurningConcat(c, ops, [step.value]);
      OneStep(HashCapacity.After(c, ops), step.value);
    } else {
      assert Ops(steps) == ops;
    }
  }

  /** An insert step of a churning run starts below the limit. */
  lemma ChurnStep<K, V>(m: map<K, V>, calls: seq<Call<K, V>>, steps: seq<Option<Op>>, cap: nat)
    requires calls != [] && AllSteady(calls) && StepsFit(m, calls, steps) && Churns(m, calls, cap)
    ensures var n := |calls| - 1;
      steps[n].Some? && IsInsert(steps[n].value) ==> 32 * |Final(m, calls[..n])| < 25 * cap
  {
    var n := |calls| - 1;
    hide Final;
    assert StepFits(Final(m, calls[..n]), calls[n], steps[n]);
  }

  lemma {:induction false} RunChurning<K, V>(c: Counts, m: map<K, V>, calls: seq<Call<K, V>>, steps: seq<Option<Op>>)
    requires c.size == |m| && AllSteady(calls) && StepsFit(m, calls, steps) && Runs(c, Ops(steps))
    requires Fits(c) && c.cap != 16 && Churns(m, calls, c.cap)
    ensures Churning(c, Ops(steps))
    decreases |calls|
  {
    hide Runs, HashCapacity.After, Enabled, HashCapacity.Apply, Churning, IsInsert, Ops, StepFits, Final;
    if calls == [] {
      NoSteps(c);
    } else {
      var n := |calls| - 1;
      PrefixFits(m, calls, steps);
      LastStep(c, steps);
      ChurnStep(m, calls, steps, c.cap);
      SizeFollows(c, m, calls[..n], steps[..n]);
      RunChurning(c, m, calls[..n], steps[..n]);
      ChurnKeepsCapacity(c, Ops(steps[..n]));
      ChurningMore(c, steps);
    }
  }

  /** So churn over a map never changes its capacity. */
  lemma ChurnedCap<K, V>(c: Counts, d: Counts, m: map<K, V>, calls: seq<Call<K, V>>, steps: seq<Option<Op>>)
    requires c.size == |m| && AllSteady(calls) && StepsFit(m, calls, steps) && Moved(c, d, Ops(steps))
    requires Fits(c) && c.cap != 16 && Churns(m, calls, c.cap)
    ensures d.cap == c.cap
  {
    RunChurning(c, m, calls, steps);
    ChurnKeepsCapacity(c, Ops(steps));
  }

  /** How many calls bring a key in. */
  ghost function Added<K, V>(m: map<K, V>, calls: seq<Call<K, V>>): nat {
    if calls == [] then 0
    else
      var n := |calls| - 1;
      Added(m, calls[..n]) + if Inserting(calls[n]) && calls[n].key !in Final(m, calls[..n]) then 1 else 0
  }

  lemma {:induction false} FreshConcat(ops: seq<Op>, more: seq<Op>)
    ensures FreshInserts(ops + more) == FreshInserts(ops) + FreshInserts(more)
    decreases |ops|
  {
    if ops == [] {
      assert ops + more == more;
    } else {
      assert (ops + more)[1..] == ops[1..] + more;
      FreshConcat(ops[1..], more);
    }
  }

  lemma {:induction false} FreshAreAdded<K, V>(m: map<K, V>, calls: seq<Call<K, V>>, steps: seq<Option<Op>>)
    requires StepsFit(m, calls, steps)
    ensures FreshInserts(Ops(steps)) <= Added(m, calls)
    decreases |calls|
  {
    if calls != [] {
      var n := |calls| - 1;
      PrefixFits(m, calls, steps);
      FreshAreAdded(m, calls[..n], steps[..n]);
      FreshConcat(Ops(steps[..n]), if steps[n].Some? then [steps[n].value] else []);
    }
  }

  lemma RebuildSpacing<K, V>(c: Counts, first: Op, d: Counts, m: map<K, V>, calls: seq<Call<K, V>>, steps: seq<Option<Op>>)
    requires Fits(c) && CanGrow(c) && IsInsert(first) && Triggers(c) && Enabled(c, first)
    requires StepsFit(m, calls, steps) && Undisturbed(HashCapacity.Apply(c, first), steps)
    requires Moved(HashCapacity.Apply(c, first), d, Ops(steps)) && Triggers(d)
    ensures Added(m, calls) >= FreshInserts(Ops(steps)) && 32 * FreshInserts(Ops(steps)) >= 3 * HashCapacity.Apply(c, first).cap
  {
    RebuildsAreSpaced(c, first, Ops(steps));
    FreshAreAdded(m, calls, steps);
  }

  /** From a call that rebuilds the table at capacity n to the next that has to, at least 3n/32 keys
      are brought in, and as many never-used slots taken.  `c` is what the first call leaves. */
  method RunBetweenRebuilds<K(==), V>(h: HashMap<K, V>, first: Call<K, V>, calls: seq<Call<K, V>>)
    returns (answers: seq<Answer<V>>, done: nat, ghost c: Counts, ghost steps: seq<Option<Op>>)
    requires h.Valid() && Inserting(first) && CanGrow(h.Tally()) && Triggers(h.Tally()) && AllSteady(calls)
    modifies h, h.state, h.ent
    ensures done <= |calls| && (done < |calls| ==> !Served(h.Tally(), calls[done]))
    ensures h.Valid() && h.contents == Final(After(old(h.contents), first), calls[..done])
    ensures answers == [Answered(old(h.contents), first)] + Answers(After(old(h.contents), first), calls[..done])
    ensures c.cap == RoomCap(old(h.Tally())) && c.size == |After(old(h.contents), first)|
    ensures StepsFit(After(old(h.contents), first), calls[..done], steps) && Moved(c, h.Tally(), Ops(steps))
    ensures Undisturbed(c, steps) && Triggers(h.Tally()) ==>
              && Added(After(old(h.contents), first), calls[..done]) >= FreshInserts(Ops(steps))
              && 32 * FreshInserts(Ops(steps)) >= 3 * c.cap
  {
    hide Sound, HashMap.Valid, HashMap.Tally, After, Answered, Ops, Undisturbed, Served, Triggers, CanGrow, Enabled, IsInsert,
      HashCapacity.Apply, Admitted, Inserting, AllSteady, Quiet, Runs, HashCapacity.After, FreshInserts, Fits, Stepped;
    ghost var c0 := h.Tally();
    h.ThisCounts();
    var a;
    ghost var op;
    a, op := PerformInsert(h, first);
    c := h.Tally();
    h.ThisCounts();
    TallyIs(h);
    RebuiltCap(c0, op);
    ghost var m := h.contents;
    answers, done, steps := Run(h, calls);
    answers := [a] + answers;
    SteadyPrefix(calls, done);
    if Undisturbed(c, steps) && Triggers(h.Tally()) {
      RebuildSpacing(c0, op, h.Tally(), m, calls[..done], steps);
    }
  }

  lemma RebuiltCap(c: Counts, op: Op)
    requires IsInsert(op) && Triggers(c) && Enabled(c, op)
    ensures HashCapacity.Apply(c, op).cap == RoomCap(c)
  {
  }

  lemma SteadyPrefix<K, V>(calls: seq<Call<K, V>>, n: nat)
    requires AllSteady(calls) && n <= |calls|
    ensures AllSteady(calls[..n])
  {
  }
}
