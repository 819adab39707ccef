/** Repairing functions the decompiler gives up on, by trying prototypes on whatever the failing call
    may reach (mcp/hexport/src/mcp_commands.cpp, lines 1388-1428 and 1513-1665). The database is a map
    from addresses to types; the decompiler is a function of a function's address and that map. */
module Repairs {
  import opened Options
  import opened Selections

  type Address = nat

  /** What the decompiler says: text, or an error code with the address where it gave up. */
  datatype Verdict = Fine | Failed(code: int, at: Address)

  const MERR_BADCALL := -12

  type Types<T> = map<Address, T>

  /** Everything the repair asks of the outside. */
  datatype Tools<!T> = Tools(
    decompile: (Address, Types<T>) -> Verdict,
    direct: (Address, Address) -> seq<Address>,
    indirect: (Address, Address) -> seq<Address>,
    parse: string -> Option<T>,
    applies: (Address, T) -> bool)

  /** A recorded success: which function, and the prototype given to which address. */
  datatype Fix<T> = Fix(function_: Address, culprit: Address, indirect: bool, proto: string, tif: T, failedAt: Address)

  datatype Report<T> =
    | NoDatabase
    | Found(functions: seq<Address>)
    | Repaired(found: nat, recovered: int, stillFailing: int, fixes: seq<Fix<T>>, unfixed: seq<Address>)

  const BADCALL_PROTOS: seq<string> := [
    "__int64 __fastcall f(__int64)",
    "__int64 __fastcall f(__int64, __int64)",
    "__int64 __fastcall f(__int64, __int64, __int64)"]

  const BADCALL_PTR_PROTOS: seq<string> := [
    "__int64 (__fastcall *f)(int, ...)",
    "__int64 (__fastcall *f)(__int64, ...)"]

  // -----------------------------------------------------------------------
  // Trials
  // -----------------------------------------------------------------------

  predicate Decompiles<T(!new)>(tools: Tools<T>, f: Address, types: Types<T>) {
    tools.decompile(f, types).Fine?
  }

  predicate BadCall<T(!new)>(tools: Tools<T>, f: Address, types: Types<T>) {
    var v := tools.decompile(f, types);
    v.Failed? && v.code == MERR_BADCALL
  }

  /** The prototype can be parsed and applied there, and then the function decompiles. */
  predicate Works<T(!new)>(tools: Tools<T>, f: Address, types: Types<T>, c: Address, proto: string) {
    var t := tools.parse(proto);
    t.Some? && tools.applies(c, t.value) && Decompiles(tools, f, types[c := t.value])
  }

  /** The first prototype from the k-th on that works for one candidate. */
  function FirstProto<T(!new)>(tools: Tools<T>, f: Address, types: Types<T>, c: Address, protos: seq<string>, k: nat): (r: Option<nat>)
    requires k <= |protos|
    ensures r.Some? ==> k <= r.value < |protos| && Works(tools, f, types, c, protos[r.value])
    ensures forall j :: k <= j < (if r.Some? then r.value else |protos|) ==> !Works(tools, f, types, c, protos[j])
    decreases |protos| - k
  {
    if k == |protos| then None
    else if Works(tools, f, types, c, protos[k]) then Some(k)
    else FirstProto(tools, f, types, c, protos, k + 1)
  }

  /** The first candidate from the i-th on that some prototype works for, with that prototype. */
  function FirstPair<T(!new)>(tools: Tools<T>, f: Address, types: Types<T>, cands: seq<Address>, protos: seq<string>, i: nat): (r: Option<(nat, nat)>)
    requires i <= |cands|
    ensures r.Some? ==> i <= r.value.0 < |cands| && FirstProto(tools, f, types, cands[r.value.0], protos, 0) == Some(r.value.1)
    ensures forall j :: i <= j < (if r.Some? then r.value.0 else |cands|) ==> FirstProto(tools, f, types, cands[j], protos, 0).None?
    decreases |cands| - i
  {
    if i == |cands| then None
    else
      var k := FirstProto(tools, f, types, cands[i], protos, 0);
      if k.Some? then Some((i, k.value)) else FirstPair(tools, f, types, cands, protos, i + 1)
  }

  function Candidates<T(!new)>(tools: Tools<T>, f: Address, at: Address, indirect: bool): seq<Address> {
    if indirect then tools.indirect(f, at) else tools.direct(f, at)
  }

  function Protos(indirect: bool): seq<string> {
    if indirect then BADCALL_PTR_PROTOS else BADCALL_PROTOS
  }

  function PhaseFix<T(!new)>(tools: Tools<T>, f: Address, at: Address, types: Types<T>, indirect: bool): seq<Fix<T>> {
    var cands, protos := Candidates(tools, f, at, indirect), Protos(indirect);
    var pair := FirstPair(tools, f, types, cands, protos, 0);
    if pair.None? then []
    else
      var (i, k) := pair.value;
      [Fix(f, cands[i], indirect, protos[k], tools.parse(protos[k]).value, at)]
  }

  /** The fix for one function: none if it decompiles already, the first trial that works if one
      does, indirect calls first. */
  function FixFor<T(!new)>(tools: Tools<T>, f: Address, at: Address, types: Types<T>): seq<Fix<T>> {
    if Decompiles(tools, f, types) then []
    else
      var first := PhaseFix(tools, f, at, types, true);
      if first != [] then first else PhaseFix(tools, f, at, types, false)
  }

  function AfterFixes<T(!new)>(types: Types<T>, fixes: seq<Fix<T>>): Types<T> {
    if fixes == [] then types
    else
      var last := fixes[|fixes| - 1];
      AfterFixes(types, fixes[..|fixes| - 1])[last.culprit := last.tif]
  }

  /** The fixes of a whole run over the failing functions and the places they failed at. */
  function FixesFor<T(!new)>(tools: Tools<T>, types: Types<T>, failing: seq<Address>, ats: seq<Address>): seq<Fix<T>>
    requires |failing| == |ats|
  {
    if failing == [] then []
    else
      var n := |failing| - 1;
      var before := FixesFor(tools, types, failing[..n], ats[..n]);
      before + FixFor(tools, failing[n], ats[n], AfterFixes(types, before))
  }

  // -----------------------------------------------------------------------
  // What a run of fixes is worth
  // -----------------------------------------------------------------------

  /** The i-th fix is the last one to blame the address. */
  predicate LastToBlame<T>(fixes: seq<Fix<T>>, c: Address, i: nat) {
    i < |fixes| && fixes[i].culprit == c && forall j :: i < j < |fixes| ==> fixes[j].culprit != c
  }

  /** A type differs after a run only where a fix names the address as its culprit. */
  lemma {:induction false} OnlyCulpritsChange<T(!new)>(types: Types<T>, fixes: seq<Fix<T>>, c: Address)
    requires forall i :: 0 <= i < |fixes| ==> fixes[i].culprit != c
    ensures (c in AfterFixes(types, fixes)) == (c in types)
    ensures c in types ==> AfterFixes(types, fixes)[c] == types[c]
  {
    if fixes != [] {
      OnlyCulpritsChange(types, fixes[..|fixes| - 1], c);
    }
  }

  /** Where one does, the type is that of the last such fix. */
  lemma {:induction false} LastFixStands<T(!new)>(types: Types<T>, fixes: seq<Fix<T>>, c: Address, i: nat)
    requires LastToBlame(fixes, c, i)
    ensures c in AfterFixes(types, fixes) && AfterFixes(types, fixes)[c] == fixes[i].tif
  {
    var n := |fixes| - 1;
    if i < n {
      assert LastToBlame(fixes[..n], c, i);
      LastFixStands(types, fixes[..n], c, i);
    }
  }

  /** Giving c the prototype would cure f: it can be parsed and applied there, and then f decompiles. */
  predicate Cures<T(!new)>(tools: Tools<T>, f: Address, types: Types<T>, c: Address, proto: string) {
    && tools.parse(proto).Some? && tools.applies(c, tools.parse(proto).value)
    && tools.decompile(f, types[c := tools.parse(proto).value]) == Fine
  }

  /** Some address the failing call may reach through a pointer cures f with a pointer prototype. */
  ghost predicate IndirectCure<T(!new)>(tools: Tools<T>, f: Address, at: Address, types: Types<T>) {
    exists c, proto :: c in tools.indirect(f, at) && proto in BADCALL_PTR_PROTOS && Cures(tools, f, types, c, proto)
  }

  /** Some address it may call directly cures f with a function prototype. */
  ghost predicate DirectCure<T(!new)>(tools: Tools<T>, f: Address, at: Address, types: Types<T>) {
    exists c, proto :: c in tools.direct(f, at) && proto in BADCALL_PROTOS && Cures(tools, f, types, c, proto)
  }

  /** A fix that was needed and that helped, measured where it was made, and the first that does: with
      no earlier address, and none of the earlier prototypes at its own. */
  ghost predicate Earned<T(!new)>(tools: Tools<T>, types: Types<T>, fix: Fix<T>) {
    && tools.decompile(fix.function_, types) != Fine
    && tools.parse(fix.proto) == Some(fix.tif)
    && if fix.indirect then FirstCure(tools, types, fix, tools.indirect(fix.function_, fix.failedAt), BADCALL_PTR_PROTOS)
       else FirstCure(tools, types, fix, tools.direct(fix.function_, fix.failedAt), BADCALL_PROTOS)
  }

  ghost predicate FirstCure<T(!new)>(tools: Tools<T>, types: Types<T>, fix: Fix<T>, cands: seq<Address>, protos: seq<string>) {
    exists i: nat, k: nat :: CureAt(tools, types, fix, cands, protos, i, k)
  }

  /** The fix is the k-th prototype for the i-th address, and nothing tried before it cures. */
  ghost predicate CureAt<T(!new)>(tools: Tools<T>, types: Types<T>, fix: Fix<T>, cands: seq<Address>, protos: seq<string>, i: nat, k: nat) {
    && i < |cands| && k < |protos| && fix.culprit == cands[i] && fix.proto == protos[k]
    && Cures(tools, fix.function_, types, cands[i], protos[k])
    && (forall j :: 0 <= j < k ==> !Cures(tools, fix.function_, types, cands[i], protos[j]))
    && (forall h, j :: 0 <= h < i && 0 <= j < |protos| ==> !Cures(tools, fix.function_, types, cands[h], protos[j]))
  }

  lemma EarnedHelps<T(!new)>(tools: Tools<T>, types: Types<T>, fix: Fix<T>)
    requires Earned(tools, types, fix)
    ensures tools.decompile(fix.function_, types[fix.culprit := fix.tif]) == Fine
  {
    if fix.indirect {
      var i, k :| CureAt(tools, types, fix, tools.indirect(fix.function_, fix.failedAt), BADCALL_PTR_PROTOS, i, k);
    } else {
      var i, k :| CureAt(tools, types, fix, tools.direct(fix.function_, fix.failedAt), BADCALL_PROTOS, i, k);
    }
  }

  lemma WorksCures<T(!new)>(tools: Tools<T>, f: Address, types: Types<T>, c: Address, proto: string)
    ensures Works(tools, f, types, c, proto) <==> Cures(tools, f, types, c, proto)
  {
  }

  lemma PhaseIsComplete<T(!new)>(tools: Tools<T>, f: Address, at: Address, types: Types<T>, indirect: bool)
    requires tools.decompile(f, types) != Fine
    ensures var fix := PhaseFix(tools, f, at, types, indirect);
      && |fix| <= 1
      && (fix == [] <==> !(if indirect then IndirectCure(tools, f, at, types) else DirectCure(tools, f, at, types)))
      && (fix != [] ==> fix[0].function_ == f && fix[0].failedAt == at && fix[0].indirect == indirect && Earned(tools, types, fix[0]))
  {
    var cands, protos := Candidates(tools, f, at, indirect), Protos(indirect);
    var pair := FirstPair(tools, f, types, cands, protos, 0);
    NoneBefore(tools, f, types, cands, protos);
    if pair.Some? {
      var (i, k) := pair.value;
      WorksCures(tools, f, types, cands[i], protos[k]);
      var fix := Fix(f, cands[i], indirect, protos[k], tools.parse(protos[k]).value, at);
      assert PhaseFix(tools, f, at, types, indirect) == [fix] && tools.parse(fix.proto) == Some(fix.tif);
      assert if indirect then cands == tools.indirect(f, at) && protos == BADCALL_PTR_PROTOS
             else cands == tools.direct(f, at) && protos == BADCALL_PROTOS;
      assert CureAt(tools, types, fix, cands, protos, i, k);
      assert FirstCure(tools, types, fix, cands, protos);
      hide FirstCure;
      assert Earned(tools, types, fix);
    }
  }

  /** What the search order says of the trials that came before. */
  lemma NoneBefore<T(!new)>(tools: Tools<T>, f: Address, types: Types<T>, cands: seq<Address>, protos: seq<string>)
    ensures var pair := FirstPair(tools, f, types, cands, protos, 0);
      && (forall h, j :: 0 <= h < (if pair.Some? then pair.value.0 else |cands|) && 0 <= j < |protos| ==>
            !Cures(tools, f, types, cands[h], protos[j]))
      && (pair.Some? ==> forall j :: 0 <= j < pair.value.1 ==> !Cures(tools, f, types, cands[pair.value.0], protos[j]))
  {
    hide Works, Cures, FirstProto, FirstPair;
    var pair := FirstPair(tools, f, types, cands, protos, 0);
    forall h, j | 0 <= h < (if pair.Some? then pair.value.0 else |cands|) && 0 <= j < |protos|
      ensures !Cures(tools, f, types, cands[h], protos[j])
    {
      assert FirstProto(tools, f, types, cands[h], protos, 0).None?;
      WorksCures(tools, f, types, cands[h], protos[j]);
    }
    if pair.Some? {
      forall j | 0 <= j < pair.value.1
        ensures !Cures(tools, f, types, cands[pair.value.0], protos[j])
      {
        WorksCures(tools, f, types, cands[pair.value.0], protos[j]);
      }
    }
  }

  /** A function is given up on only when it fails and no address the call may reach, of either kind,
      cures it with a prototype of that kind; a fix is always earned; and a direct call is blamed only
      when no indirect one can be. */
  lemma FixForIsComplete<T(!new)>(tools: Tools<T>, f: Address, at: Address, types: Types<T>)
    ensures var fix := FixFor(tools, f, at, types);
      && |fix| <= 1
      && (fix == [] <==> tools.decompile(f, types) == Fine
                         || (!IndirectCure(tools, f, at, types) && !DirectCure(tools, f, at, types)))
      && (fix != [] ==> fix[0].function_ == f && fix[0].failedAt == at && Earned(tools, types, fix[0]))
      && (fix != [] && !fix[0].indirect ==> !IndirectCure(tools, f, at, types))
  {
    hide Earned, IndirectCure, DirectCure, PhaseFix;
    if tools.decompile(f, types) != Fine {
      PhaseIsComplete(tools, f, at, types, true);
      PhaseIsComplete(tools, f, at, types, false);
    }
  }

  /** Every fix of a run was needed and helped at the moment it was made. */
  lemma {:induction false} EveryFixEarned<T(!new)>(tools: Tools<T>, types: Types<T>, failing: seq<Address>, ats: seq<Address>, i: nat)
    requires |failing| == |ats|
    requires i < |FixesFor(tools, types, failing, ats)|
    ensures var fixes := FixesFor(tools, types, failing, ats);
      Earned(tools, AfterFixes(types, fixes[..i]), fixes[i])
    decreases |failing|
  {
    hide Earned, FixFor;
    var n := |failing| - 1;
    var before := FixesFor(tools, types, failing[..n], ats[..n]);
    var now := AfterFixes(types, before);
    var fix := FixFor(tools, failing[n], ats[n], now);
    FixForIsComplete(tools, failing[n], ats[n], now);
    if i < |before| {
      EveryFixEarned(tools, types, failing[..n], ats[..n], i);
      assert (before + fix)[..i] == before[..i];
    } else {
      assert (before + fix)[..i] == before;
    }
  }

  /** A function that is still unfixed after its turn had every trial of both kinds fail. */
  lemma {:induction false} TurnOf<T(!new)>(tools: Tools<T>, types: Types<T>, failing: seq<Address>, ats: seq<Address>, i: nat)
    requires |failing| == |ats| && i < |failing|
    ensures var before := FixesFor(tools, types, failing[..i], ats[..i]);
      var now := AfterFixes(types, before);
      var after := FixesFor(tools, types, failing[..i + 1], ats[..i + 1]);
      && before <= after
      && (Decompiles(tools, failing[i], AfterFixes(types, after))
          <==> Decompiles(tools, failing[i], now)
               || IndirectCure(tools, failing[i], ats[i], now)
               || DirectCure(tools, failing[i], ats[i], now))
  {
    hide IndirectCure, DirectCure, FixFor, Earned;
    assert failing[..i + 1][..i] == failing[..i] && ats[..i + 1][..i] == ats[..i];
    var before := FixesFor(tools, types, failing[..i], ats[..i]);
    var now := AfterFixes(types, before);
    var fix := FixFor(tools, failing[i], ats[i], now);
    FixForIsComplete(tools, failing[i], ats[i], now);
    if fix == [] {
      assert before + fix == before;
    } else {
      assert (before + fix)[..|before|] == before;
      EarnedHelps(tools, now, fix[0]);
    }
  }

  // -----------------------------------------------------------------------
  // Counting
  // -----------------------------------------------------------------------

  function Failing<T(!new)>(tools: Tools<T>, types: Types<T>, scan: seq<Address>): (r: seq<Address>)
    ensures forall f :: f in r <==> f in scan && BadCall(tools, f, types)
  {
    if scan == [] then []
    else
      var n := |scan| - 1;
      Failing(tools, types, scan[..n]) + if BadCall(tools, scan[n], types) then [scan[n]] else []
  }

  function Places<T(!new)>(tools: Tools<T>, types: Types<T>, failing: seq<Address>): (r: seq<Address>)
    requires forall f :: f in failing ==> BadCall(tools, f, types)
    ensures |r| == |failing|
    ensures forall i :: 0 <= i < |r| ==> tools.decompile(failing[i], types) == Failed(MERR_BADCALL, r[i])
  {
    if failing == [] then []
    else
      var n := |failing| - 1;
      assert BadCall(tools, failing[n], types);
      Places(tools, types, failing[..n]) + [tools.decompile(failing[n], types).at]
  }

  function Unfixed<T(!new)>(tools: Tools<T>, types: Types<T>, failing: seq<Address>): (r: seq<Address>)
    ensures |r| <= |failing|
    ensures forall f :: f in r <==> f in failing && !Decompiles(tools, f, types)
  {
    if failing == [] then []
    else
      var n := |failing| - 1;
      Unfixed(tools, types, failing[..n]) + if Decompiles(tools, failing[n], types) then [] else [failing[n]]
  }

  function Scan(functions: seq<Address>, only: Option<seq<Option<Address>>>): (r: seq<Address>)
    ensures only.None? ==> r == functions
    ensures only.Some? ==> forall f :: f in r <==> Some(f) in only.value
  {
    if only.None? then functions else Resolved(only.value)
  }

  function Resolved(addrs: seq<Option<Address>>): (r: seq<Address>)
    ensures forall f :: f in r <==> Some(f) in addrs
  {
    if addrs == [] then []
    else
      var n := |addrs| - 1;
      Resolved(addrs[..n]) + if addrs[n].Some? then [addrs[n].value] else []
  }

  // Each of these lists is what it is said to be, repeats included and in order.

  lemma {:induction false} FailingInOrder<T(!new)>(tools: Tools<T>, types: Types<T>, scan: seq<Address>) returns (at: seq<nat>)
    ensures Selects(scan, f => if BadCallSaid(tools.decompile(f, types)) then Some(f) else None, Failing(tools, types, scan), at)
  {
    if scan == [] {
      at := [];
    } else {
      at := FailingInOrder(tools, types, scan[..|scan| - 1]);
      at := SelectsMore(scan, f => if BadCallSaid(tools.decompile(f, types)) then Some(f) else None,
                        Failing(tools, types, scan[..|scan| - 1]), at);
    }
  }

  predicate BadCallSaid(v: Verdict) {
    v.Failed? && v.code == -12
  }

  lemma {:induction false} UnfixedInOrder<T(!new)>(tools: Tools<T>, types: Types<T>, failing: seq<Address>) returns (at: seq<nat>)
    ensures Selects(failing, f => if tools.decompile(f, types) == Fine then None else Some(f), Unfixed(tools, types, failing), at)
  {
    if failing == [] {
      at := [];
    } else {
      at := UnfixedInOrder(tools, types, failing[..|failing| - 1]);
      at := SelectsMore(failing, f => if tools.decompile(f, types) == Fine then None else Some(f),
                        Unfixed(tools, types, failing[..|failing| - 1]), at);
    }
  }

  /** The functions a given list of addresses resolves to. */
  lemma {:induction false} ResolvedInOrder(addrs: seq<Option<Address>>) returns (at: seq<nat>)
    ensures Selects(addrs, (a: Option<Address>) => a, Resolved(addrs), at)
  {
    if addrs == [] {
      at := [];
    } else {
      at := ResolvedInOrder(addrs[..|addrs| - 1]);
      at := SelectsMore(addrs, (a: Option<Address>) => a, Resolved(addrs[..|addrs| - 1]), at);
    }
  }

  // -----------------------------------------------------------------------
  // When fixes last
  // -----------------------------------------------------------------------

  /** No turn of the repair, whatever the function, the place it failed at and the types, stops g from
      decompiling. */
  ghost predicate Spared<T(!new)>(tools: Tools<T>, g: Address) {
    forall types: Types<T>, f: Address, at: Address ::
      Decompiles(tools, g, types) ==> Decompiles(tools, g, AfterFixes(types, FixFor(tools, f, at, types)))
  }

  /** Whenever g decompiles after some turn of a run it does so at the run's end. */
  ghost predicate Lasting<T(!new)>(tools: Tools<T>, g: Address) {
    forall types: Types<T>, failing: seq<Address>, ats: seq<Address>, i: nat ::
      |failing| == |ats| && i <= |failing| ==> LastsInRun(tools, g, types, failing, ats, i)
  }

  ghost predicate LastsInRun<T(!new)>(tools: Tools<T>, g: Address, types: Types<T>, failing: seq<Address>, ats: seq<Address>, i: nat)
    requires |failing| == |ats| && i <= |failing|
  {
    Decompiles(tools, g, AfterFixes(types, FixesFor(tools, types, failing[..i], ats[..i])))
    ==> Decompiles(tools, g, AfterFixes(types, FixesFor(tools, types, failing, ats)))
  }

  lemma {:induction false} FixesLast<T(!new)>(tools: Tools<T>, g: Address, types: Types<T>, failing: seq<Address>, ats: seq<Address>, i: nat)
    requires |failing| == |ats| && i <= |failing| && Spared(tools, g)
    ensures LastsInRun(tools, g, types, failing, ats, i)
    decreases |failing|
  {
    hide Decompiles, FixFor, FixesFor, AfterFixes;
    if i == |failing| {
      assert failing[..i] == failing && ats[..i] == ats;
    } else {
      var n := |failing| - 1;
      assert failing[..n][..i] == failing[..i] && ats[..n][..i] == ats[..i];
      FixesLast(tools, g, types, failing[..n], ats[..n], i);
      LastTurn(tools, types, failing, ats);
    }
  }

  /** The types after a run are those after its last turn. */
  lemma LastTurn<T(!new)>(tools: Tools<T>, types: Types<T>, failing: seq<Address>, ats: seq<Address>)
    requires |failing| == |ats| > 0
    ensures var n := |failing| - 1;
      var now := AfterFixes(types, FixesFor(tools, types, failing[..n], ats[..n]));
      AfterFixes(types, FixesFor(tools, types, failing, ats)) == AfterFixes(now, FixFor(tools, failing[n], ats[n], now))
  {
    var n := |failing| - 1;
    var before := FixesFor(tools, types, failing[..n], ats[..n]);
    FixedInOrder(types, before, FixFor(tools, failing[n], ats[n], AfterFixes(types, before)));
  }

  /** What the repair achieved for a function lasts, in every run, if and only if no single turn for any
      function undoes it. */
  lemma LastsExactly<T(!new)>(tools: Tools<T>, g: Address)
    ensures Lasting(tools, g) <==> Spared(tools, g)
  {
    hide Decompiles, FixFor, LastsInRun;
    if Spared(tools, g) {
      forall types: Types<T>, failing: seq<Address>, ats: seq<Address>, i: nat | |failing| == |ats| && i <= |failing|
        ensures LastsInRun(tools, g, types, failing, ats, i)
      {
        FixesLast(tools, g, types, failing, ats, i);
      }
    }
    if Lasting(tools, g) {
      forall types: Types<T>, f: Address, at: Address
        ensures Decompiles(tools, g, types) ==> Decompiles(tools, g, AfterFixes(types, FixFor(tools, f, at, types)))
      {
        OneTurn(tools, g, types, f, at);
      }
    }
  }

  /** A run over one function is one turn. */
  lemma OneTurn<T(!new)>(tools: Tools<T>, g: Address, types: Types<T>, f: Address, at: Address)
    ensures LastsInRun(tools, g, types, [f], [at], 0)
       <==> (Decompiles(tools, g, types) ==> Decompiles(tools, g, AfterFixes(types, FixFor(tools, f, at, types))))
  {
    NothingYet(tools);
    OneMoreFunction(tools, types, [], [], f, at);
    assert [] + [f] == [f] && [] + [at] == [at];
    assert [f][..0] == [] && [at][..0] == [];
    assert [] + FixFor(tools, f, at, types) == FixFor(tools, f, at, types);
  }

  /** How many of the functions decompile when their own turn is over: those an earlier fix covered
      and those a trial of their own worked for. */
  ghost function Settled<T(!new)>(tools: Tools<T>, types: Types<T>, failing: seq<Address>, ats: seq<Address>): nat
    requires |failing| == |ats|
  {
    if failing == [] then 0
    else
      var n := |failing| - 1;
      Settled(tools, types, failing[..n], ats[..n])
      + if Decompiles(tools, failing[n], AfterFixes(types, FixesFor(tools, types, failing, ats))) then 1 else 0
  }

  lemma {:induction false} SettledStay<T(!new)>(tools: Tools<T>, types: Types<T>, failing: seq<Address>, ats: seq<Address>, m: nat)
    requires |failing| == |ats| && m <= |failing|
    requires forall f :: f in failing ==> Spared(tools, f)
    ensures var final := AfterFixes(types, FixesFor(tools, types, failing, ats));
      Settled(tools, types, failing[..m], ats[..m]) + |Unfixed(tools, final, failing[..m])| <= m
    decreases m
  {
    hide Spared, Decompiles, FixesFor, AfterFixes;
    if m > 0 {
      var k := m - 1;
      SettledStay(tools, types, failing, ats, k);
      assert failing[..m][..k] == failing[..k] && ats[..m][..k] == ats[..k];
      FixesLast(tools, failing[k], types, failing, ats, m);
    }
  }

  /** If no turn undoes any of them, the functions recovered at the end are at least those settled at
      their turn. */
  lemma RecoveredAtLeast<T(!new)>(tools: Tools<T>, types: Types<T>, failing: seq<Address>, ats: seq<Address>)
    requires |failing| == |ats|
    requires forall f :: f in failing ==> Spared(tools, f)
    ensures var final := AfterFixes(types, FixesFor(tools, types, failing, ats));
      Settled(tools, types, failing, ats) <= |failing| - |Unfixed(tools, final, failing)|
  {
    SettledStay(tools, types, failing, ats, |failing|);
    assert failing[..|failing|] == failing && ats[..|ats|] == ats;
  }

  // -----------------------------------------------------------------------
  // Why the counts are taken at the end, over the final types, and not from the number of fixes
  // -----------------------------------------------------------------------

  /** Function 1 is cured by typing address 10, and cured no longer once address 20 is typed, which is
      what function 2 needs. */
  function ClashVerdict(f: Address, types: Types<int>): Verdict {
    if f == 1 && 10 in types && 20 !in types then Fine
    else if f == 2 && 20 in types then Fine
    else Failed(MERR_BADCALL, f)
  }

  function ClashTools(): Tools<int> {
    Tools(ClashVerdict, (f, at) => [], (f, at) => [10 * f], proto => Some(7), (c, t) => true)
  }

  function ClashFix(f: Address): Fix<int> {
    Fix(f, 10 * f, true, BADCALL_PTR_PROTOS[0], 7, f)
  }

  lemma ClashFixed(f: Address, types: Types<int>)
    requires f == 1 || f == 2
    requires ClashVerdict(f, types) == Failed(MERR_BADCALL, f)
    requires f == 1 ==> 20 !in types
    ensures FixFor(ClashTools(), f, f, types) == [ClashFix(f)]
  {
    var tools := ClashTools();
    assert Works(tools, f, types, 10 * f, BADCALL_PTR_PROTOS[0]);
    assert FirstProto(tools, f, types, 10 * f, BADCALL_PTR_PROTOS, 0) == Some(0);
    assert FirstPair(tools, f, types, [10 * f], BADCALL_PTR_PROTOS, 0) == Some((0, 0));
    assert PhaseFix(tools, f, f, types, true) == [ClashFix(f)];
  }

  lemma AfterOneMore<T(!new)>(types: Types<T>, fixes: seq<Fix<T>>, fix: Fix<T>)
    ensures AfterFixes(types, fixes + [fix]) == AfterFixes(types, fixes)[fix.culprit := fix.tif]
  {
    assert (fixes + [fix])[..|fixes|] == fixes;
  }

  lemma OneMoreFunction<T(!new)>(tools: Tools<T>, types: Types<T>, failing: seq<Address>, ats: seq<Address>, f: Address, at: Address)
    requires |failing| == |ats|
    ensures FixesFor(tools, types, failing + [f], ats + [at])
         == FixesFor(tools, types, failing, ats) + FixFor(tools, f, at, AfterFixes(types, FixesFor(tools, types, failing, ats)))
    ensures Unfixed(tools, types, failing + [f]) == Unfixed(tools, types, failing) + if Decompiles(tools, f, types) then [] else [f]
  {
    assert (failing + [f])[..|failing|] == failing && (ats + [at])[..|ats|] == ats;
  }

  lemma NothingYet<T(!new)>(tools: Tools<T>)
    ensures forall types :: FixesFor(tools, types, [], []) == [] && AfterFixes(types, []) == types && Unfixed(tools, types, []) == []
  {
  }

  /** The types after none, one and both of the fixes. */
  function ClashTypes(fixes: nat): Types<int> {
    if fixes == 0 then map[] else if fixes == 1 then map[10 := 7] else map[10 := 7, 20 := 7]
  }

  lemma ClashAfter()
    ensures AfterFixes(ClashTypes(0), [ClashFix(1)]) == ClashTypes(1)
    ensures AfterFixes(ClashTypes(0), [ClashFix(1), ClashFix(2)]) == ClashTypes(2)
  {
    AfterOneMore(ClashTypes(0), [], ClashFix(1));
    assert [] + [ClashFix(1)] == [ClashFix(1)];
    AfterOneMore(ClashTypes(0), [ClashFix(1)], ClashFix(2));
    assert [ClashFix(1)] + [ClashFix(2)] == [ClashFix(1), ClashFix(2)];
  }

  lemma ClashFirst()
    ensures FixesFor(ClashTools(), ClashTypes(0), [1], [1]) == [ClashFix(1)]
  {
    ClashFixed(1, ClashTypes(0));
    NothingYet(ClashTools());
    hide FixesFor, FixFor, AfterFixes, ClashTools, ClashTypes, ClashFix;
    OneMoreFunction(ClashTools(), ClashTypes(0), [], [], 1, 1);
    assert [] + [1] == [1];
  }

  lemma ClashFixes()
    ensures FixesFor(ClashTools(), ClashTypes(0), [1, 2], [1, 2]) == [ClashFix(1), ClashFix(2)]
  {
    ClashFirst();
    ClashFixed(2, ClashTypes(1));
    ClashAfter();
    hide FixesFor, FixFor, AfterFixes, ClashTools, ClashTypes, ClashFix;
    OneMoreFunction(ClashTools(), ClashTypes(0), [1], [1], 2, 2);
    assert [1] + [2] == [1, 2];
  }

  lemma ClashLeft()
    ensures Unfixed(ClashTools(), ClashTypes(2), [1, 2]) == [1]
  {
    var tools, both := ClashTools(), ClashTypes(2);
    assert !Decompiles(tools, 1, both) && Decompiles(tools, 2, both);
    NothingYet(tools);
    hide Unfixed, Decompiles;
    OneMoreFunction(tools, both, [], [], 1, 1);
    assert [] + [1] == [1] && [1] + [2] == [1, 2] && [1] + [] == [1];
    OneMoreFunction(tools, both, [1], [1], 2, 2);
  }

  /** Two fixes, each of which helped when it was made, and still one of the two functions fails. */
  lemma LaterFixCanBreakEarlier()
    ensures var fixes := FixesFor(ClashTools(), ClashTypes(0), [1, 2], [1, 2]);
      |fixes| == 2 && Unfixed(ClashTools(), AfterFixes(ClashTypes(0), fixes), [1, 2]) == [1]
  {
    ClashFixes();
    ClashAfter();
    ClashLeft();
    hide FixesFor, Unfixed, AfterFixes, ClashTools, ClashTypes;
  }

  // -----------------------------------------------------------------------
  // The repair
  // -----------------------------------------------------------------------

  function TypeAt<T>(types: Types<T>, c: Address): Option<T> {
    if c in types then Some(types[c]) else None
  }

  class Session<T(==,!new)> {
    const tools: Tools<T>
    const functions: seq<Address>
    var isOpen: bool
    var types: Types<T>

    /** Whatever type an address has can be given to it again. */
    ghost predicate Valid()
      reads this
    {
      forall c :: c in types ==> tools.applies(c, types[c])
    }

    constructor (tools: Tools<T>, functions: seq<Address>, types: Types<T>, isOpen: bool)
      ensures this.tools == tools && this.functions == functions && this.types == types && this.isOpen == isOpen
    {
      this.tools, this.functions, this.types, this.isOpen := tools, functions, types, isOpen;
    }

    method Apply(c: Address, t: T) returns (ok: bool)
      modifies this`types
      ensures ok == tools.applies(c, t)
      ensures types == if ok then old(types)[c := t] else old(types)
    {
      ok := tools.applies(c, t);
      if ok { types := types[c := t]; }
    }

    method Delete(c: Address)
      modifies this`types
      ensures types == old(types) - {c}
    {
      types := types - {c};
    }

    /** One trial, given the type the candidate had. A type that does not help is taken back, so the
        database is as it was. */
    method Try(f: Address, c: Address, proto: string, oldType: Option<T>) returns (worked: bool)
      requires Valid() && !Decompiles(tools, f, types)
      requires oldType == TypeAt(types, c)
      modifies this`types
      ensures Valid()
      ensures worked == Works(tools, f, old(types), c, proto)
      ensures worked ==> tools.parse(proto).Some?
      ensures types == if worked then old(types)[c := tools.parse(proto).value] else old(types)
    {
      var parsed := tools.parse(proto);
      if parsed.None? { return false; }
      var applied := Apply(c, parsed.value);
      if !applied { return false; }
      if Decompiles(tools, f, types) { return true; }
      if oldType.Some? {
        var _ := Apply(c, oldType.value);
      } else {
        Delete(c);
      }
      assert types == old(types);
      worked := false;
    }

    /** Each candidate of one kind with each prototype, until one works. */
    method SearchPhase(f: Address, at: Address, indirect: bool) returns (fixes: seq<Fix<T>>)
      requires Valid() && !Decompiles(tools, f, types)
      modifies this`types
      ensures Valid()
      ensures fixes == PhaseFix(tools, f, at, old(types), indirect)
      ensures types == AfterFixes(old(types), fixes)
    {
      ghost var before := types;
      var cands, protos := Candidates(tools, f, at, indirect), Protos(indirect);
      hide Candidates, Protos, Works, Decompiles;
      var done := false;
      fixes := [];
      var c := 0;
      while c < |cands| && !done
        invariant 0 <= c <= |cands| && Valid()
        invariant if done then fixes == PhaseFix(tools, f, at, before, indirect) && types == AfterFixes(before, fixes)
                  else fixes == [] && types == before
        invariant !done ==> FirstPair(tools, f, before, cands, protos, 0) == FirstPair(tools, f, before, cands, protos, c)
        decreases |cands| - c
      {
        var oldType := TypeAt(types, cands[c]);
        var k := 0;
        while k < |protos| && !done
          invariant 0 <= k <= |protos| && Valid()
          invariant !done && fixes == [] && types == before
          invariant FirstProto(tools, f, before, cands[c], protos, 0) == FirstProto(tools, f, before, cands[c], protos, k)
          decreases |protos| - k
        {
          var worked := Try(f, cands[c], protos[k], oldType);
          if worked {
            fixes := [Fix(f, cands[c], indirect, protos[k], tools.parse(protos[k]).value, at)];
            AfterOneMore(before, [], fixes[0]);
            assert [] + [fixes[0]] == fixes;
            done := true;
            break;
          }
          k := k + 1;
        }
        c := c + 1;
      }
    }

    /** All the trials for one function, indirect calls first. */
    method Search(f: Address, at: Address) returns (fixes: seq<Fix<T>>)
      requires Valid() && !Decompiles(tools, f, types)
      modifies this`types
      ensures Valid()
      ensures fixes == FixFor(tools, f, at, old(types))
      ensures types == AfterFixes(old(types), fixes)
    {
      hide PhaseFix, Decompiles;
      fixes := [];
      var phase := 0;
      while phase < 2 && fixes == []
        invariant 0 <= phase <= 2 && Valid()
        invariant fixes == (if phase == 0 then [] else if phase == 1 then PhaseFix(tools, f, at, old(types), true)
                            else FixFor(tools, f, at, old(types)))
        invariant types == AfterFixes(old(types), fixes)
        decreases 2 - phase
      {
        fixes := SearchPhase(f, at, phase == 0);
        phase := phase + 1;
      }
    }

    method CollectFailing(scan: seq<Address>) returns (failing: seq<Address>, ats: seq<Address>)
      ensures failing == Failing(tools, types, scan)
      ensures ats == Places(tools, types, failing)
    {
      failing, ats := [], [];
      var i := 0;
      while i < |scan|
        invariant 0 <= i <= |scan|
        invariant failing == Failing(tools, types, scan[..i])
        invariant ats == Places(tools, types, failing)
      {
        assert scan[..i + 1][..i] == scan[..i];
        if BadCall(tools, scan[i], types) {
          failing, ats := failing + [scan[i]], ats + [tools.decompile(scan[i], types).at];
        }
        i := i + 1;
      }
      assert scan[..i] == scan;
    }

    method CollectScan(only: Option<seq<Option<Address>>>) returns (scan: seq<Address>)
      ensures scan == Scan(functions, only)
    {
      if only.None? { return functions; }
      scan := [];
      var i := 0;
      while i < |only.value|
        invariant 0 <= i <= |only.value|
        invariant scan == Resolved(only.value[..i])
      {
        assert only.value[..i + 1][..i] == only.value[..i];
        if only.value[i].Some? { scan := scan + [only.value[i].value]; }
        i := i + 1;
      }
      assert only.value[..i] == only.value;
    }

    method FixAll(failing: seq<Address>, ats: seq<Address>) returns (fixes: seq<Fix<T>>)
      requires Valid() && |failing| == |ats|
      modifies this`types
      ensures Valid()
      ensures fixes == FixesFor(tools, old(types), failing, ats)
      ensures types == AfterFixes(old(types), fixes)
    {
      hide FixFor;
      fixes := [];
      var i := 0;
      while i < |failing|
        invariant 0 <= i <= |failing| && Valid()
        invariant fixes == FixesFor(tools, old(types), failing[..i], ats[..i])
        invariant types == AfterFixes(old(types), fixes)
      {
        assert failing[..i + 1][..i] == failing[..i] && ats[..i + 1][..i] == ats[..i];
        FixForIsComplete(tools, failing[i], ats[i], types);
        if !Decompiles(tools, failing[i], types) {
          var found := Search(failing[i], ats[i]);
          FixedInOrder(old(types), fixes, found);
          fixes := fixes + found;
        }
        i := i + 1;
      }
      assert failing[..i] == failing && ats[..i] == ats;
    }

    method CollectUnfixed(failing: seq<Address>) returns (still: int, unfixed: seq<Address>)
      ensures unfixed == Unfixed(tools, types, failing) && still == |unfixed|
    {
      still, unfixed := 0, [];
      var i := 0;
      while i < |failing|
        invariant 0 <= i <= |failing|
        invariant unfixed == Unfixed(tools, types, failing[..i]) && still == |unfixed|
      {
        assert failing[..i + 1][..i] == failing[..i];
        if !Decompiles(tools, failing[i], types) {
          still := still + 1;
          unfixed := unfixed + [failing[i]];
        }
        i := i + 1;
      }
      assert failing[..i] == failing;
    }

    /** The whole tool. The types it leaves are the old ones with the reported fixes made in order,
        and the counts are what the decompiler says about those types. */
    method RepairBadcall(only: Option<seq<Option<Address>>>, apply: bool) returns (report: Report<T>)
      requires Valid()
      modifies this`types
      ensures Valid()
      ensures !isOpen ==> report == NoDatabase && types == old(types)
      ensures isOpen ==>
        var failing := Failing(tools, old(types), Scan(functions, only));
        if failing == [] || !apply then report == Found(failing) && types == old(types)
        else
          && report.Repaired?
          && report.fixes == FixesFor(tools, old(types), failing, Places(tools, old(types), failing))
          && types == AfterFixes(old(types), report.fixes)
          && report.found == |failing|
          && report.unfixed == Unfixed(tools, types, failing)
          && report.stillFailing == |report.unfixed|
          && report.recovered + report.stillFailing == report.found
    {
      hide FixesFor, AfterFixes, Unfixed, Scan;
      if !isOpen { return NoDatabase; }
      var scan := CollectScan(only);
      var failing, ats := CollectFailing(scan);
      if failing == [] || !apply { return Found(failing); }
      var fixes := FixAll(failing, ats);
      var still, unfixed := CollectUnfixed(failing);
      report := Repaired(|failing|, |failing| - still, still, fixes, unfixed);
    }
  }

  lemma {:induction false} FixedInOrder<T(!new)>(types: Types<T>, first: seq<Fix<T>>, second: seq<Fix<T>>)
    ensures AfterFixes(types, first + second) == AfterFixes(AfterFixes(types, first), second)
    decreases |second|
  {
    if second == [] {
      assert first + second == first;
    } else {
      var n := |second| - 1;
      assert (first + second)[..|first| + n] == first + second[..n];
      FixedInOrder(types, first, second[..n]);
    }
  }
}
