/** `eval_cond` and `arch_filter` of gen_intrin.py: dropping the branches of
    conditional directives that a set of known macros decides against. */
module ArchFilter {
  import opened Options

  datatype Outcome<T> = Ok(value: T) | Failed

  /** The condition of a directive.  `Other` is any part that is not built from
      `defined`, 0, 1 and the connectives. */
  datatype Cond =
    | Bool(b: bool)
    | Defined(macroName: string)
    | Not(c: Cond)
    | And(l: Cond, r: Cond)
    | Or(l: Cond, r: Cond)
    | Other(text: string)

  /** The conditions an x64 C++ build decides. */
  const KNOWN_MACROS: map<string, bool> := map[
    "_M_X64" := true, "__cplusplus" := true,
    "_M_IX86" := false, "_M_ARM64" := false, "_M_ARM64EC" := false, "_M_HYBRID_X86_ARM64" := false,
    "_M_CEE_PURE" := false, "__midl" := false, "__ICL" := false, "_CRT_WINDOWS" := false,
    "UNDOCKED_WINDOWS_UCRT" := false, "USE_SOFT_INTRINSICS" := false, "_CHPE_ONLY_" := false,
    "_DISABLE_SOFTINTRIN_" := false, "__clang__" := false, "__EDG__" := false, "__CUDACC__" := false]

  /** The value of a condition built only from known macros, none if it mentions anything
      else, even where the rest would decide it. */
  function EvalCond(c: Cond): Option<bool> {
    match c
    case Bool(b) => Some(b)
    case Defined(m) => if m in KNOWN_MACROS then Some(KNOWN_MACROS[m]) else None
    case Not(d) => (match EvalCond(d) case Some(v) => Some(!v) case None => None)
    case And(l, r) =>
      (match (EvalCond(l), EvalCond(r)) case (Some(v), Some(w)) => Some(v && w) case _ => None)
    case Or(l, r) =>
      (match (EvalCond(l), EvalCond(r)) case (Some(v), Some(w)) => Some(v || w) case _ => None)
    case Other(_) => None
  }

  /** What a compilation defines, and how it evaluates everything else. */
  datatype Env = Env(isDefined: string -> bool, other: string -> bool)

  predicate Holds(c: Cond, env: Env) {
    match c
    case Bool(b) => b
    case Defined(m) => env.isDefined(m)
    case Not(d) => !Holds(d, env)
    case And(l, r) => Holds(l, env) && Holds(r, env)
    case Or(l, r) => Holds(l, env) || Holds(r, env)
    case Other(text) => env.other(text)
  }

  ghost predicate Consistent(env: Env) {
    forall m :: m in KNOWN_MACROS ==> env.isDefined(m) == KNOWN_MACROS[m]
  }

  /** A decided condition has its decided value in every consistent environment. */
  lemma {:induction false} DecidedHolds(c: Cond, env: Env)
    requires Consistent(env) && EvalCond(c).Some?
    ensures Holds(c, env) == EvalCond(c).value
  {
    hide Consistent;
    match c
    case Bool(_) =>
    case Defined(m) => KnownMacro(m, env);
    case Not(d) => DecidedHolds(d, env);
    case And(l, r) => DecidedHolds(l, env); DecidedHolds(r, env);
    case Or(l, r) => DecidedHolds(l, env); DecidedHolds(r, env);
    case Other(_) =>
  }

  lemma KnownMacro(m: string, env: Env)
    requires Consistent(env)
    ensures m in KNOWN_MACROS ==> env.isDefined(m) == KNOWN_MACROS[m]
  {
  }

  datatype Line =
    | Text(text: string)
    | If(cond: Cond)
    | Ifdef(macroName: string)
    | Ifndef(macroName: string)
    | Elif(cond: Cond)
    | Else
    | Endif

  predicate Opens(line: Line) {
    line.If? || line.Ifdef? || line.Ifndef?
  }

  function OpenCond(line: Line): Cond
    requires Opens(line)
  {
    match line
    case If(c) => c
    case Ifdef(m) => Defined(m)
    case Ifndef(m) => Not(Defined(m))
  }

  // The filter.

  /** One open conditional: whether the filter decides it itself, whether lines now pass, and whether
      some branch of it has passed lines already. */
  datatype Frame = Frame(known: bool, emit: bool, taken: bool)

  predicate AllEmit(stack: seq<Frame>) {
    forall i :: 0 <= i < |stack| ==> stack[i].emit
  }

  datatype Step<S, T> = Step(stack: seq<S>, out: seq<T>)

  /** One turn of `arch_filter`'s loop: the new stack and what is appended to the output.
      It fails where the source indexes the top of an empty stack. */
  function FilterStep(stack: seq<Frame>, line: Line): (r: Outcome<Step<Frame, Line>>)
    ensures r.Ok? ==> |r.value.out| <= 1
  {
    if line.Text? then
      Ok(Step(stack, if AllEmit(stack) then [line] else []))
    else if Opens(line) then
      var outer := AllEmit(stack);
      var v := if outer then EvalCond(OpenCond(line)) else Some(false);
      match v
      case None => Ok(Step(stack + [Frame(false, outer, false)], [line]))
      case Some(b) => Ok(Step(stack + [Frame(true, outer && b, b)], []))
    else if stack == [] then
      Failed
    else
      var below, f := stack[..|stack| - 1], stack[|stack| - 1];
      var outer := AllEmit(below);
      if !f.known then
        Ok(Step(if line.Endif? then below else stack, [line]))
      else if line.Endif? then
        Ok(Step(below, []))
      else if line.Else? then
        Ok(Step(below + [f.(emit := outer && !f.taken)], []))
      else
        var v := if outer && !f.taken then EvalCond(line.cond) else Some(false);
        var b := v.Some? && v.value;
        Ok(Step(below + [f.(emit := outer && !f.taken && b, taken := f.taken || b)], []))
  }

  /** What was put out already, then the rest. */
  function Then<S, T>(xs: seq<T>, r: Outcome<Step<S, T>>): Outcome<Step<S, T>> {
    match r
    case Failed => Failed
    case Ok(s) => Ok(Step(s.stack, xs + s.out))
  }

  lemma ThenThen<S, T>(xs: seq<T>, ys: seq<T>, r: Outcome<Step<S, T>>)
    ensures Then(xs, Then(ys, r)) == Then(xs + ys, r)
    ensures Then([], r) == r
  {
    if r.Ok? {
      assert xs + (ys + r.value.out) == (xs + ys) + r.value.out;
      assert [] + r.value.out == r.value.out;
    }
  }

  function FilterFrom(stack: seq<Frame>, lines: seq<Line>): Outcome<Step<Frame, Line>>
    decreases |lines|
  {
    if lines == [] then Ok(Step(stack, []))
    else
      match FilterStep(stack, lines[0])
      case Failed => Failed
      case Ok(s) => Then(s.out, FilterFrom(s.stack, lines[1..]))
  }

  function Filter(lines: seq<Line>): Outcome<seq<Line>> {
    match FilterFrom([], lines)
    case Failed => Failed
    case Ok(s) => Ok(s.out)
  }

  /** `arch_filter` as the loop it is. */
  method RunFilter(lines: seq<Line>) returns (r: Outcome<seq<Line>>)
    ensures r == Filter(lines)
  {
    var out: seq<Line>, stack: seq<Frame> := [], [];
    ThenThen([], [], FilterFrom([], lines));
    assert lines[0..] == lines;
    for i := 0 to |lines|
      invariant FilterFrom([], lines) == Then(out, FilterFrom(stack, lines[i..]))
    {
      var s := FilterStep(stack, lines[i]);
      assert lines[i..][0] == lines[i] && lines[i..][1..] == lines[i + 1..];
      if s.Failed? {
        return Failed;
      }
      ThenThen(out, s.value.out, FilterFrom(s.value.stack, lines[i + 1..]));
      stack, out := s.value.stack, out + s.value.out;
    }
    assert out + [] == out;
    return Ok(out);
  }

  // Conditional inclusion, section 6.10.1 of ISO/IEC 9899:2011.

  /** live: text here is kept; taken: no later group of this chain can be; sawElse: only
      an #endif may follow. */
  datatype Group = Group(live: bool, taken: bool, sawElse: bool)

  predicate Live(groups: seq<Group>) {
    groups == [] || groups[|groups| - 1].live
  }

  /** One line of preprocessing: the new nesting and the text that is kept.  It fails on a
      directive with nothing to belong to, and on #elif or #else after #else. */
  function PreStep(groups: seq<Group>, line: Line, env: Env): Outcome<Step<Group, string>> {
    if line.Text? then
      Ok(Step(groups, if Live(groups) then [line.text] else []))
    else if Opens(line) then
      var v := Live(groups) && Holds(OpenCond(line), env);
      Ok(Step(groups + [Group(v, v || !Live(groups), false)], []))
    else if groups == [] then
      Failed
    else
      var below, g := groups[..|groups| - 1], groups[|groups| - 1];
      if line.Endif? then
        Ok(Step(below, []))
      else if g.sawElse then
        Failed
      else if line.Else? then
        Ok(Step(below + [Group(!g.taken, true, true)], []))
      else
        var v := !g.taken && Holds(line.cond, env);
        Ok(Step(below + [Group(v, g.taken || v, false)], []))
  }

  function PreFrom(groups: seq<Group>, lines: seq<Line>, env: Env): Outcome<Step<Group, string>>
    decreases |lines|
  {
    if lines == [] then Ok(Step(groups, []))
    else
      match PreStep(groups, lines[0], env)
      case Failed => Failed
      case Ok(s) => Then(s.out, PreFrom(s.stack, lines[1..], env))
  }

  /** The text that survives preprocessing. */
  function Preprocess(lines: seq<Line>, env: Env): Outcome<seq<string>> {
    match PreFrom([], lines, env)
    case Failed => Failed
    case Ok(s) => Ok(s.out)
  }

  lemma {:induction false} PreConcat(groups: seq<Group>, a: seq<Line>, b: seq<Line>, env: Env)
    ensures PreFrom(groups, a + b, env) ==
      match PreFrom(groups, a, env) case Failed => Failed case Ok(s) => Then(s.out, PreFrom(s.stack, b, env))
    decreases |a|
  {
    if a == [] {
      assert a + b == b;
      ThenThen([], [], PreFrom(groups, b, env));
    } else {
      assert (a + b)[0] == a[0] && (a + b)[1..] == a[1..] + b;
      var r := PreStep(groups, a[0], env);
      if r.Ok? {
        PreConcat(r.value.stack, a[1..], b, env);
        var u := PreFrom(r.value.stack, a[1..], env);
        if u.Ok? {
          ThenThen(r.value.out, u.value.out, PreFrom(u.value.stack, b, env));
        }
      }
    }
  }

  lemma {:induction false} FilterConcat(stack: seq<Frame>, a: seq<Line>, b: seq<Line>)
    ensures FilterFrom(stack, a + b) ==
      match FilterFrom(stack, a) case Failed => Failed case Ok(s) => Then(s.out, FilterFrom(s.stack, b))
    decreases |a|
  {
    if a == [] {
      assert a + b == b;
      ThenThen([], [], FilterFrom(stack, b));
    } else {
      assert (a + b)[0] == a[0] && (a + b)[1..] == a[1..] + b;
      var r := FilterStep(stack, a[0]);
      if r.Ok? {
        FilterConcat(r.value.stack, a[1..], b);
        var u := FilterFrom(r.value.stack, a[1..]);
        if u.Ok? {
          ThenThen(r.value.out, u.value.out, FilterFrom(u.value.stack, b));
        }
      }
    }
  }

  // The filter preserves preprocessing.

  /** How the nesting of the original (p), the filter's stack (f) and the nesting of the
      filtered text (q) go together. */
  ghost predicate Related(p: seq<Group>, f: seq<Frame>, q: seq<Group>)
    decreases |p|
  {
    if p == [] || f == [] then
      p == [] && f == [] && q == []
    else
      var p0, pt := p[..|p| - 1], p[|p| - 1];
      var f0, ft := f[..|f| - 1], f[|f| - 1];
      if ft.known then
        && Related(p0, f0, q)
        && pt.live == (ft.emit && Live(p0))
        && (ft.emit ==> AllEmit(f0))
        && (if !Live(p0) then pt.taken else !pt.sawElse ==> pt.taken == ft.taken)
      else
        && q != [] && q[|q| - 1] == pt && ft.emit && AllEmit(f0)
        && Related(p0, f0, q[..|q| - 1])
  }

  /** A point of the original is live exactly when the filter emits there and the point
      of the filtered text is live. */
  lemma {:induction false} RelatedLive(p: seq<Group>, f: seq<Frame>, q: seq<Group>)
    requires Related(p, f, q)
    ensures Live(p) == (AllEmit(f) && Live(q))
    decreases |p|
  {
    if p != [] {
      var f0, ft := f[..|f| - 1], f[|f| - 1];
      assert f == f0 + [ft];
      RelatedLive(p[..|p| - 1], f0, if ft.known then q else q[..|q| - 1]);
    }
  }

  /** Here the filter takes a live #elif that it cannot decide for false, and it is true. */
  ghost predicate Misjudged(p: seq<Group>, f: seq<Frame>, line: Line, env: Env) {
    && line.Elif? && EvalCond(line.cond).None? && Holds(line.cond, env)
    && f != [] && f[|f| - 1].known && p != [] && !p[|p| - 1].taken
  }

  /** Preprocessing what one filter step emits. */
  function PreEmitted(q: seq<Group>, out: seq<Line>, env: Env): Outcome<Step<Group, string>>
    requires |out| <= 1
  {
    if out == [] then Ok(Step(q, [])) else PreStep(q, out[0], env)
  }

  /** What ties a decided frame to the original's group above it. */
  ghost predicate Tied(p0: seq<Group>, pt: Group, f0: seq<Frame>, ft: Frame) {
    && pt.live == (ft.emit && Live(p0))
    && (ft.emit ==> AllEmit(f0))
    && (if !Live(p0) then pt.taken else !pt.sawElse ==> pt.taken == ft.taken)
  }

  lemma RelatedPush(p0: seq<Group>, pt: Group, f0: seq<Frame>, ft: Frame, q: seq<Group>)
    ensures ft.known ==> (Related(p0 + [pt], f0 + [ft], q) <==> Related(p0, f0, q) && Tied(p0, pt, f0, ft))
    ensures !ft.known ==> (Related(p0 + [pt], f0 + [ft], q + [pt]) <==> Related(p0, f0, q) && ft.emit && AllEmit(f0))
  {
    assert (p0 + [pt])[..|p0|] == p0 && (f0 + [ft])[..|f0|] == f0 && (q + [pt])[..|q|] == q;
  }

  /** The result of one step that both sides take together. */
  ghost predicate InStep(p: seq<Group>, f: seq<Frame>, q: seq<Group>, line: Line, env: Env) {
    && PreStep(p, line, env).Ok? && FilterStep(f, line).Ok?
    && var r := PreEmitted(q, FilterStep(f, line).value.out, env);
       && r.Ok? && r.value.out == PreStep(p, line, env).value.out
       && Related(PreStep(p, line, env).value.stack, FilterStep(f, line).value.stack, r.value.stack)
  }

  lemma OpenInStep(p: seq<Group>, f: seq<Frame>, q: seq<Group>, line: Line, env: Env)
    requires Consistent(env) && Related(p, f, q) && Opens(line)
    ensures InStep(p, f, q, line, env)
  {
    hide Consistent, Related;
    RelatedLive(p, f, q);
    var c := OpenCond(line);
    if EvalCond(c).Some? {
      DecidedHolds(c, env);
    }
    var ft := FilterStep(f, line).value.stack[|f|];
    var pt := PreStep(p, line, env).value.stack[|p|];
    RelatedPush(p, pt, f, ft, q);
  }

  /** A directive that belongs to a frame the filter left alone goes through to the output. */
  lemma UndecidedInStep(p0: seq<Group>, pt: Group, f0: seq<Frame>, ft: Frame, q: seq<Group>, line: Line, env: Env)
    requires Related(p0 + [pt], f0 + [ft], q) && !ft.known && !line.Text? && !Opens(line)
    requires PreStep(p0 + [pt], line, env).Ok?
    ensures InStep(p0 + [pt], f0 + [ft], q, line, env)
  {
    assert (p0 + [pt])[..|p0|] == p0 && (f0 + [ft])[..|f0|] == f0;
    var q0 := q[..|q| - 1];
    assert q == q0 + [pt];
    hide Related;
    RelatedPush(p0, pt, f0, ft, q0);
    if !line.Endif? {
      var pt' := PreStep(p0 + [pt], line, env).value.stack[|p0|];
      RelatedPush(p0, pt', f0, ft, q0);
    }
  }

  /** A directive that belongs to a decided frame is consumed. */
  lemma DecidedInStep(p0: seq<Group>, pt: Group, f0: seq<Frame>, ft: Frame, q: seq<Group>, line: Line, env: Env)
    requires Consistent(env)
    requires Related(p0 + [pt], f0 + [ft], q) && ft.known && !line.Text? && !Opens(line)
    requires PreStep(p0 + [pt], line, env).Ok? && !Misjudged(p0 + [pt], f0 + [ft], line, env)
    ensures InStep(p0 + [pt], f0 + [ft], q, line, env)
  {
    hide Consistent, Related;
    assert (p0 + [pt])[..|p0|] == p0 && (f0 + [ft])[..|f0|] == f0;
    RelatedPush(p0, pt, f0, ft, q);
    RelatedLive(p0, f0, q);
    if line.Elif? && EvalCond(line.cond).Some? {
      DecidedHolds(line.cond, env);
    }
    if !line.Endif? {
      var pt' := PreStep(p0 + [pt], line, env).value.stack[|p0|];
      var ft' := FilterStep(f0 + [ft], line).value.stack[|f0|];
      RelatedPush(p0, pt', f0, ft', q);
    }
  }

  /** Step by step the two stay together, unless the filter misjudges an #elif. */
  lemma StepKeepsRelated(p: seq<Group>, f: seq<Frame>, q: seq<Group>, line: Line, env: Env)
    requires Consistent(env) && Related(p, f, q) && PreStep(p, line, env).Ok?
    requires !Misjudged(p, f, line, env)
    ensures InStep(p, f, q, line, env)
  {
    hide Consistent, InStep;
    if line.Text? {
      TextInStep(p, f, q, line, env);
    } else if Opens(line) {
      OpenInStep(p, f, q, line, env);
    } else {
      var p0, pt, f0, ft := p[..|p| - 1], p[|p| - 1], f[..|f| - 1], f[|f| - 1];
      assert p == p0 + [pt] && f == f0 + [ft];
      if ft.known {
        DecidedInStep(p0, pt, f0, ft, q, line, env);
      } else {
        UndecidedInStep(p0, pt, f0, ft, q, line, env);
      }
    }
  }

  lemma TextInStep(p: seq<Group>, f: seq<Frame>, q: seq<Group>, line: Line, env: Env)
    requires Related(p, f, q) && line.Text?
    ensures InStep(p, f, q, line, env)
  {
    RelatedLive(p, f, q);
  }

  /** No line of the run is misjudged. */
  ghost predicate Faithful(p: seq<Group>, f: seq<Frame>, lines: seq<Line>, env: Env)
    decreases |lines|
  {
    lines == [] ||
    (&& !Misjudged(p, f, lines[0], env)
     && (PreStep(p, lines[0], env).Ok? && FilterStep(f, lines[0]).Ok? ==>
           Faithful(PreStep(p, lines[0], env).value.stack, FilterStep(f, lines[0]).value.stack, lines[1..], env)))
  }

  lemma EmittedFrom(q: seq<Group>, out: seq<Line>, rest: seq<Line>, env: Env)
    requires |out| <= 1 && PreEmitted(q, out, env).Ok?
    ensures var s := PreEmitted(q, out, env).value;
      PreFrom(q, out + rest, env) == Then(s.out, PreFrom(s.stack, rest, env))
  {
    if out == [] {
      assert out + rest == rest;
      ThenThen([], [], PreFrom(q, rest, env));
    } else {
      assert (out + rest)[0] == out[0] && (out + rest)[1..] == rest;
    }
  }

  /** From related states, preprocessing the filtered rest gives what preprocessing the
      rest gives, and the states stay related. */
  lemma {:induction false} RunKeepsRelated(p: seq<Group>, f: seq<Frame>, q: seq<Group>, lines: seq<Line>, env: Env)
    requires Consistent(env) && Related(p, f, q) && PreFrom(p, lines, env).Ok? && Faithful(p, f, lines, env)
    ensures FilterFrom(f, lines).Ok?
    ensures var out := FilterFrom(f, lines).value.out;
      && PreFrom(q, out, env).Ok? && PreFrom(q, out, env).value.out == PreFrom(p, lines, env).value.out
      && Related(PreFrom(p, lines, env).value.stack, FilterFrom(f, lines).value.stack, PreFrom(q, out, env).value.stack)
    decreases |lines|
  {
    hide Consistent, Related, Misjudged, PreStep, FilterStep;
    if lines != [] {
      StepKeepsRelated(p, f, q, lines[0], env);
      var ps, fs := PreStep(p, lines[0], env).value, FilterStep(f, lines[0]).value;
      var qs := PreEmitted(q, fs.out, env).value;
      RunKeepsRelated(ps.stack, fs.stack, qs.stack, lines[1..], env);
      EmittedFrom(q, fs.out, FilterFrom(fs.stack, lines[1..]).value.out, env);
    }
  }

  /** Preprocessing the filtered text keeps exactly what preprocessing the original keeps. */
  ghost predicate Agrees(lines: seq<Line>, env: Env) {
    Filter(lines).Ok? && Preprocess(Filter(lines).value, env) == Preprocess(lines, env)
  }

  lemma FilterPreserves(lines: seq<Line>, env: Env)
    requires Consistent(env) && Preprocess(lines, env).Ok? && Faithful([], [], lines, env)
    ensures Agrees(lines, env)
    ensures Closes(lines, env) <==> FilterFrom([], lines).value.stack == []
    ensures Closes(lines, env) ==> Closes(Filter(lines).value, env)
  {
    RunKeepsRelated([], [], [], lines, env);
  }

  /** Every conditional that is opened is closed. */
  ghost predicate Closes(lines: seq<Line>, env: Env) {
    PreFrom([], lines, env).Ok? && PreFrom([], lines, env).value.stack == []
  }

  /** The text up to line k with one line of text put there. */
  ghost function Probe(lines: seq<Line>, k: nat, text: string): seq<Line>
    requires k <= |lines|
  {
    lines[..k] + [Text(text)]
  }

  /** Wherever a line of text is put, it is kept or dropped by both alike. */
  ghost predicate AgreesEverywhere(lines: seq<Line>, env: Env) {
    forall k: nat, text :: k <= |lines| ==> Agrees(Probe(lines, k, text), env)
  }

  lemma {:induction false} FaithfulPrefix(p: seq<Group>, f: seq<Frame>, lines: seq<Line>, k: nat, text: string, env: Env)
    requires Faithful(p, f, lines, env) && k <= |lines|
    ensures Faithful(p, f, Probe(lines, k, text), env)
    decreases k
  {
    var probe := Probe(lines, k, text);
    if k == 0 {
      assert probe[0].Text?;
      assert probe[1..] == [];
    } else {
      assert probe[0] == lines[0] && probe[1..] == Probe(lines[1..], k - 1, text);
      if PreStep(p, lines[0], env).Ok? && FilterStep(f, lines[0]).Ok? {
        FaithfulPrefix(PreStep(p, lines[0], env).value.stack, FilterStep(f, lines[0]).value.stack, lines[1..], k - 1, text, env);
      }
    }
  }

  /** The first misjudged line, with everything before it faithful. */
  lemma {:induction false} FirstMisjudged(p: seq<Group>, f: seq<Frame>, lines: seq<Line>, env: Env) returns (k: nat)
    requires !Faithful(p, f, lines, env)
    requires PreFrom(p, lines, env).Ok?
    ensures k < |lines| && Faithful(p, f, lines[..k], env)
    ensures PreFrom(p, lines[..k], env).Ok? && FilterFrom(f, lines[..k]).Ok?
    ensures Misjudged(PreFrom(p, lines[..k], env).value.stack, FilterFrom(f, lines[..k]).value.stack, lines[k], env)
    decreases |lines|
  {
    hide Misjudged;
    if Misjudged(p, f, lines[0], env) {
      k := 0;
    } else {
      var ps, fs := PreStep(p, lines[0], env).value, FilterStep(f, lines[0]).value;
      var j := FirstMisjudged(ps.stack, fs.stack, lines[1..], env);
      k := j + 1;
      assert lines[..k][0] == lines[0] && lines[..k][1..] == lines[1..][..j];
    }
  }

  /** Just after a misjudged #elif the original is live and the filter emits nothing. */
  lemma MisjudgedSplits(p: seq<Group>, f: seq<Frame>, q: seq<Group>, line: Line, env: Env)
    requires Related(p, f, q) && Misjudged(p, f, line, env) && PreStep(p, line, env).Ok?
    ensures PreStep(p, line, env).value.out == [] && Live(PreStep(p, line, env).value.stack)
    ensures FilterStep(f, line).Ok? && FilterStep(f, line).value.out == []
    ensures !AllEmit(FilterStep(f, line).value.stack)
  {
    var p0, pt, f0, ft := p[..|p| - 1], p[|p| - 1], f[..|f| - 1], f[|f| - 1];
    assert p == p0 + [pt] && f == f0 + [ft];
    RelatedPush(p0, pt, f0, ft, q);
    RelatedLive(p0, f0, q);
    hide Related;
    MisjudgedStops(f, line);
    MisjudgedLive(p0, pt, line, env);
    hide FilterStep, AllEmit, PreStep, Live;
  }

  /** The original takes the branch. */
  lemma MisjudgedLive(p0: seq<Group>, pt: Group, line: Line, env: Env)
    requires line.Elif? && Holds(line.cond, env) && !pt.taken && Live(p0) && PreStep(p0 + [pt], line, env).Ok?
    ensures PreStep(p0 + [pt], line, env).value.out == [] && Live(PreStep(p0 + [pt], line, env).value.stack)
  {
    assert (p0 + [pt])[..|p0|] == p0;
  }

  /** The filter goes on in a decided frame that emits nothing. */
  lemma MisjudgedStops(f: seq<Frame>, line: Line)
    requires line.Elif? && EvalCond(line.cond).None? && f != [] && f[|f| - 1].known
    ensures FilterStep(f, line).Ok? && FilterStep(f, line).value.out == []
    ensures !AllEmit(FilterStep(f, line).value.stack)
  {
    var t := FilterStep(f, line).value.stack;
    assert |t| == |f| && !t[|f| - 1].emit;
  }

  lemma MisjudgedDiffers(p: seq<Group>, f: seq<Frame>, q: seq<Group>, line: Line, env: Env, text: string)
    requires Related(p, f, q) && Misjudged(p, f, line, env) && PreStep(p, line, env).Ok?
    ensures PreFrom(p, [line, Text(text)], env).Ok? && PreFrom(p, [line, Text(text)], env).value.out == [text]
    ensures FilterFrom(f, [line, Text(text)]).Ok? && FilterFrom(f, [line, Text(text)]).value.out == []
  {
    MisjudgedSplits(p, f, q, line, env);
    hide Related, Misjudged;
    var ps, fs := PreStep(p, line, env).value, FilterStep(f, line).value;
    OneLine(ps.stack, fs.stack, Text(text), env);
    hide PreStep, FilterStep;
    assert [line, Text(text)][1..] == [Text(text)];
    assert [] + [text] == [text];
  }

  lemma OneLine(p: seq<Group>, f: seq<Frame>, line: Line, env: Env)
    ensures PreFrom(p, [line], env) == PreStep(p, line, env)
    ensures FilterFrom(f, [line]) == FilterStep(f, line)
  {
    assert [line][1..] == [];
    var r, u := PreStep(p, line, env), FilterStep(f, line);
    if r.Ok? {
      assert r.value.out + [] == r.value.out;
      assert Then(r.value.out, PreFrom(r.value.stack, [], env)) == r;
    }
    if u.Ok? {
      assert u.value.out + [] == u.value.out;
      assert Then(u.value.out, FilterFrom(u.value.stack, [])) == u;
    }
  }

  /** The exact condition: for a valid text and a consistent environment, filtering and
      preprocessing agree at every point exactly when no undecidable #elif of a
      decided #if is taken for false where it is reached and true. */
  lemma AgreesExactlyWhenFaithful(lines: seq<Line>, env: Env)
    requires Consistent(env) && Preprocess(lines, env).Ok?
    ensures AgreesEverywhere(lines, env) <==> Faithful([], [], lines, env)
  {
    hide Consistent, Related, Misjudged, Agrees;
    if Faithful([], [], lines, env) {
      forall k: nat, text | k <= |lines|
        ensures Agrees(Probe(lines, k, text), env)
      {
        FaithfulPrefix([], [], lines, k, text, env);
        ProbeValid(lines, k, text, env);
        FilterPreserves(Probe(lines, k, text), env);
      }
    } else {
      var k := FirstMisjudged([], [], lines, env);
      Disagrees(lines, k, env);
      assert !Agrees(Probe(lines, k + 1, "x"), env);
    }
  }

  lemma ProbeValid(lines: seq<Line>, k: nat, text: string, env: Env)
    requires Preprocess(lines, env).Ok? && k <= |lines|
    ensures Preprocess(Probe(lines, k, text), env).Ok?
  {
    assert lines == lines[..k] + lines[k..];
    PreConcat([], lines[..k], lines[k..], env);
    PreConcat([], lines[..k], [Text(text)], env);
  }

  lemma Disagrees(lines: seq<Line>, k: nat, env: Env)
    requires Consistent(env) && Preprocess(lines, env).Ok? && k < |lines|
    requires Faithful([], [], lines[..k], env) && PreFrom([], lines[..k], env).Ok? && FilterFrom([], lines[..k]).Ok?
    requires Misjudged(PreFrom([], lines[..k], env).value.stack, FilterFrom([], lines[..k]).value.stack, lines[k], env)
    ensures !Agrees(Probe(lines, k + 1, "x"), env)
  {
    hide Consistent, Misjudged, PreStep, FilterStep, Faithful;
    RunKeepsRelated([], [], [], lines[..k], env);
    hide Related;
    var ps, fs := PreFrom([], lines[..k], env).value, FilterFrom([], lines[..k]).value;
    var qs := PreFrom([], fs.out, env).value;
    assert lines == lines[..k] + lines[k..];
    PreConcat([], lines[..k], lines[k..], env);
    MisjudgedDiffers(ps.stack, fs.stack, qs.stack, lines[k], env, "x");
    assert Probe(lines, k + 1, "x") == lines[..k] + [lines[k], Text("x")];
    PreConcat([], lines[..k], [lines[k], Text("x")], env);
    FilterConcat([], lines[..k], [lines[k], Text("x")]);
    assert fs.out + [] == fs.out;
    assert |ps.out + ["x"]| != |qs.out|;
  }

  /** The filter evaluates this #elif: its #if is decided, and no branch is taken yet. */
  predicate Reaches(f: seq<Frame>, line: Line) {
    && line.Elif? && f != [] && f[|f| - 1].known && !f[|f| - 1].taken
    && AllEmit(f[..|f| - 1])
  }

  /** Whatever the environment, the filter never has to guess: each #elif it reaches in a
      decided #if, with no branch taken yet, is decidable. */
  ghost predicate NeverUndecided(f: seq<Frame>, lines: seq<Line>)
    decreases |lines|
  {
    lines == [] ||
    (&& (Reaches(f, lines[0]) ==> EvalCond(lines[0].cond).Some?)
     && (FilterStep(f, lines[0]).Ok? ==> NeverUndecided(FilterStep(f, lines[0]).value.stack, lines[1..])))
  }

  lemma {:induction false} DecidedRunFaithful(p: seq<Group>, f: seq<Frame>, q: seq<Group>, lines: seq<Line>, env: Env)
    requires Consistent(env) && Related(p, f, q) && PreFrom(p, lines, env).Ok? && NeverUndecided(f, lines)
    ensures Faithful(p, f, lines, env)
    decreases |lines|
  {
    hide Consistent;
    if lines != [] {
      NotMisjudged(p, f, q, lines[0], env);
      hide Related, Misjudged;
      StepKeepsRelated(p, f, q, lines[0], env);
      var ps, fs := PreStep(p, lines[0], env).value, FilterStep(f, lines[0]).value;
      DecidedRunFaithful(ps.stack, fs.stack, PreEmitted(q, fs.out, env).value.stack, lines[1..], env);
    }
  }

  lemma NotMisjudged(p: seq<Group>, f: seq<Frame>, q: seq<Group>, line: Line, env: Env)
    requires Related(p, f, q) && PreStep(p, line, env).Ok? && NeverUndecided(f, [line])
    ensures !Misjudged(p, f, line, env)
  {
    if line.Elif? && p != [] && f[|f| - 1].known {
      RelatedLive(p[..|p| - 1], f[..|f| - 1], q);
    }
  }

  /** So a text whose reached #elifs are all decidable is preserved in every consistent
      environment at once. */
  lemma DecidedTextPreserved(lines: seq<Line>, env: Env)
    requires Consistent(env) && Preprocess(lines, env).Ok? && NeverUndecided([], lines)
    ensures Agrees(lines, env) && AgreesEverywhere(lines, env)
  {
    DecidedRunFaithful([], [], [], lines, env);
    FilterPreserves(lines, env);
    AgreesExactlyWhenFaithful(lines, env);
  }

  const LOST_ELIF: seq<Line> := [If(Bool(false)), Elif(Other("FOO")), Text("A"), Endif]

  /** It can go wrong: an undecidable #elif of a decided #if loses its branch. */
  lemma UndecidedElifLosesText(env: Env)
    requires env.other("FOO")
    ensures Preprocess(LOST_ELIF, env) == Ok(["A"]) && Filter(LOST_ELIF) == Ok([])
  {
    hide Holds, EvalCond, LOST_ELIF;
    LostElif(env);
    var lines := [If(Bool(false)), Elif(Other("FOO")), Text("A"), Endif];
    LostText(env, lines[0], lines[1], lines);
    LostLines(env, lines[0], lines[1], lines);
  }

  lemma LostElif(env: Env)
    requires env.other("FOO")
    ensures LOST_ELIF == [If(Bool(false)), Elif(Other("FOO")), Text("A"), Endif]
    ensures !Holds(Bool(false), env) && EvalCond(Bool(false)) == Some(false)
    ensures Holds(Other("FOO"), env) && EvalCond(Other("FOO")) == None
  {
  }

  lemma LostText(env: Env, first: Line, second: Line, lines: seq<Line>)
    requires first.If? && !Holds(first.cond, env) && second.Elif? && Holds(second.cond, env)
    requires lines == [first, second, Text("A"), Endif]
    ensures Preprocess(lines, env) == Ok(["A"])
  {
    hide Holds, PreFrom;
    var g1, g2 := [Group(false, false, false)], [Group(true, true, false)];
    assert g1[..0] == [] && [] + g1 == g1 && [] + g2 == g2;
    var third := [Text("A")] + [Endif];
    OneLine(g2, [], Endif, env);
    PreThen(g2, Text("A"), [Endif], env);
    PreThen(g1, second, third, env);
    PreThen([], first, [second] + third, env);
    assert lines == [first] + ([second] + third);
    assert ["A"] + [] == ["A"] && [] + ["A"] == ["A"];
  }

  lemma PreThen(groups: seq<Group>, line: Line, rest: seq<Line>, env: Env)
    requires PreStep(groups, line, env).Ok?
    ensures var s := PreStep(groups, line, env).value;
      PreFrom(groups, [line] + rest, env) == Then(s.out, PreFrom(s.stack, rest, env))
  {
    assert ([line] + rest)[1..] == rest;
  }

  lemma LostLines(env: Env, first: Line, second: Line, lines: seq<Line>)
    requires first.If? && EvalCond(first.cond) == Some(false) && second.Elif? && EvalCond(second.cond) == None
    requires lines == [first, second, Text("A"), Endif]
    ensures Filter(lines) == Ok([])
  {
    hide EvalCond, FilterFrom;
    var fs := [Frame(true, false, false)];
    assert fs[..0] == [] && [] + fs == fs;
    var third := [Text("A")] + [Endif];
    OneLine([], fs, Endif, env);
    FilterSilent(fs, Text("A"), [Endif], fs);
    FilterSilent(fs, second, third, fs);
    FilterSilent([], first, [second] + third, fs);
    assert lines == [first] + ([second] + third);
  }

  /** A line that puts nothing out. */
  lemma FilterSilent(stack: seq<Frame>, line: Line, rest: seq<Line>, now: seq<Frame>)
    requires FilterStep(stack, line) == Ok(Step(now, []))
    ensures FilterFrom(stack, [line] + rest) == FilterFrom(now, rest)
  {
    assert ([line] + rest)[1..] == rest;
    ThenThen<Frame, Line>([], [], FilterFrom(now, rest));
  }

  // The output.

  /** n frames the filter leaves alone. */
  ghost function Untouched(n: nat): seq<Frame> {
    seq(n, i => Frame(false, true, false))
  }

  ghost function UndecidedFrames(f: seq<Frame>): nat {
    if f == [] then 0
    else UndecidedFrames(f[..|f| - 1]) + if f[|f| - 1].known then 0 else 1
  }

  /** Frames left alone have only emitting frames below them, and emit. */
  ghost predicate Settled(f: seq<Frame>)
    decreases |f|
  {
    f == [] || (Settled(f[..|f| - 1]) && (!f[|f| - 1].known ==> f[|f| - 1] == Frame(false, true, false)))
  }

  lemma FramesPush(f: seq<Frame>, ft: Frame)
    ensures UndecidedFrames(f + [ft]) == UndecidedFrames(f) + if ft.known then 0 else 1
    ensures Settled(f + [ft]) <==> Settled(f) && (!ft.known ==> ft == Frame(false, true, false))
  {
    assert (f + [ft])[..|f|] == f;
  }

  /** What a step emits goes through a second filter unchanged. */
  ghost predicate StableStep(f: seq<Frame>, line: Line) {
    FilterStep(f, line).Ok? ==>
      var s := FilterStep(f, line).value;
      && Settled(s.stack)
      && FilterFrom(Untouched(UndecidedFrames(f)), s.out) == Ok(Step(Untouched(UndecidedFrames(s.stack)), s.out))
  }

  lemma OpenIsStable(f: seq<Frame>, line: Line)
    requires Settled(f) && (Opens(line) || line.Text?)
    ensures StableStep(f, line)
  {
    hide EvalCond, Untouched, Settled, UndecidedFrames;
    OneStable(UndecidedFrames(f), line);
    OneLine([], Untouched(UndecidedFrames(f)), line, Env(m => false, m => false));
    if Opens(line) {
      FramesPush(f, FilterStep(f, line).value.stack[|f|]);
    }
  }

  lemma CloseIsStable(f0: seq<Frame>, ft: Frame, line: Line)
    requires Settled(f0 + [ft]) && !Opens(line) && !line.Text?
    ensures StableStep(f0 + [ft], line)
  {
    hide EvalCond, Untouched, Settled, UndecidedFrames;
    var f := f0 + [ft];
    assert f[..|f0|] == f0;
    FramesPush(f0, ft);
    OneStable(UndecidedFrames(f), line);
    OneLine([], Untouched(UndecidedFrames(f)), line, Env(m => false, m => false));
    var r := FilterStep(f, line).value;
    if ft.known && !line.Endif? {
      FramesPush(f0, r.stack[|f0|]);
    }
  }

  lemma EmittedIsStable(f: seq<Frame>, line: Line)
    requires Settled(f)
    ensures StableStep(f, line)
  {
    hide StableStep, Settled;
    if Opens(line) || line.Text? {
      OpenIsStable(f, line);
    } else if f != [] {
      assert f == f[..|f| - 1] + [f[|f| - 1]];
      CloseIsStable(f[..|f| - 1], f[|f| - 1], line);
    } else {
      NothingToClose(line);
    }
  }

  lemma NothingToClose(line: Line)
    requires !Opens(line) && !line.Text?
    ensures StableStep([], line)
  {
  }

  lemma OneStable(n: nat, line: Line)
    ensures var u := Untouched(n);
      && AllEmit(u)
      && (line.Text? ==> FilterStep(u, line) == Ok(Step(u, [line])))
      && (Opens(line) && EvalCond(OpenCond(line)).None? ==> FilterStep(u, line) == Ok(Step(Untouched(n + 1), [line])))
      && (n > 0 && line.Endif? ==> FilterStep(u, line) == Ok(Step(Untouched(n - 1), [line])))
      && (n > 0 && (line.Else? || line.Elif?) ==> FilterStep(u, line) == Ok(Step(u, [line])))
  {
    assert Untouched(n) + [Frame(false, true, false)] == Untouched(n + 1);
    if n > 0 {
      assert Untouched(n)[..n - 1] == Untouched(n - 1);
    }
  }

  lemma {:induction false} RunIsStable(f: seq<Frame>, lines: seq<Line>)
    requires Settled(f) && FilterFrom(f, lines).Ok?
    ensures var s := FilterFrom(f, lines).value;
      FilterFrom(Untouched(UndecidedFrames(f)), s.out) == Ok(Step(Untouched(UndecidedFrames(s.stack)), s.out))
    decreases |lines|
  {
    hide Settled, FilterStep, Untouched, UndecidedFrames;
    if lines != [] {
      var s := FilterStep(f, lines[0]).value;
      EmittedIsStable(f, lines[0]);
      RunIsStable(s.stack, lines[1..]);
      var rest := FilterFrom(s.stack, lines[1..]).value.out;
      FilterConcat(Untouched(UndecidedFrames(f)), s.out, rest);
    }
  }

  /** Filtering twice is filtering once; and a text whose conditionals are all closed is
      filtered to one whose conditionals are all closed. */
  lemma FilterIdempotent(lines: seq<Line>)
    requires Filter(lines).Ok?
    ensures Filter(Filter(lines).value) == Filter(lines)
    ensures FilterFrom([], lines).value.stack == [] ==> FilterFrom([], Filter(lines).value).value.stack == []
  {
    assert Untouched(0) == [];
    RunIsStable([], lines);
  }
}
