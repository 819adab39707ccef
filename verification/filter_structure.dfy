/** What `arch_filter` leaves of a text, read off the text's own structure
    (mcp/hexport/tools/gen_intrin.py, lines 113-147). */
module FilterStructure {
  import opened Options
  import opened ArchFilter

  // -----------------------------------------------------------------------
  // Texts whose conditionals close
  // -----------------------------------------------------------------------

  /** Lines of text and whole conditionals. */
  datatype Doc =
    | End
    | Plain(text: string, rest: Doc)
    | Group(head: Line, body: Doc, more: Branches, rest: Doc)

  /** The branches after the first, up to the #endif. */
  datatype Branches = Close | Branch(head: Line, body: Doc, more: Branches)

  predicate Middle(line: Line) {
    line.Elif? || line.Else?
  }

  predicate Proper(d: Doc) {
    match d
    case End => true
    case Plain(_, rest) => Proper(rest)
    case Group(head, body, more, rest) => Opens(head) && Proper(body) && ProperBranches(more) && Proper(rest)
  }

  predicate ProperBranches(b: Branches) {
    match b
    case Close => true
    case Branch(head, body, more) => Middle(head) && Proper(body) && ProperBranches(more)
  }

  function Flat(d: Doc): seq<Line> {
    match d
    case End => []
    case Plain(t, rest) => [Text(t)] + Flat(rest)
    case Group(head, body, more, rest) => [head] + (Flat(body) + (FlatBranches(more) + Flat(rest)))
  }

  function FlatBranches(b: Branches): seq<Line> {
    match b
    case Close => [Endif]
    case Branch(head, body, more) => [head] + (Flat(body) + FlatBranches(more))
  }

  // -----------------------------------------------------------------------
  // What is kept
  // -----------------------------------------------------------------------

  /** What the known macros say of an opening line. */
  function Verdict(head: Line): Option<bool>
    requires Opens(head)
  {
    match head
    case If(c) => EvalCond(c)
    case Ifdef(m) => if m in KNOWN_MACROS then Some(KNOWN_MACROS[m]) else None
    case Ifndef(m) => if m in KNOWN_MACROS then Some(!KNOWN_MACROS[m]) else None
  }

  /** A conditional that cannot be decided is kept with all its branches; of one that is decided only the
      text of one branch is left, and no directive. */
  function Kept(d: Doc): seq<Line>
    requires Proper(d)
  {
    match d
    case End => []
    case Plain(t, rest) => [Text(t)] + Kept(rest)
    case Group(head, body, more, rest) =>
      (match Verdict(head)
       case None => [head] + Kept(body) + KeptBranches(more)
       case Some(true) => Kept(body)
       case Some(false) => FirstTrue(more)) + Kept(rest)
  }

  function KeptBranches(b: Branches): seq<Line>
    requires ProperBranches(b)
  {
    match b
    case Close => [Endif]
    case Branch(head, body, more) => [head] + Kept(body) + KeptBranches(more)
  }

  /** The branch of the first #elif that is decided for true, or the #else's.  (An #else counts as no
      branch taken, so the source goes on to branches that wrongly follow it.) */
  function FirstTrue(b: Branches): seq<Line>
    requires ProperBranches(b)
  {
    match b
    case Close => []
    case Branch(head, body, more) =>
      if head.Else? then Kept(body) + FirstTrue(more)
      else if EvalCond(head.cond) == Some(true) then Kept(body)
      else FirstTrue(more)
  }

  // -----------------------------------------------------------------------
  // The filter keeps just that
  // -----------------------------------------------------------------------

  lemma FirstStep(stack: seq<Frame>, line: Line, tail: seq<Line>, s: Step<Frame, Line>)
    requires FilterStep(stack, line) == Ok(s)
    ensures FilterFrom(stack, [line] + tail) == Then(s.out, FilterFrom(s.stack, tail))
  {
    assert ([line] + tail)[1..] == tail;
  }

  lemma TopFrame(stack: seq<Frame>, f: Frame)
    ensures AllEmit(stack + [f]) <==> AllEmit(stack) && f.emit
    ensures (stack + [f])[..|stack|] == stack && (stack + [f])[|stack|] == f
  {
    if AllEmit(stack + [f]) {
      assert (stack + [f])[|stack|].emit;
      forall i | 0 <= i < |stack|
        ensures stack[i].emit
      {
        assert (stack + [f])[i].emit;
      }
    }
  }

  lemma OpeningStep(stack: seq<Frame>, head: Line)
    requires Opens(head)
    ensures FilterStep(stack, head) ==
            if !AllEmit(stack) then Ok(Step(stack + [Frame(true, false, false)], []))
            else match Verdict(head)
              case None => Ok(Step(stack + [Frame(false, true, false)], [head]))
              case Some(b) => Ok(Step(stack + [Frame(true, b, b)], []))
  {
    VerdictIs(head);
    hide Verdict, EvalCond;
  }

  lemma VerdictIs(head: Line)
    requires Opens(head)
    ensures Verdict(head) == EvalCond(OpenCond(head))
  {
    if head.Ifndef? {
      assert EvalCond(Defined(head.macroName)) == if head.macroName in KNOWN_MACROS then Some(KNOWN_MACROS[head.macroName]) else None;
    }
  }

  /** A text under frames that all pass lines leaves what is kept of it, and nothing otherwise. */
  lemma {:induction false} FilterDoc(stack: seq<Frame>, d: Doc, tail: seq<Line>)
    requires Proper(d)
    ensures FilterFrom(stack, Flat(d) + tail) == Then(if AllEmit(stack) then Kept(d) else [], FilterFrom(stack, tail))
    decreases d, 1
  {
    hide FilterFrom, FilterStep, Then, AllEmit, Verdict;
    match d {
      case End =>
        assert [] + tail == tail;
        ThenThen([], [], FilterFrom(stack, tail));
      case Plain(t, rest) =>
        Joined([Text(t)], Flat(rest), tail);
        TextStep(stack, t);
        FirstStep(stack, Text(t), Flat(rest) + tail, Step(stack, if AllEmit(stack) then [Text(t)] else []));
        FilterDoc(stack, rest, tail);
        ThenThen(if AllEmit(stack) then [Text(t)] else [], if AllEmit(stack) then Kept(rest) else [], FilterFrom(stack, tail));
        NothingTwice();
      case Group(head, body, more, rest) =>
        var after := Flat(rest) + tail;
        JoinedGroup(head, Flat(body), FlatBranches(more), Flat(rest), tail);
        OpeningStep(stack, head);
        FilterDoc(stack, rest, tail);
        GroupKept(stack, d, after);
        ThenThen(GroupOut(stack, head, body, more), if AllEmit(stack) then Kept(rest) else [], FilterFrom(stack, tail));
        NothingTwice();
    }
  }

  /** What is left of one conditional. */
  function GroupOut(stack: seq<Frame>, head: Line, body: Doc, more: Branches): seq<Line>
    requires Opens(head) && Proper(body) && ProperBranches(more)
  {
    if !AllEmit(stack) then []
    else match Verdict(head)
      case None => [head] + Kept(body) + KeptBranches(more)
      case Some(true) => Kept(body)
      case Some(false) => FirstTrue(more)
  }

  lemma Joined<T>(x: seq<T>, y: seq<T>, z: seq<T>)
    ensures (x + y) + z == x + (y + z)
  {
  }

  lemma NothingTwice()
    ensures var none: seq<Line> := []; none + none == none
  {
  }

  lemma JoinedGroup(head: Line, body: seq<Line>, more: seq<Line>, rest: seq<Line>, tail: seq<Line>)
    ensures ([head] + (body + (more + rest))) + tail == [head] + (body + (more + (rest + tail)))
  {
  }

  lemma TextStep(stack: seq<Frame>, t: string)
    ensures FilterStep(stack, Text(t)) == Ok(Step(stack, if AllEmit(stack) then [Text(t)] else []))
  {
  }

  lemma {:induction false} GroupKept(stack: seq<Frame>, d: Doc, after: seq<Line>)
    requires d.Group? && Proper(d)
    ensures FilterFrom(stack, [d.head] + (Flat(d.body) + (FlatBranches(d.more) + after)))
         == Then(GroupOut(stack, d.head, d.body, d.more), FilterFrom(stack, after))
    decreases d, 0
  {
    var head, body, more := d.head, d.body, d.more;
    hide FilterFrom, FilterStep, Then, AllEmit, Verdict, Kept, KeptBranches, FirstTrue, Flat, FlatBranches;
    OpeningStep(stack, head);
    var s := FilterStep(stack, head).value;
    var f := s.stack[|stack|];
    TopFrame(stack, f);
    var lines := FlatBranches(more) + after;
    FirstStep(stack, head, Flat(body) + lines, s);
    FilterDoc(s.stack, body, lines);
    var first := if AllEmit(s.stack) then Kept(body) else [];
    if f.known {
      FilterDecided(stack, f, more, after);
      var second := if AllEmit(stack) && !f.taken then FirstTrue(more) else [];
      ThenThen(first, second, FilterFrom(stack, after));
      ThenThen(s.out, first + second, FilterFrom(stack, after));
      assert s.out + (first + second) == GroupOut(stack, head, body, more);
    } else {
      FilterUndecided(stack, f, more, after);
      ThenThen(first, KeptBranches(more), FilterFrom(stack, after));
      ThenThen(s.out, first + KeptBranches(more), FilterFrom(stack, after));
      assert s.out + (first + KeptBranches(more)) == GroupOut(stack, head, body, more);
    }
  }

  /** The branches of a conditional that is kept. */
  lemma {:induction false} FilterUndecided(stack: seq<Frame>, f: Frame, more: Branches, after: seq<Line>)
    requires ProperBranches(more) && AllEmit(stack) && !f.known && f.emit
    ensures FilterFrom(stack + [f], FlatBranches(more) + after) == Then(KeptBranches(more), FilterFrom(stack, after))
    decreases more, 0
  {
    hide FilterFrom, Then, AllEmit, Kept, Flat;
    TopFrame(stack, f);
    match more {
      case Close => FirstStep(stack + [f], Endif, after, Step(stack, [Endif]));
      case Branch(head, body, rest) =>
        JoinedGroup(head, Flat(body), FlatBranches(rest), [], after);
        assert FlatBranches(rest) + [] == FlatBranches(rest) && [] + after == after;
        FirstStep(stack + [f], head, Flat(body) + (FlatBranches(rest) + after), Step(stack + [f], [head]));
        FilterDoc(stack + [f], body, FlatBranches(rest) + after);
        FilterUndecided(stack, f, rest, after);
        ThenThen(Kept(body), KeptBranches(rest), FilterFrom(stack, after));
        ThenThen([head], Kept(body) + KeptBranches(rest), FilterFrom(stack, after));
        Joined([head], Kept(body), KeptBranches(rest));
    }
  }

  /** What a directive does to a decided conditional's frame. */
  lemma DecidedStep(stack: seq<Frame>, f: Frame, head: Line)
    requires Middle(head) && f.known
    ensures var live := AllEmit(stack) && !f.taken && (head.Else? || EvalCond(head.cond) == Some(true));
      FilterStep(stack + [f], head) == Ok(Step(stack + [Frame(true, live, f.taken || (live && head.Elif?))], []))
  {
    TopFrame(stack, f);
    hide AllEmit, EvalCond;
  }

  /** The branches of one that is decided. */
  lemma {:induction false} FilterDecided(stack: seq<Frame>, f: Frame, more: Branches, after: seq<Line>)
    requires ProperBranches(more) && f.known
    ensures FilterFrom(stack + [f], FlatBranches(more) + after)
         == Then(if AllEmit(stack) && !f.taken then FirstTrue(more) else [], FilterFrom(stack, after))
    decreases more, 0
  {
    hide FilterFrom, Then, AllEmit, Kept, Flat, EvalCond;
    TopFrame(stack, f);
    match more {
      case Close =>
        FirstStep(stack + [f], Endif, after, Step(stack, []));
      case Branch(head, body, rest) =>
        JoinedGroup(head, Flat(body), FlatBranches(rest), [], after);
        assert FlatBranches(rest) + [] == FlatBranches(rest) && [] + after == after;
        DecidedStep(stack, f, head);
        hide FilterStep;
        var live := AllEmit(stack) && !f.taken && (head.Else? || EvalCond(head.cond) == Some(true));
        var g := Frame(true, live, f.taken || (live && head.Elif?));
        TopFrame(stack, g);
        FirstStep(stack + [f], head, Flat(body) + (FlatBranches(rest) + after), Step(stack + [g], []));
        FilterDoc(stack + [g], body, FlatBranches(rest) + after);
        FilterDecided(stack, g, rest, after);
        var first := if live then Kept(body) else [];
        var second := if AllEmit(stack) && !g.taken then FirstTrue(rest) else [];
        ThenThen(first, second, FilterFrom(stack, after));
        ThenThen([], first + second, FilterFrom(stack, after));
        assert first + [] == first && [] + second == second;
        assert [] + (first + second) == if AllEmit(stack) && !f.taken then FirstTrue(more) else [];
    }
  }

  /** The filter of a text is what is kept of its structure. */
  lemma FilterKeeps(d: Doc)
    requires Proper(d)
    ensures Filter(Flat(d)) == Ok(Kept(d))
  {
    FilterDoc([], d, []);
    assert Flat(d) + [] == Flat(d) && Kept(d) + [] == Kept(d);
  }

  // -----------------------------------------------------------------------
  // Every text whose conditionals close has such a structure
  // -----------------------------------------------------------------------

  /** Within n open conditionals, these lines close them all and every one they open. */
  predicate Closes(n: nat, lines: seq<Line>)
    decreases |lines|
  {
    if lines == [] then n == 0
    else if lines[0].Text? then Closes(n, lines[1..])
    else if Opens(lines[0]) then Closes(n + 1, lines[1..])
    else n > 0 && Closes(if lines[0].Endif? then n - 1 else n, lines[1..])
  }

  /** Reads up to the first directive that belongs to a conditional opened before. */
  lemma {:induction false} ReadDoc(n: nat, lines: seq<Line>) returns (d: Doc, rest: seq<Line>)
    requires Closes(n, lines)
    ensures Proper(d) && lines == Flat(d) + rest && |rest| <= |lines| && Closes(n, rest)
    ensures if rest == [] then n == 0 else n > 0 && (Middle(rest[0]) || rest[0].Endif?)
    decreases |lines|, 1
  {
    if lines == [] || Middle(lines[0]) || lines[0].Endif? {
      d, rest := End, lines;
    } else if lines[0].Text? {
      var e;
      e, rest := ReadDoc(n, lines[1..]);
      d := Plain(lines[0].text, e);
      Joined([lines[0]], Flat(e), rest);
      assert lines == [lines[0]] + lines[1..];
    } else {
      var body, inner := ReadDoc(n + 1, lines[1..]);
      var more, outer := ReadBranches(n + 1, inner);
      var e;
      e, rest := ReadDoc(n, outer);
      d := Doc.Group(lines[0], body, more, e);
      JoinedGroup(lines[0], Flat(body), FlatBranches(more), Flat(e), rest);
      assert lines == [lines[0]] + lines[1..];
    }
  }

  lemma {:induction false} ReadBranches(n: nat, lines: seq<Line>) returns (b: Branches, rest: seq<Line>)
    requires n > 0 && Closes(n, lines) && lines != [] && (Middle(lines[0]) || lines[0].Endif?)
    ensures ProperBranches(b) && lines == FlatBranches(b) + rest && |rest| < |lines| && Closes(n - 1, rest)
    decreases |lines|, 0
  {
    assert lines == [lines[0]] + lines[1..];
    if lines[0].Endif? {
      b, rest := Close, lines[1..];
    } else {
      var body, inner := ReadDoc(n, lines[1..]);
      var more;
      more, rest := ReadBranches(n, inner);
      b := Branch(lines[0], body, more);
      JoinedGroup(lines[0], Flat(body), FlatBranches(more), [], rest);
      assert FlatBranches(more) + [] == FlatBranches(more) && [] + rest == rest;
    }
  }

  /** So for every text whose conditionals close the filter succeeds and keeps what its structure says. */
  lemma ClosedTextKept(lines: seq<Line>) returns (d: Doc)
    requires Closes(0, lines)
    ensures Proper(d) && Flat(d) == lines && Filter(lines) == Ok(Kept(d))
  {
    var rest;
    d, rest := ReadDoc(0, lines);
    assert Flat(d) + [] == Flat(d);
    FilterKeeps(d);
  }

  /** Within n open conditionals, no line goes on or closes where nothing is open. */
  predicate Matched(n: nat, lines: seq<Line>)
    decreases |lines|
  {
    if lines == [] then true
    else if lines[0].Text? then Matched(n, lines[1..])
    else if Opens(lines[0]) then Matched(n + 1, lines[1..])
    else n > 0 && Matched(if lines[0].Endif? then n - 1 else n, lines[1..])
  }

  lemma {:induction false} MatchedFrom(stack: seq<Frame>, lines: seq<Line>)
    ensures FilterFrom(stack, lines).Ok? <==> Matched(|stack|, lines)
    ensures FilterFrom(stack, lines).Ok? ==> (FilterFrom(stack, lines).value.stack == [] <==> Closes(|stack|, lines))
    decreases |lines|
  {
    if lines != [] {
      StackDepth(stack, lines[0]);
      hide FilterStep;
      if FilterStep(stack, lines[0]).Ok? {
        MatchedFrom(FilterStep(stack, lines[0]).value.stack, lines[1..]);
      }
    }
  }

  lemma StackDepth(stack: seq<Frame>, line: Line)
    ensures FilterStep(stack, line).Failed? <==> !line.Text? && !Opens(line) && stack == []
    ensures FilterStep(stack, line).Ok? ==>
              |FilterStep(stack, line).value.stack|
              == (if Opens(line) then |stack| + 1 else if line.Endif? then |stack| - 1 else |stack|)
  {
    hide AllEmit, EvalCond;
  }

  /** The filter fails exactly on a text that goes on or closes where nothing is open. */
  lemma FailsExactly(lines: seq<Line>)
    ensures Filter(lines).Failed? <==> !Matched(0, lines)
  {
    MatchedFrom([], lines);
  }

  // -----------------------------------------------------------------------
  // What preprocessing makes of the structure
  // -----------------------------------------------------------------------

  /** No branch follows an #else. */
  predicate ElseLast(d: Doc) {
    match d
    case End => true
    case Plain(_, rest) => ElseLast(rest)
    case Group(_, body, more, rest) => ElseLast(body) && ElseLastAmong(more) && ElseLast(rest)
  }

  predicate ElseLastAmong(b: Branches) {
    match b
    case Close => true
    case Branch(head, body, more) => (head.Else? ==> more == Close) && ElseLast(body) && ElseLastAmong(more)
  }

  predicate OpeningHolds(head: Line, env: Env)
    requires Opens(head)
  {
    match head
    case If(c) => Holds(c, env)
    case Ifdef(m) => env.isDefined(m)
    case Ifndef(m) => !env.isDefined(m)
  }

  /** The lines of each conditional's first branch that holds. */
  function LiveText(d: Doc, env: Env): seq<string>
    requires Proper(d)
  {
    match d
    case End => []
    case Plain(t, rest) => [t] + LiveText(rest, env)
    case Group(head, body, more, rest) =>
      (if OpeningHolds(head, env) then LiveText(body, env) else LiveBranch(more, env)) + LiveText(rest, env)
  }

  function LiveBranch(b: Branches, env: Env): seq<string>
    requires ProperBranches(b)
  {
    match b
    case Close => []
    case Branch(head, body, more) =>
      if head.Else? || Holds(head.cond, env) then LiveText(body, env) else LiveBranch(more, env)
  }

  lemma FirstPreStep(groups: seq<ArchFilter.Group>, line: Line, tail: seq<Line>, env: Env, s: Step<ArchFilter.Group, string>)
    requires PreStep(groups, line, env) == Ok(s)
    ensures PreFrom(groups, [line] + tail, env) == Then(s.out, PreFrom(s.stack, tail, env))
  {
    assert ([line] + tail)[1..] == tail;
  }

  lemma TopGroup(groups: seq<ArchFilter.Group>, g: ArchFilter.Group)
    ensures Live(groups + [g]) == g.live
    ensures (groups + [g])[..|groups|] == groups && (groups + [g])[|groups|] == g
  {
  }

  lemma PreOpening(groups: seq<ArchFilter.Group>, head: Line, env: Env)
    requires Opens(head)
    ensures var v := Live(groups) && OpeningHolds(head, env);
      PreStep(groups, head, env) == Ok(Step(groups + [ArchFilter.Group(v, v || !Live(groups), false)], []))
  {
    if head.Ifndef? {
      assert Holds(Defined(head.macroName), env) == env.isDefined(head.macroName);
    }
  }

  lemma {:induction false} PreDoc(groups: seq<ArchFilter.Group>, d: Doc, tail: seq<Line>, env: Env)
    requires Proper(d) && ElseLast(d)
    ensures PreFrom(groups, Flat(d) + tail, env) == Then(if Live(groups) then LiveText(d, env) else [], PreFrom(groups, tail, env))
    decreases d, 1
  {
    hide PreFrom, PreStep, Then, Live, OpeningHolds, Holds;
    match d {
      case End =>
        assert [] + tail == tail;
        ThenThen([], [], PreFrom(groups, tail, env));
      case Plain(t, rest) =>
        Joined([Text(t)], Flat(rest), tail);
        PreText(groups, t, env);
        FirstPreStep(groups, Text(t), Flat(rest) + tail, env, Step(groups, if Live(groups) then [t] else []));
        PreDoc(groups, rest, tail, env);
        ThenThen(if Live(groups) then [t] else [], if Live(groups) then LiveText(rest, env) else [], PreFrom(groups, tail, env));
        NoTextTwice();
      case Group(head, body, more, rest) =>
        var after := Flat(rest) + tail;
        JoinedGroup(head, Flat(body), FlatBranches(more), Flat(rest), tail);
        PreDoc(groups, rest, tail, env);
        PreGroup(groups, d, after, env);
        ThenThen(GroupText(groups, d, env), if Live(groups) then LiveText(rest, env) else [], PreFrom(groups, tail, env));
        NoTextTwice();
    }
  }

  lemma NoTextTwice()
    ensures var none: seq<string> := []; none + none == none
  {
  }

  lemma PreText(groups: seq<ArchFilter.Group>, t: string, env: Env)
    ensures PreStep(groups, Text(t), env) == Ok(Step(groups, if Live(groups) then [t] else []))
  {
  }

  function GroupText(groups: seq<ArchFilter.Group>, d: Doc, env: Env): seq<string>
    requires d.Group? && Proper(d)
  {
    if !Live(groups) then []
    else if OpeningHolds(d.head, env) then LiveText(d.body, env)
    else LiveBranch(d.more, env)
  }

  lemma {:induction false} PreGroup(groups: seq<ArchFilter.Group>, d: Doc, after: seq<Line>, env: Env)
    requires d.Group? && Proper(d) && ElseLast(d)
    ensures PreFrom(groups, [d.head] + (Flat(d.body) + (FlatBranches(d.more) + after)), env)
         == Then(GroupText(groups, d, env), PreFrom(groups, after, env))
    decreases d, 0
  {
    hide PreFrom, PreStep, Then, Live, OpeningHolds, LiveText, LiveBranch, Flat, FlatBranches;
    PreOpening(groups, d.head, env);
    var v := Live(groups) && OpeningHolds(d.head, env);
    var g := ArchFilter.Group(v, v || !Live(groups), false);
    TopGroup(groups, g);
    var lines := FlatBranches(d.more) + after;
    FirstPreStep(groups, d.head, Flat(d.body) + lines, env, Step(groups + [g], []));
    PreDoc(groups + [g], d.body, lines, env);
    PreBranches(groups, g, d.more, after, env);
    var first := if v then LiveText(d.body, env) else [];
    var second := if g.taken then [] else LiveBranch(d.more, env);
    ThenThen(first, second, PreFrom(groups, after, env));
    ThenThen([], first + second, PreFrom(groups, after, env));
    assert [] + (first + second) == GroupText(groups, d, env);
  }

  lemma {:induction false} PreBranches(groups: seq<ArchFilter.Group>, g: ArchFilter.Group, more: Branches, after: seq<Line>, env: Env)
    requires ProperBranches(more) && ElseLastAmong(more) && (g.sawElse ==> more == Close)
    ensures PreFrom(groups + [g], FlatBranches(more) + after, env)
         == Then(if g.taken then [] else LiveBranch(more, env), PreFrom(groups, after, env))
    decreases more, 0
  {
    hide PreFrom, Then, Live, LiveText, Flat, Holds;
    TopGroup(groups, g);
    match more {
      case Close => FirstPreStep(groups + [g], Endif, after, env, Step(groups, []));
      case Branch(head, body, rest) =>
        JoinedGroup(head, Flat(body), FlatBranches(rest), [], after);
        assert FlatBranches(rest) + [] == FlatBranches(rest) && [] + after == after;
        var v := !g.taken && (head.Else? || Holds(head.cond, env));
        var h := ArchFilter.Group(v, head.Else? || g.taken || v, head.Else?);
        TopGroup(groups, h);
        FirstPreStep(groups + [g], head, Flat(body) + (FlatBranches(rest) + after), env, Step(groups + [h], []));
        hide PreStep;
        PreDoc(groups + [h], body, FlatBranches(rest) + after, env);
        PreBranches(groups, h, rest, after, env);
        var first := if v then LiveText(body, env) else [];
        var second := if h.taken then [] else LiveBranch(rest, env);
        ThenThen(first, second, PreFrom(groups, after, env));
        ThenThen([], first + second, PreFrom(groups, after, env));
        assert [] + (first + second) == if g.taken then [] else LiveBranch(more, env);
    }
  }

  /** Preprocessing keeps the lines of each conditional's first branch that holds. */
  lemma PreprocessKeeps(d: Doc, env: Env)
    requires Proper(d) && ElseLast(d)
    ensures Preprocess(Flat(d), env) == Ok(LiveText(d, env))
  {
    PreDoc([], d, [], env);
    assert Flat(d) + [] == Flat(d) && LiveText(d, env) + [] == LiveText(d, env);
  }

  // -----------------------------------------------------------------------
  // What is not in the output, of any text
  // -----------------------------------------------------------------------

  predicate Undecided(line: Line) {
    Opens(line) ==> Verdict(line).None?
  }

  lemma OutputLine(stack: seq<Frame>, line: Line)
    requires FilterStep(stack, line).Ok?
    ensures forall k :: 0 <= k < |FilterStep(stack, line).value.out| ==> Undecided(FilterStep(stack, line).value.out[k])
  {
    if Opens(line) {
      OpeningStep(stack, line);
    }
    hide AllEmit, EvalCond, Verdict;
  }

  lemma {:induction false} OutputFrom(stack: seq<Frame>, lines: seq<Line>)
    requires FilterFrom(stack, lines).Ok?
    ensures forall k :: 0 <= k < |FilterFrom(stack, lines).value.out| ==> Undecided(FilterFrom(stack, lines).value.out[k])
    decreases |lines|
  {
    hide FilterStep, Undecided;
    if lines != [] {
      OutputLine(stack, lines[0]);
      OutputFrom(FilterStep(stack, lines[0]).value.stack, lines[1..]);
    }
  }

  /** No conditional the known macros decide is left in the output. */
  lemma OutputUndecided(lines: seq<Line>)
    requires Filter(lines).Ok?
    ensures forall line :: line in Filter(lines).value && Opens(line) ==> Verdict(line).None?
  {
    OutputFrom([], lines);
    forall line | line in Filter(lines).value && Opens(line)
      ensures Verdict(line).None?
    {
      var k :| 0 <= k < |Filter(lines).value| && Filter(lines).value[k] == line;
      assert Undecided(Filter(lines).value[k]);
    }
  }

  predicate AllKnown(stack: seq<Frame>) {
    forall i :: 0 <= i < |stack| ==> stack[i].known
  }

  lemma DecidedLine(stack: seq<Frame>, line: Line)
    requires AllKnown(stack) && FilterStep(stack, line).Ok? && (Opens(line) ==> Verdict(line).Some?)
    ensures var s := FilterStep(stack, line).value;
      AllKnown(s.stack) && forall k :: 0 <= k < |s.out| ==> s.out[k].Text?
  {
    hide AllEmit, EvalCond;
    if Opens(line) {
      OpeningStep(stack, line);
    }
  }

  lemma {:induction false} DecidedFrom(stack: seq<Frame>, lines: seq<Line>)
    requires AllKnown(stack) && FilterFrom(stack, lines).Ok?
    requires forall i :: 0 <= i < |lines| && Opens(lines[i]) ==> Verdict(lines[i]).Some?
    ensures forall k :: 0 <= k < |FilterFrom(stack, lines).value.out| ==> FilterFrom(stack, lines).value.out[k].Text?
    decreases |lines|
  {
    hide FilterStep, Verdict, AllKnown;
    if lines != [] {
      DecidedLine(stack, lines[0]);
      DecidedFrom(FilterStep(stack, lines[0]).value.stack, lines[1..]);
    }
  }

  /** A text whose openings are all decidable comes out as plain text. */
  lemma DecidedTextIsPlain(lines: seq<Line>)
    requires Filter(lines).Ok? && forall i :: 0 <= i < |lines| && Opens(lines[i]) ==> Verdict(lines[i]).Some?
    ensures forall line :: line in Filter(lines).value ==> line.Text?
  {
    DecidedFrom([], lines);
    hide FilterFrom, Verdict;
    forall line | line in Filter(lines).value
      ensures line.Text?
    {
      var k :| 0 <= k < |Filter(lines).value| && Filter(lines).value[k] == line;
    }
  }
}
