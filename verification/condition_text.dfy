/** The whole of `eval_cond` in gen_intrin.py (mcp/hexport/tools/gen_intrin.py, lines 103-110) on the
    text of a condition: how the tests of macros are rewritten, what is let through to the evaluation,
    and what the evaluation makes of it. */
module ConditionText {
  import opened Options
  import opened ArchFilter

  /** A number is its run of 0 and 1 digits; any other constant is a word like a name. */
  datatype Token = Def | Word(id: string) | Open | Close | AndSign | OrSign | NotSign | Number(digits: seq<bool>) | Question

  /** A condition as it is written: constants, `defined X`, `defined(X)`, names, connectives and
      parentheses. */
  datatype Written =
    | Constant(digits: seq<bool>)
    | Bare(name: string)
    | Called(name: string)
    | Name(id: string)
    | Negated(w: Written)
    | Both(l: Written, r: Written)
    | Either(l: Written, r: Written)
    | Paren(w: Written)

  /** Written with the parentheses the precedences of `!`, `&&` and `||` need; chains nest to the right,
      which is all one since both connectives associate. */
  predicate WellWritten(w: Written) {
    match w
    case Constant(ds) => ds != []
    case Negated(v) => WellWritten(v) && !v.Both? && !v.Either?
    case Both(l, r) => WellWritten(l) && WellWritten(r) && !l.Both? && !l.Either? && !r.Either?
    case Either(l, r) => WellWritten(l) && WellWritten(r) && !l.Either?
    case Paren(v) => WellWritten(v)
    case _ => true
  }

  function Tokens(w: Written): seq<Token> {
    match w
    case Constant(ds) => [Number(ds)]
    case Bare(n) => [Def, Word(n)]
    case Called(n) => [Def, Open, Word(n), Close]
    case Name(id) => [Word(id)]
    case Negated(v) => [NotSign] + Tokens(v)
    case Both(l, r) => Tokens(l) + ([AndSign] + Tokens(r))
    case Either(l, r) => Tokens(l) + ([OrSign] + Tokens(r))
    case Paren(v) => [Open] + (Tokens(v) + [Close])
  }

  // -----------------------------------------------------------------------
  // The code
  // -----------------------------------------------------------------------

  /** What a macro name is replaced by. */
  function Replacement(name: string): Token {
    if name in KNOWN_MACROS then Number([KNOWN_MACROS[name]]) else Question
  }

  /** The pattern asks for no end of the word after `defined`, so a longer name that begins with it is
      taken for a test of the rest. */
  predicate Glued(id: string) {
    |id| > 7 && id[..7] == "defined"
  }

  /** The name tested by the text that begins here and what follows it. */
  function TestAt(ts: seq<Token>): (r: Option<(string, seq<Token>)>)
    ensures r.Some? ==> |r.value.1| < |ts|
  {
    if ts == [] then None
    else if ts[0].Word? && Glued(ts[0].id) then Some((ts[0].id[7..], ts[1..]))
    else
      var i := if |ts| > 1 && ts[1] == Open then 2 else 1;
      if ts[0] == Def && i < |ts| && ts[i].Word? then Some((ts[i].id, ts[i + 1..])) else None
  }

  /** A closing parenthesis that comes next is taken too, opened or not. */
  function AfterClose(ts: seq<Token>, takes: bool): (r: seq<Token>)
    ensures |r| <= |ts|
  {
    if takes && ts != [] && ts[0] == Close then ts[1..] else ts
  }

  function Rewrite(ts: seq<Token>): seq<Token>
    decreases |ts|
  {
    if ts == [] then []
    else
      var test := TestAt(ts);
      if test.Some? then [Replacement(test.value.0)] + Rewrite(AfterClose(test.value.1, true))
      else [ts[0]] + Rewrite(ts[1..])
  }

  /** Only what the second pattern lets through to the evaluation. */
  predicate Evaluable(ts: seq<Token>) {
    forall k :: 0 <= k < |ts| ==> ts[k] != Def && !ts[k].Word? && ts[k] != Question
  }

  /** More than one digit, the first 0 and some other 1: not a number to the evaluation. */
  predicate ZeroLed(digits: seq<bool>) {
    |digits| > 1 && !digits[0] && true in digits
  }

  datatype Parse = Parsed(value: bool, rest: seq<Token>) | Bad

  /** The evaluation, which parses first: `or` over `and` over `not` over numbers and parentheses. */
  function EvalOr(ts: seq<Token>): (p: Parse)
    ensures p.Parsed? ==> |p.rest| < |ts|
    decreases |ts|, 3
  {
    match EvalAnd(ts)
    case Bad => Bad
    case Parsed(v, rest) =>
      if rest != [] && rest[0] == OrSign then
        match EvalOr(rest[1..])
        case Bad => Bad
        case Parsed(u, last) => Parsed(v || u, last)
      else Parsed(v, rest)
  }

  function EvalAnd(ts: seq<Token>): (p: Parse)
    ensures p.Parsed? ==> |p.rest| < |ts|
    decreases |ts|, 2
  {
    match EvalNot(ts)
    case Bad => Bad
    case Parsed(v, rest) =>
      if rest != [] && rest[0] == AndSign then
        match EvalAnd(rest[1..])
        case Bad => Bad
        case Parsed(u, last) => Parsed(v && u, last)
      else Parsed(v, rest)
  }

  function EvalNot(ts: seq<Token>): (p: Parse)
    ensures p.Parsed? ==> |p.rest| < |ts|
    decreases |ts|, 1
  {
    if ts != [] && ts[0] == NotSign then
      match EvalNot(ts[1..])
      case Bad => Bad
      case Parsed(v, rest) => Parsed(!v, rest)
    else EvalAtom(ts)
  }

  function EvalAtom(ts: seq<Token>): (p: Parse)
    ensures p.Parsed? ==> |p.rest| < |ts|
    decreases |ts|, 0
  {
    if ts == [] then Bad
    else if ts[0].Number? then
      if ts[0].digits == [] || ZeroLed(ts[0].digits) then Bad else Parsed(true in ts[0].digits, ts[1..])
    else if ts[0] == Open then
      match EvalOr(ts[1..])
      case Bad => Bad
      case Parsed(v, rest) => if rest != [] && rest[0] == Close then Parsed(v, rest[1..]) else Bad
    else Bad
  }

  /** What `eval_cond` comes to. */
  datatype Verdict = Undecided | Raised | Decides(b: bool)

  function EvalText(ts: seq<Token>): Verdict {
    var e := Rewrite(ts);
    if !Evaluable(e) then Undecided
    else
      var p := EvalOr(e);
      if p.Parsed? && p.rest == [] then Decides(p.value) else Raised
  }

  // -----------------------------------------------------------------------
  // What is said of a condition
  // -----------------------------------------------------------------------

  /** The last thing written is a test that takes a closing parenthesis not its own. */
  predicate EndsOpen(w: Written) {
    match w
    case Bare(_) => true
    case Name(id) => Glued(id)
    case Negated(v) => EndsOpen(v)
    case Both(_, r) => EndsOpen(r)
    case Either(_, r) => EndsOpen(r)
    case _ => false
  }

  /** How many parentheses of the condition close right after such a test. */
  function Eaten(w: Written): nat {
    match w
    case Negated(v) => Eaten(v)
    case Both(l, r) => Eaten(l) + Eaten(r)
    case Either(l, r) => Eaten(l) + Eaten(r)
    case Paren(v) => Eaten(v) + if EndsOpen(v) then 1 else 0
    case _ => 0
  }

  /** Every leaf is a constant, or taken for a test of a known macro. */
  predicate Recognised(w: Written) {
    match w
    case Constant(_) => true
    case Bare(n) => n in KNOWN_MACROS
    case Called(n) => n in KNOWN_MACROS
    case Name(id) => Glued(id) && id[7..] in KNOWN_MACROS
    case Negated(v) => Recognised(v)
    case Both(l, r) => Recognised(l) && Recognised(r)
    case Either(l, r) => Recognised(l) && Recognised(r)
    case Paren(v) => Recognised(v)
  }

  predicate HasName(w: Written) {
    match w
    case Name(_) => true
    case Negated(v) => HasName(v)
    case Both(l, r) => HasName(l) || HasName(r)
    case Either(l, r) => HasName(l) || HasName(r)
    case Paren(v) => HasName(v)
    case _ => false
  }

  predicate HasZeroLed(w: Written) {
    match w
    case Constant(ds) => ZeroLed(ds)
    case Negated(v) => HasZeroLed(v)
    case Both(l, r) => HasZeroLed(l) || HasZeroLed(r)
    case Either(l, r) => HasZeroLed(l) || HasZeroLed(r)
    case Paren(v) => HasZeroLed(v)
    case _ => false
  }

  function Value(w: Written): bool
    requires Recognised(w)
  {
    match w
    case Constant(ds) => true in ds
    case Bare(n) => KNOWN_MACROS[n]
    case Called(n) => KNOWN_MACROS[n]
    case Name(id) => KNOWN_MACROS[id[7..]]
    case Negated(v) => !Value(v)
    case Both(l, r) => Value(l) && Value(r)
    case Either(l, r) => Value(l) || Value(r)
    case Paren(v) => Value(v)
  }

  /** The condition's tree: a name is not a test. */
  function Tree(w: Written): Cond {
    match w
    case Constant(ds) => Bool(true in ds)
    case Bare(n) => Defined(n)
    case Called(n) => Defined(n)
    case Name(id) => Other(id)
    case Negated(v) => Not(Tree(v))
    case Both(l, r) => And(Tree(l), Tree(r))
    case Either(l, r) => Or(Tree(l), Tree(r))
    case Paren(v) => Tree(v)
  }

  /** The text with each test replaced by what is known of its macro. */
  function Replaced(w: Written): seq<Token> {
    match w
    case Constant(ds) => [Number(ds)]
    case Bare(n) => [Replacement(n)]
    case Called(n) => [Replacement(n)]
    case Name(id) => if Glued(id) then [Replacement(id[7..])] else [Word(id)]
    case Negated(v) => [NotSign] + Replaced(v)
    case Both(l, r) => Replaced(l) + ([AndSign] + Replaced(r))
    case Either(l, r) => Replaced(l) + ([OrSign] + Replaced(r))
    case Paren(v) => [Open] + (Replaced(v) + [Close])
  }

  predicate Leaf(w: Written) {
    w.Constant? || w.Bare? || w.Called? || w.Name?
  }

  function Sign(w: Written): Token
    requires w.Both? || w.Either?
  {
    if w.Both? then AndSign else OrSign
  }

  // -----------------------------------------------------------------------
  // Rewriting a condition that stands before some other text
  // -----------------------------------------------------------------------

  /** A token that starts no test stays. */
  lemma Stays(t: Token, rest: seq<Token>)
    requires t != Def && !(t.Word? && Glued(t.id))
    ensures Rewrite([t] + rest) == [t] + Rewrite(rest)
  {
    assert ([t] + rest)[1..] == rest;
  }

  lemma LeafRewrites(w: Written, rest: seq<Token>)
    requires Leaf(w)
    ensures |Replaced(w)| == 1 && Rewrite(Tokens(w) + rest) == Replaced(w) + Rewrite(AfterClose(rest, EndsOpen(w)))
  {
    match w {
      case Constant(ds) => Stays(Number(ds), rest);
      case Bare(n) => BareRewrites(n, rest);
      case Called(n) => CalledRewrites(n, rest);
      case Name(id) => assert ([Word(id)] + rest)[1..] == rest;
    }
  }

  lemma BareRewrites(n: string, rest: seq<Token>)
    ensures Rewrite([Def, Word(n)] + rest) == [Replacement(n)] + Rewrite(AfterClose(rest, true))
  {
    assert ([Def, Word(n)] + rest)[2..] == rest;
  }

  lemma CalledRewrites(n: string, rest: seq<Token>)
    ensures Rewrite([Def, Open, Word(n), Close] + rest) == [Replacement(n)] + Rewrite(rest)
  {
    var ts := [Def, Open, Word(n), Close] + rest;
    assert ts[0] == Def && ts[1] == Open && ts[2] == Word(n);
    assert ts[3..] == [Close] + rest;
    AfterCloseIs(Close, rest, true);
    hide AfterClose;
    assert TestAt(ts) == Some((n, ts[3..]));
  }

  lemma AfterCloseIs(t: Token, rest: seq<Token>, takes: bool)
    ensures AfterClose([t] + rest, takes) == if takes && t == Close then rest else [t] + rest
  {
    assert ([t] + rest)[1..] == rest;
  }

  /** The texts a compound condition is made of. */
  lemma Parts(w: Written, rest: seq<Token>)
    requires !Leaf(w)
    ensures w.Negated? ==> Tokens(w) + rest == [NotSign] + (Tokens(w.w) + rest)
    ensures w.Paren? ==> Tokens(w) + rest == [Open] + (Tokens(w.w) + ([Close] + rest))
    ensures w.Both? || w.Either? ==>
              Tokens(w) + rest == Tokens(w.l) + ([Sign(w)] + (Tokens(w.r) + rest))
  {
    if w.Negated? {
      Regroup([NotSign], Tokens(w.w), rest);
    } else if w.Paren? {
      Regroup([Open], Tokens(w.w) + [Close], rest);
      Regroup(Tokens(w.w), [Close], rest);
    } else {
      Regroup(Tokens(w.l), [Sign(w)] + Tokens(w.r), rest);
      Regroup([Sign(w)], Tokens(w.r), rest);
    }
  }

  lemma Regroup<T>(x: seq<T>, y: seq<T>, z: seq<T>)
    ensures (x + y) + z == x + (y + z)
  {
  }

  /** Parentheses opened and not closed. */
  function Depth(ts: seq<Token>): int {
    if ts == [] then 0 else Step(ts[0]) + Depth(ts[1..])
  }

  function Step(t: Token): int {
    if t == Open then 1 else if t == Close then -1 else 0
  }

  lemma DepthFirst(t: Token, rest: seq<Token>)
    ensures Depth([t] + rest) == Step(t) + Depth(rest)
  {
    assert ([t] + rest)[1..] == rest;
  }

  lemma EvaluableFirst(t: Token, ts: seq<Token>)
    ensures Evaluable([t] + ts) <==> t != Def && !t.Word? && t != Question && Evaluable(ts)
  {
    assert forall k :: 0 <= k < |ts| ==> ([t] + ts)[k + 1] == ts[k];
    if Evaluable([t] + ts) {
      assert ([t] + ts)[0] == t;
    }
  }

  /** What rewriting does to the text from a token that stays. */
  lemma ThenStays(t: Token, rest: seq<Token>)
    requires t == Open || t == Close || t == AndSign || t == OrSign || t == NotSign
    ensures Depth(Rewrite([t] + rest)) == Step(t) + Depth(Rewrite(rest))
    ensures Evaluable(Rewrite([t] + rest)) <==> Evaluable(Rewrite(rest))
    ensures Rewrite([t] + rest) == [t] + Rewrite(rest)
  {
    Stays(t, rest);
    DepthFirst(t, Rewrite(rest));
    EvaluableFirst(t, Rewrite(rest));
  }

  lemma LeafSays(w: Written, rest: seq<Token>)
    requires Leaf(w)
    ensures var after := Rewrite(AfterClose(rest, EndsOpen(w)));
      && Depth(Rewrite(Tokens(w) + rest)) == Depth(after)
      && (Evaluable(Rewrite(Tokens(w) + rest)) <==> Recognised(w) && Evaluable(after))
  {
    LeafRewrites(w, rest);
    var after := Rewrite(AfterClose(rest, EndsOpen(w)));
    DepthFirst(Replaced(w)[0], after);
    EvaluableFirst(Replaced(w)[0], after);
  }

  /** Each parenthesis eaten leaves one open, and the evaluation is reached exactly when every leaf is
      recognised, whatever follows. */
  lemma {:induction false} RewriteSays(w: Written, rest: seq<Token>)
    ensures var after := Rewrite(AfterClose(rest, EndsOpen(w)));
      && Depth(Rewrite(Tokens(w) + rest)) == Eaten(w) + Depth(after)
      && (Evaluable(Rewrite(Tokens(w) + rest)) <==> Recognised(w) && Evaluable(after))
  {
    hide Rewrite, Depth, Evaluable, AfterClose;
    if Leaf(w) {
      LeafSays(w, rest);
    } else {
      Parts(w, rest);
      if w.Negated? {
        ThenStays(NotSign, Tokens(w.w) + rest);
        RewriteSays(w.w, rest);
      } else if w.Paren? {
        ThenStays(Open, Tokens(w.w) + ([Close] + rest));
        RewriteSays(w.w, [Close] + rest);
        AfterCloseIs(Close, rest, EndsOpen(w.w));
        TakesNothing([Close] + rest);
        ThenStays(Close, rest);
        TakesNothing(rest);
      } else {
        RewriteSays(w.l, [Sign(w)] + (Tokens(w.r) + rest));
        AfterCloseIs(Sign(w), Tokens(w.r) + rest, EndsOpen(w.l));
        ThenStays(Sign(w), Tokens(w.r) + rest);
        RewriteSays(w.r, rest);
      }
    }
  }

  lemma TakesNothing(ts: seq<Token>)
    ensures AfterClose(ts, false) == ts
  {
  }

  /** With nothing eaten the rewriting is the substitution it is meant to be. */
  lemma {:induction false} RewriteIsSubstitution(w: Written, rest: seq<Token>)
    requires Eaten(w) == 0 && AfterClose(rest, EndsOpen(w)) == rest
    ensures Rewrite(Tokens(w) + rest) == Replaced(w) + Rewrite(rest)
  {
    hide Rewrite, AfterClose, Tokens;
    if Leaf(w) {
      LeafRewrites(w, rest);
    } else {
      Parts(w, rest);
      ReplacedParts(w, Rewrite(rest));
      hide Replaced;
      if w.Negated? {
        ThenStays(NotSign, Tokens(w.w) + rest);
        RewriteIsSubstitution(w.w, rest);
      } else if w.Paren? {
        ThenStays(Open, Tokens(w.w) + ([Close] + rest));
        AfterCloseIs(Close, rest, EndsOpen(w.w));
        TakesNothing([Close] + rest);
        RewriteIsSubstitution(w.w, [Close] + rest);
        ThenStays(Close, rest);
      } else {
        AfterCloseIs(Sign(w), Tokens(w.r) + rest, EndsOpen(w.l));
        RewriteIsSubstitution(w.l, [Sign(w)] + (Tokens(w.r) + rest));
        ThenStays(Sign(w), Tokens(w.r) + rest);
        RewriteIsSubstitution(w.r, rest);
      }
    }
  }

  lemma ReplacedParts(w: Written, rest: seq<Token>)
    requires !Leaf(w)
    ensures w.Negated? ==> Replaced(w) + rest == [NotSign] + (Replaced(w.w) + rest)
    ensures w.Paren? ==> Replaced(w) + rest == [Open] + (Replaced(w.w) + ([Close] + rest))
    ensures w.Both? || w.Either? ==>
              Replaced(w) + rest == Replaced(w.l) + ([Sign(w)] + (Replaced(w.r) + rest))
  {
    if w.Negated? {
      Regroup([NotSign], Replaced(w.w), rest);
    } else if w.Paren? {
      Regroup([Open], Replaced(w.w) + [Close], rest);
      Regroup(Replaced(w.w), [Close], rest);
    } else {
      Regroup(Replaced(w.l), [Sign(w)] + Replaced(w.r), rest);
      Regroup([Sign(w)], Replaced(w.r), rest);
    }
  }

  // -----------------------------------------------------------------------
  // Evaluating
  // -----------------------------------------------------------------------

  /** What parsing a condition before some other text comes to. */
  function Expected(w: Written, rest: seq<Token>): Parse
    requires Recognised(w)
  {
    if HasZeroLed(w) then Bad else Parsed(Value(w), rest)
  }

  predicate StartsWith(ts: seq<Token>, t: Token) {
    ts != [] && ts[0] == t
  }

  lemma EvalLeaf(w: Written, rest: seq<Token>)
    requires Leaf(w) && Recognised(w) && WellWritten(w)
    ensures EvalNot(Replaced(w) + rest) == Expected(w, rest)
  {
    var ts := Replaced(w) + rest;
    assert ts[1..] == rest && ts[0].Number?;
    if !w.Constant? {
      assert |ts[0].digits| == 1 && ts[0].digits[0] == Value(w);
    }
  }

  /** A condition that is no conjunction or disjunction. */
  lemma {:induction false} EvalUnary(w: Written, rest: seq<Token>)
    requires Recognised(w) && WellWritten(w) && !w.Both? && !w.Either?
    ensures EvalNot(Replaced(w) + rest) == Expected(w, rest)
    decreases w, 0
  {
    if Leaf(w) {
      EvalLeaf(w, rest);
    } else {
      ReplacedParts(w, rest);
      hide Replaced;
      var ts := Replaced(w) + rest;
      if w.Negated? {
        EvalUnary(w.w, rest);
        assert ts[1..] == Replaced(w.w) + rest;
      } else {
        EvalAny(w.w, [Close] + rest);
        assert ts[1..] == Replaced(w.w) + ([Close] + rest);
        assert ([Close] + rest)[1..] == rest;
      }
    }
  }

  lemma {:induction false} EvalConjunction(w: Written, rest: seq<Token>)
    requires Recognised(w) && WellWritten(w) && !w.Either? && !StartsWith(rest, AndSign)
    ensures EvalAnd(Replaced(w) + rest) == Expected(w, rest)
    decreases w, 1
  {
    if w.Both? {
      ReplacedParts(w, rest);
      hide Replaced;
      var more := Replaced(w.r) + rest;
      EvalUnary(w.l, [AndSign] + more);
      EvalConjunction(w.r, rest);
      assert ([AndSign] + more)[1..] == more;
      hide EvalNot;
    } else {
      EvalUnary(w, rest);
    }
  }

  /** Any condition, before text that cannot go on with it. */
  lemma {:induction false} EvalAny(w: Written, rest: seq<Token>)
    requires Recognised(w) && WellWritten(w) && !StartsWith(rest, AndSign) && !StartsWith(rest, OrSign)
    ensures EvalOr(Replaced(w) + rest) == Expected(w, rest)
    decreases w, 2
  {
    if w.Either? {
      ReplacedParts(w, rest);
      hide Replaced;
      var more := Replaced(w.r) + rest;
      EvalConjunction(w.l, [OrSign] + more);
      EvalAny(w.r, rest);
      assert ([OrSign] + more)[1..] == more;
      hide EvalAnd;
    } else {
      EvalConjunction(w, rest);
    }
  }

  // A text that is evaluated closes all its parentheses.

  lemma {:induction false} OrBalances(ts: seq<Token>)
    ensures EvalOr(ts).Parsed? ==> Depth(ts) == Depth(EvalOr(ts).rest)
    decreases |ts|, 3
  {
    AndBalances(ts);
    var p := EvalAnd(ts);
    if p.Parsed? && StartsWith(p.rest, OrSign) {
      OrBalances(p.rest[1..]);
    }
  }

  lemma {:induction false} AndBalances(ts: seq<Token>)
    ensures EvalAnd(ts).Parsed? ==> Depth(ts) == Depth(EvalAnd(ts).rest)
    decreases |ts|, 2
  {
    NotBalances(ts);
    var p := EvalNot(ts);
    if p.Parsed? && StartsWith(p.rest, AndSign) {
      AndBalances(p.rest[1..]);
    }
  }

  lemma {:induction false} NotBalances(ts: seq<Token>)
    ensures EvalNot(ts).Parsed? ==> Depth(ts) == Depth(EvalNot(ts).rest)
    decreases |ts|, 1
  {
    if StartsWith(ts, NotSign) {
      NotBalances(ts[1..]);
    } else if StartsWith(ts, Open) {
      OrBalances(ts[1..]);
    }
  }

  // -----------------------------------------------------------------------
  // The verdict on every legal condition
  // -----------------------------------------------------------------------

  lemma WholeText(w: Written)
    ensures Tokens(w) + [] == Tokens(w) && Replaced(w) + [] == Replaced(w)
    ensures AfterClose([], EndsOpen(w)) == [] && Rewrite([]) == [] && Depth([]) == 0 && Evaluable([])
  {
  }

  /** A legal condition is undecided if some leaf is not recognised; otherwise it raises if a closing
      parenthesis follows a test that has none of its own, or a constant of several digits begins with
      0 and is not zero; and otherwise it is decided by what is known. */
  lemma EvalTextIs(w: Written)
    requires WellWritten(w)
    ensures EvalText(Tokens(w)) ==
            if !Recognised(w) then Undecided
            else if Eaten(w) > 0 || HasZeroLed(w) then Raised
            else Decides(Value(w))
  {
    WholeText(w);
    RewriteSays(w, []);
    if Recognised(w) {
      if Eaten(w) > 0 {
        OrBalances(Rewrite(Tokens(w)));
      } else {
        RewriteIsSubstitution(w, []);
        EvalAny(w, []);
      }
    }
    hide Rewrite, Replaced, EvalOr, Evaluable, Tokens;
  }

  /** What the tree of the condition comes to. */
  lemma {:induction false} TreeSays(w: Written)
    ensures EvalCond(Tree(w)) == if Recognised(w) && !HasName(w) then Some(Value(w)) else None
  {
    match w {
      case Negated(v) => TreeSays(v);
      case Both(l, r) => TreeSays(l); TreeSays(r);
      case Either(l, r) => TreeSays(l); TreeSays(r);
      case Paren(v) => TreeSays(v);
      case _ =>
    }
  }

  function OfTree(r: Option<bool>): Verdict {
    match r
    case None => Undecided
    case Some(b) => Decides(b)
  }

  /** The text of a legal condition comes to what its tree does if and only if some leaf is not
      recognised, or no name is taken for a test, no parenthesis eaten and no constant zero-led. */
  lemma TextAgreesExactly(w: Written)
    requires WellWritten(w)
    ensures EvalText(Tokens(w)) == OfTree(EvalCond(Tree(w)))
       <==> !Recognised(w) || (!HasName(w) && Eaten(w) == 0 && !HasZeroLed(w))
  {
    EvalTextIs(w);
    TreeSays(w);
    hide EvalText, Tokens, Tree;
  }

  /** So a text that is decided rightly holds, in every consistent environment, or fails to hold as it
      was decided. */
  lemma DecidedTextHolds(w: Written, env: Env)
    requires WellWritten(w) && Consistent(env) && !HasName(w) && EvalText(Tokens(w)).Decides?
    ensures Holds(Tree(w), env) == EvalText(Tokens(w)).b
  {
    EvalTextIs(w);
    TreeSays(w);
    DecidedHolds(Tree(w), env);
    hide EvalText, Tokens, Tree, Consistent, Holds;
  }

  /** A constant is nonzero when it begins with 1 and zero when all its digits are 0; with a 0 first and
      a 1 after it, it raises. */
  lemma ConstantIs(digits: seq<bool>)
    requires digits != []
    ensures EvalText([Number(digits)]) ==
            if digits[0] then Decides(true)
            else if forall k :: 0 <= k < |digits| ==> !digits[k] then Decides(false)
            else Raised
  {
    EvalTextIs(Constant(digits));
    hide EvalText;
    if digits[0] {
      assert true in digits;
    } else if k :| 0 <= k < |digits| && digits[k] {
      assert true in digits;
    }
  }

  /** A plain name that is a known macro's with `defined` before it is decided as a test of that macro, any
      other left undecided. */
  lemma NameIs(id: string, name: string)
    ensures name in KNOWN_MACROS ==> EvalText([Word("defined" + name)]) == Decides(KNOWN_MACROS[name])
    ensures (forall m :: m in KNOWN_MACROS ==> id != "defined" + m) ==> EvalText([Word(id)]) == Undecided
  {
    hide EvalText;
    if name in KNOWN_MACROS {
      var long := "defined" + name;
      assert long[..7] == "defined" && long[7..] == name;
      NoEmptyMacro();
      EvalTextIs(Name(long));
    }
    EvalTextIs(Name(id));
    if Glued(id) {
      assert id == "defined" + id[7..];
    }
  }

  lemma NoEmptyMacro()
    ensures "" !in KNOWN_MACROS
  {
  }

  // Three legal conditions it does not hold of.

  lemma ParenthesisedTestRaises()
    ensures Tokens(Paren(Bare("_M_X64"))) == [Open, Def, Word("_M_X64"), Close]
    ensures EvalText(Tokens(Paren(Bare("_M_X64")))) == Raised
  {
    EvalTextIs(Paren(Bare("_M_X64")));
    hide EvalText;
  }

  lemma ZeroLedConstantRaises()
    ensures Tokens(Constant([false, true])) == [Number([false, true])]
    ensures EvalText(Tokens(Constant([false, true]))) == Raised
  {
    EvalTextIs(Constant([false, true]));
    hide EvalText;
  }

  /** The name `defined_M_X64` is decided for true, whatever it stands for. */
  lemma LongerNameIsDecided(env: Env)
    ensures EvalText(Tokens(Name("defined_M_X64"))) == Decides(true)
    ensures Holds(Tree(Name("defined_M_X64")), env) == env.other("defined_M_X64")
  {
    var id := "defined_M_X64";
    assert id[..7] == "defined" && id[7..] == "_M_X64";
    EvalTextIs(Name(id));
    hide EvalText;
  }
}
