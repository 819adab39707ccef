/** Disassembly in pages: the server's half (mcp/hexport/src/mcp_commands.cpp, lines 366-467) and the
    two client loops that put the pages together (ida_mcp_export.py, lines 643-666 and 681-787). */
module Paging {
  import opened Options
  import opened Selections

  datatype Result<T> = Ok(value: T) | Err(error: FetchError)

  datatype FetchError = NoAssembly | InvalidCursor

  /** One item of a function's listing: an instruction or something else, such as data. */
  datatype Head<L> = Head(code: bool, line: L)

  /** Where the client is told to go on. */
  datatype Cursor = Done | Next(offset: int)

  datatype Reply<L> = NoFunction | Page(lines: seq<L>, cursor: Cursor)

  const MAX_PAGE := 50000

  /** The instructions of a listing, in order. */
  function Code<L>(heads: seq<Head<L>>): (r: seq<L>)
    ensures |r| <= |heads|
  {
    if heads == [] then []
    else
      var n := |heads| - 1;
      Code(heads[..n]) + if heads[n].code then [heads[n].line] else []
  }

  /** Just the instructions, each once. */
  lemma {:induction false} CodeInOrder<L>(heads: seq<Head<L>>) returns (at: seq<nat>)
    ensures Selects(heads, (h: Head<L>) => if h.code then Some(h.line) else None, Code(heads), at)
  {
    if heads == [] {
      at := [];
    } else {
      at := CodeInOrder(heads[..|heads| - 1]);
      at := SelectsMore(heads, (h: Head<L>) => if h.code then Some(h.line) else None, Code(heads[..|heads| - 1]), at);
    }
  }

  function Min(x: int, y: int): int { if x < y then x else y }

  function Max(x: int, y: int): int { if x < y then y else x }

  // -----------------------------------------------------------------------
  // The server
  // -----------------------------------------------------------------------

  /** The page is the slice of the code that the offset and the size name, and `more` says whether
      any code lies behind it. */
  method BuildDisasm<L>(heads: seq<Head<L>>, size: int, offset: int) returns (lines: seq<L>, more: bool, emitted: int)
    ensures var code := Code(heads);
      var first := Min(Max(offset, 0), |code|);
      && lines == code[first..Min(first + Max(size, 0), |code|)]
      && more == (first + Max(size, 0) < |code|)
    ensures emitted == |lines|
  {
    more := false;
    var idx := 0;
    emitted, lines := 0, [];
    var h := 0;
    ghost var first, done := Max(offset, 0), [];
    while h < |heads|
      invariant 0 <= h <= |heads| && !more
      invariant done == Code(heads[..h]) && idx == |done| && emitted == |lines|
      invariant lines == done[Min(first, idx)..] && |lines| <= Max(size, 0)
    {
      CodeStep(heads, h);
      hide Code;
      if heads[h].code {
        PageStep(done, heads[h].line, first, lines);
        if idx < offset {
          idx := idx + 1;
        } else {
          if emitted >= size {
            more := true;
            CodePrefix(heads, h + 1);
            PageCut(Code(heads), done, heads[h].line, first, size, lines);
            return;
          }
          lines := lines + [heads[h].line];
          emitted := emitted + 1;
          idx := idx + 1;
        }
        done := done + [heads[h].line];
      }
      h := h + 1;
    }
    assert heads[..h] == heads;
  }

  /** The page is full when one more instruction comes. */
  lemma PageCut<L>(code: seq<L>, done: seq<L>, line: L, first: nat, size: int, lines: seq<L>)
    requires done + [line] <= code && first <= |done| && lines == done[first..] && size <= |lines| <= Max(size, 0)
    ensures first + Max(size, 0) < |code| && lines == code[first..first + Max(size, 0)]
  {
    assert done == code[..|done|];
  }

  /** One more instruction: the page grows once it has begun. */
  lemma PageStep<L>(code: seq<L>, line: L, first: nat, lines: seq<L>)
    requires lines == code[Min(first, |code|)..]
    ensures (code + [line])[Min(first, |code| + 1)..] == if |code| < first then [] else lines + [line]
    ensures |code| < first ==> lines == []
  {
  }

  lemma CodeStep<L>(heads: seq<Head<L>>, h: nat)
    requires h < |heads|
    ensures Code(heads[..h + 1]) == Code(heads[..h]) + if heads[h].code then [heads[h].line] else []
  {
    assert heads[..h + 1][..h] == heads[..h];
  }

  lemma {:induction false} CodePrefix<L>(heads: seq<Head<L>>, h: nat)
    requires h <= |heads|
    ensures Code(heads[..h]) <= Code(heads)
    decreases |heads| - h
  {
    if h == |heads| {
      assert heads[..h] == heads;
    } else {
      CodeStep(heads, h);
      CodePrefix(heads, h + 1);
    }
  }

  function Clamped(size: int): (page: int)
    ensures 0 < page <= MAX_PAGE
  {
    if size <= 0 || size > MAX_PAGE then MAX_PAGE else size
  }

  /** The tool. A size outside 1..50000 means 50000. */
  method Disasm<L>(heads: Option<seq<Head<L>>>, size: int, offset: int) returns (reply: Reply<L>)
    ensures reply == Answer(heads, size, offset)
    ensures reply.Page? ==> |reply.lines| <= if 1 <= size <= 50000 then size else 50000
    ensures reply.Page? && reply.cursor.Next? ==> |reply.lines| == if 1 <= size <= 50000 then size else 50000
  {
    if heads.None? { return NoFunction; }
    var lines, more, n := BuildDisasm(heads.value, Clamped(size), offset);
    reply := Page(lines, if more then Next(offset + n) else Done);
    assert more ==> n == Clamped(size);
  }

  /** The reply as a function of the listing: what a client may rely on. */
  function Answer<L>(heads: Option<seq<Head<L>>>, size: int, offset: int): Reply<L> {
    if heads.None? then NoFunction
    else
      var code := Code(heads.value);
      var first := Min(Max(offset, 0), |code|);
      var end := first + Clamped(size);
      if end < |code| then Page(code[first..end], Next(offset + Clamped(size)))
      else Page(code[first..], Done)
  }

  /** A page that starts inside the code joins on to the code before it, and reaches the end or is a
      whole page long. */
  lemma PageAt<L>(heads: seq<Head<L>>, code: seq<L>, size: int, offset: int, reply: Reply<L>)
    requires code == Code(heads) && reply == Answer(Some(heads), size, offset)
    requires 0 <= offset <= |code|
    ensures reply.Page? && offset + |reply.lines| <= |code|
    ensures code[..offset] + reply.lines == code[..offset + |reply.lines|]
    ensures reply.cursor.Done? ==> code[..offset + |reply.lines|] == code && |code| <= offset + Clamped(size)
    ensures reply.cursor.Next? ==> reply.cursor.offset == offset + |reply.lines| < |code| && |reply.lines| == Clamped(size)
  {
  }

  // -----------------------------------------------------------------------
  // The client: the whole listing
  // -----------------------------------------------------------------------

  /** Lines as text, in order; an instruction with a label takes more than one line of text. */
  function Rendered<L>(render: L -> seq<string>, lines: seq<L>): seq<string> {
    if lines == [] then []
    else Rendered(render, lines[..|lines| - 1]) + render(lines[|lines| - 1])
  }

  lemma {:induction false} RenderedConcat<L>(render: L -> seq<string>, xs: seq<L>, ys: seq<L>)
    ensures Rendered(render, xs + ys) == Rendered(render, xs) + Rendered(render, ys)
    decreases |ys|
  {
    if ys == [] {
      assert xs + ys == xs;
    } else {
      var n := |ys| - 1;
      assert (xs + ys)[..|xs| + n] == xs + ys[..n];
      RenderedConcat(render, xs, ys[..n]);
    }
  }

  /** The offsets asked for so far and the next one: a page apart from zero on, all inside the code. */
  ghost predicate PageApart(offsets: seq<int>, next: int, page: int, length: int) {
    && (forall i :: 0 <= i < |offsets| ==> offsets[i] == if i == 0 then 0 else offsets[i - 1] + page)
    && (forall i :: 0 < i < |offsets| ==> offsets[i] < length)
    && next == (if offsets == [] then 0 else offsets[|offsets| - 1] + page)
  }

  /** As many pages as the listing takes, and no more. */
  ghost predicate PagesCover(offsets: seq<int>, page: int, length: int) {
    offsets != [] && offsets[|offsets| - 1] + page >= length
    && PageApart(offsets, offsets[|offsets| - 1] + page, page, length)
  }

  /** How far the client has come: the text of everything before `offset`, by pages so far. */
  ghost predicate Fetched<L>(render: L -> seq<string>, code: seq<L>, page: int, output: seq<string>, offsets: seq<int>, offset: int) {
    && 0 <= offset <= |code| && (if offsets == [] then offset == 0 else 0 < offset < |code|)
    && output == Rendered(render, code[..offset])
    && PageApart(offsets, offset, page, |code|)
  }

  lemma FetchedStart<L>(render: L -> seq<string>, code: seq<L>, page: int)
    ensures Fetched(render, code, page, [], [], 0)
  {
  }

  lemma PageMore(offsets: seq<int>, offset: int, page: int, length: int)
    requires PageApart(offsets, offset, page, length) && (offsets == [] || offset < length)
    ensures PageApart(offsets + [offset], offset + page, page, length)
  {
  }

  lemma FetchedMore<L>(render: L -> seq<string>, code: seq<L>, page: int, output: seq<string>, offsets: seq<int>, offset: int, lines: seq<L>)
    requires page > 0 && Fetched(render, code, page, output, offsets, offset)
    requires |lines| == page && offset + page < |code| && code[..offset] + lines == code[..offset + page]
    ensures Fetched(render, code, page, output + Rendered(render, lines), offsets + [offset], offset + page)
  {
    RenderedConcat(render, code[..offset], lines);
    PageMore(offsets, offset, page, |code|);
    hide Rendered, PageApart;
  }

  lemma FetchedLast<L>(render: L -> seq<string>, code: seq<L>, page: int, output: seq<string>, offsets: seq<int>, offset: int, lines: seq<L>)
    requires Fetched(render, code, page, output, offsets, offset)
    requires code[..offset] + lines == code && |code| <= offset + page
    ensures output + Rendered(render, lines) == Rendered(render, code)
    ensures PagesCover(offsets + [offset], page, |code|)
  {
    PageMore(offsets, offset, page, |code|);
    RenderedConcat(render, code[..offset], lines);
    hide Rendered, PageApart;
  }

  /** For every page size the client gets the listing whole, each instruction once and in order, and
      it never meets a cursor it would refuse. It asks for as many pages as the code takes. */
  method FetchFullDisasm<L>(heads: Option<seq<Head<L>>>, size: int, render: L -> seq<string>)
    returns (r: Result<seq<string>>, ghost offsets: seq<int>)
    ensures heads.None? ==> r == Err(NoAssembly)
    ensures heads.Some? ==> r == Ok(Rendered(render, Code(heads.value)))
    ensures heads.Some? ==> PagesCover(offsets, Clamped(size), |Code(heads.value)|)
  {
    ghost var code := if heads.Some? then Code(heads.value) else [];
    ghost var page := Clamped(size);
    var offset := 0;
    var output: seq<string> := [];
    offsets := [];
    FetchedStart(render, code, page);
    hide Code, Answer, Clamped, PagesCover, Rendered, Fetched;
    while true
      invariant Fetched(render, code, page, output, offsets, offset)
      decreases |code| - offset
    {
      var reply := Disasm(heads, size, offset);
      FetchedTurn(heads, render, code, output, offsets, offset, size, reply);
      if reply.NoFunction? { return Err(NoAssembly), offsets; }
      output := output + Rendered(render, reply.lines);
      offsets := offsets + [offset];
      match reply.cursor {
        case Done =>
          return Ok(output), offsets;
        case Next(next) =>
          if next <= offset { return Err(InvalidCursor), offsets; }
          offset := next;
      }
    }
  }

  lemma NoPage<L>(size: int, offset: int)
    ensures Answer<L>(None, size, offset) == NoFunction
  {
  }

  /** One turn of the client's loop. */
  lemma FetchedTurn<L>(heads: Option<seq<Head<L>>>, render: L -> seq<string>, code: seq<L>, output: seq<string>, offsets: seq<int>,
                       offset: int, size: int, reply: Reply<L>)
    requires code == (if heads.Some? then Code(heads.value) else []) && reply == Answer(heads, size, offset)
    requires Fetched(render, code, Clamped(size), output, offsets, offset)
    ensures heads.None? <==> reply.NoFunction?
    ensures reply.Page? && reply.cursor.Done? ==>
              output + Rendered(render, reply.lines) == Rendered(render, code)
              && PagesCover(offsets + [offset], Clamped(size), |code|)
    ensures reply.Page? && reply.cursor.Next? ==>
              offset < reply.cursor.offset <= |code|
              && Fetched(render, code, Clamped(size), output + Rendered(render, reply.lines), offsets + [offset], reply.cursor.offset)
  {
    hide Code, Answer, Clamped, PagesCover, Rendered, PageApart;
    if heads.None? {
      NoPage<L>(size, offset);
    } else {
      PageAt(heads.value, code, size, offset, reply);
      hide Fetched;
      if reply.cursor.Done? {
        FetchedLast(render, code, Clamped(size), output, offsets, offset, reply.lines);
      } else {
        FetchedMore(render, code, Clamped(size), output, offsets, offset, reply.lines);
      }
    }
  }

  // -----------------------------------------------------------------------
  // The client: direct transfers out of a function
  // -----------------------------------------------------------------------

  datatype Kind = Call | TailJump

  /** A direct call or jump as the instruction text names it, and where it stands. */
  datatype Transfer = Transfer(kind: Kind, operand: string, at: string)

  datatype Edge<K> = Edge(kind: Kind, target: K, at: string)

  /** Reading an instruction and naming a function are the client's regular expressions and the
      server's lookup. `fold` lowers the case of an operand. */
  datatype Reader<!L, !K> = Reader(
    transfer: L -> Option<Transfer>,
    fold: string -> string,
    resolve: string -> Option<K>,
    current: K)

  function Key<L, K>(reader: Reader<L, K>, t: Transfer): (Kind, string) {
    (t.kind, reader.fold(t.operand))
  }

  /** A new transfer for the candidates: one they do not already hold under its key. */
  function AddCandidate<L, K>(reader: Reader<L, K>, cands: seq<Transfer>, line: L): seq<Transfer> {
    var t := reader.transfer(line);
    if t.None? || t.value.operand == "" || (exists i :: 0 <= i < |cands| && Key(reader, cands[i]) == Key(reader, t.value)) then cands
    else cands + [t.value]
  }

  function Candidates<L, K>(reader: Reader<L, K>, lines: seq<L>): seq<Transfer> {
    if lines == [] then []
    else AddCandidate(reader, Candidates(reader, lines[..|lines| - 1]), lines[|lines| - 1])
  }

  predicate Names<L, K>(reader: Reader<L, K>, line: L, t: Transfer) {
    t.operand != "" && reader.transfer(line) == Some(t)
  }

  /** The i-th line is the first to name a transfer under its key. */
  ghost predicate FirstNamed<L, K>(reader: Reader<L, K>, lines: seq<L>, t: Transfer, i: nat) {
    && i < |lines| && Names(reader, lines[i], t)
    && forall j, u :: 0 <= j < i && Names(reader, lines[j], u) ==> Key(reader, u) != Key(reader, t)
  }

  /** A candidate is the first transfer under its key. */
  lemma {:induction false} CandidateIsFirst<L, K>(reader: Reader<L, K>, lines: seq<L>, t: Transfer) returns (i: nat)
    requires t in Candidates(reader, lines)
    ensures FirstNamed(reader, lines, t, i)
  {
    var n := |lines| - 1;
    var before := Candidates(reader, lines[..n]);
    if t in before {
      i := CandidateIsFirst(reader, lines[..n], t);
      assert forall j :: 0 <= j < i ==> lines[j] == lines[..n][j];
    } else {
      i := n;
      forall j, u | 0 <= j < n && Names(reader, lines[j], u)
        ensures Key(reader, u) != Key(reader, t)
      {
        assert lines[j] == lines[..n][j];
        var c := CandidateFor(reader, lines[..n], j, u);
      }
    }
  }

  /** Every key named has its candidate. */
  lemma {:induction false} CandidateFor<L, K>(reader: Reader<L, K>, lines: seq<L>, i: nat, u: Transfer) returns (c: Transfer)
    requires i < |lines| && Names(reader, lines[i], u)
    ensures c in Candidates(reader, lines) && Key(reader, c) == Key(reader, u)
  {
    var n := |lines| - 1;
    var before := Candidates(reader, lines[..n]);
    if i < n {
      c := CandidateFor(reader, lines[..n], i, u);
    } else if exists k :: 0 <= k < |before| && Key(reader, before[k]) == Key(reader, u) {
      var k :| 0 <= k < |before| && Key(reader, before[k]) == Key(reader, u);
      c := before[k];
    } else {
      c := u;
    }
  }

  ghost predicate KeysDiffer<L, K>(reader: Reader<L, K>, cands: seq<Transfer>) {
    forall i, j :: 0 <= i < j < |cands| ==> Key(reader, cands[i]) != Key(reader, cands[j])
  }

  /** No two candidates share a key. */
  lemma {:induction false} CandidatesDiffer<L, K>(reader: Reader<L, K>, lines: seq<L>)
    ensures KeysDiffer(reader, Candidates(reader, lines))
  {
    if lines != [] {
      CandidatesDiffer(reader, lines[..|lines| - 1]);
    }
  }

  /** A candidate that resolves becomes an edge, unless it is a jump inside the function or repeats an
      edge. */
  function AddTarget<L, K(==)>(reader: Reader<L, K>, edges: seq<Edge<K>>, t: Transfer): seq<Edge<K>> {
    var target := reader.resolve(t.operand);
    if target.None? || (t.kind == TailJump && target.value == reader.current) then edges
    else if exists i :: 0 <= i < |edges| && edges[i].kind == t.kind && edges[i].target == target.value then edges
    else edges + [Edge(t.kind, target.value, t.at)]
  }

  function Targets<L, K(==)>(reader: Reader<L, K>, cands: seq<Transfer>): seq<Edge<K>> {
    if cands == [] then []
    else AddTarget(reader, Targets(reader, cands[..|cands| - 1]), cands[|cands| - 1])
  }

  ghost predicate LeadsTo<L, K>(reader: Reader<L, K>, t: Transfer, kind: Kind, target: K) {
    t.kind == kind && reader.resolve(t.operand) == Some(target) && !(kind == TailJump && target == reader.current)
  }

  ghost predicate HasEdge<K>(edges: seq<Edge<K>>, kind: Kind, target: K) {
    exists i :: 0 <= i < |edges| && edges[i].kind == kind && edges[i].target == target
  }

  ghost predicate EdgesDiffer<K>(edges: seq<Edge<K>>) {
    forall i, j :: 0 <= i < j < |edges| ==> edges[i].kind != edges[j].kind || edges[i].target != edges[j].target
  }

  /** An edge is there exactly when some candidate leads to its target, and once. */
  lemma {:induction false} TargetsAre<L, K>(reader: Reader<L, K>, cands: seq<Transfer>, kind: Kind, target: K)
    ensures EdgesDiffer(Targets(reader, cands))
    ensures HasEdge(Targets(reader, cands), kind, target) <==> exists t :: t in cands && LeadsTo(reader, t, kind, target)
  {
    if cands != [] {
      var n := |cands| - 1;
      var before := Targets(reader, cands[..n]);
      var after := Targets(reader, cands);
      TargetsAre(reader, cands[..n], kind, target);
      assert cands == cands[..n] + [cands[n]];
      assert forall t :: t in cands <==> t in cands[..n] || t == cands[n];
      assert forall i :: 0 <= i < |before| ==> after[i] == before[i];
      if HasEdge(before, kind, target) {
        var i :| 0 <= i < |before| && before[i].kind == kind && before[i].target == target;
        assert after[i] == before[i];
      }
      if LeadsTo(reader, cands[n], kind, target) && !HasEdge(before, kind, target) {
        assert after[|before|] == Edge(kind, target, cands[n].at);
      }
    }
  }

  function DirectEdges<L, K(==)>(reader: Reader<L, K>, lines: seq<L>): seq<Edge<K>> {
    Targets(reader, Candidates(reader, lines))
  }

  /** Some instruction transfers directly to that function. */
  ghost predicate Transfers<L, K>(reader: Reader<L, K>, lines: seq<L>, kind: Kind, target: K) {
    exists i, t :: 0 <= i < |lines| && Names(reader, lines[i], t) && LeadsTo(reader, t, kind, target)
  }

  /** Some instruction does whose operand is the first of its kind to be spelled so, case aside. */
  ghost predicate FirstTransfers<L, K>(reader: Reader<L, K>, lines: seq<L>, kind: Kind, target: K) {
    exists i: nat, t :: FirstNamed(reader, lines, t, i) && LeadsTo(reader, t, kind, target)
  }

  /** A first transfer under its key is a candidate. */
  lemma FirstIsCandidate<L, K>(reader: Reader<L, K>, lines: seq<L>, t: Transfer, i: nat)
    requires FirstNamed(reader, lines, t, i)
    ensures t in Candidates(reader, lines)
  {
    var c := CandidateFor(reader, lines, i, t);
    var j := CandidateIsFirst(reader, lines, c);
  }

  /** Exactly which edges are found: those some first transfer leads to. */
  lemma EdgesAreFirstTransfers<L, K>(reader: Reader<L, K>, lines: seq<L>, kind: Kind, target: K)
    ensures HasEdge(DirectEdges(reader, lines), kind, target) <==> FirstTransfers(reader, lines, kind, target)
  {
    var cands := Candidates(reader, lines);
    TargetsAre(reader, cands, kind, target);
    if HasEdge(DirectEdges(reader, lines), kind, target) {
      var t :| t in cands && LeadsTo(reader, t, kind, target);
      var i := CandidateIsFirst(reader, lines, t);
    }
    if FirstTransfers(reader, lines, kind, target) {
      var i: nat, t :| FirstNamed(reader, lines, t, i) && LeadsTo(reader, t, kind, target);
      FirstIsCandidate(reader, lines, t, i);
    }
  }

  lemma FirstNamedStays<L, K>(reader: Reader<L, K>, lines: seq<L>, n: nat, t: Transfer, i: nat)
    requires n <= |lines| && FirstNamed(reader, lines[..n], t, i)
    ensures FirstNamed(reader, lines, t, i)
  {
    assert forall j :: 0 <= j <= i ==> lines[j] == lines[..n][j];
  }

  lemma FirstNamedOnce<L, K>(reader: Reader<L, K>, lines: seq<L>, t: Transfer, i: nat, j: nat)
    requires FirstNamed(reader, lines, t, i) && FirstNamed(reader, lines, t, j)
    ensures i == j
  {
    var key := Key(reader, t);
    assert Names(reader, lines[i], t) && Names(reader, lines[j], t);
  }

  /** The candidates stand in the order of the instructions that first name them. */
  lemma {:induction false} CandidatesInOrder<L, K>(reader: Reader<L, K>, lines: seq<L>) returns (at: seq<nat>)
    ensures var cands := Candidates(reader, lines);
      |at| == |cands| && Rising(at) && forall k :: 0 <= k < |cands| ==> FirstNamed(reader, lines, cands[k], at[k])
    decreases |lines|
  {
    var cands := Candidates(reader, lines);
    if lines == [] {
      at := [];
    } else {
      var n := |lines| - 1;
      var before := Candidates(reader, lines[..n]);
      at := CandidatesInOrder(reader, lines[..n]);
      var kept := at;
      forall k | 0 <= k < |before|
        ensures FirstNamed(reader, lines, before[k], kept[k]) && kept[k] < n
      {
        FirstNamedStays(reader, lines, n, before[k], kept[k]);
      }
      if cands != before {
        var t := cands[|before|];
        assert cands == before + [t];
        LastIsFirst(reader, lines, t);
        hide FirstNamed, Candidates;
        RisingMore(at, n);
        at := at + [n];
      }
    }
  }

  /** A candidate that comes with the last line is first named there. */
  lemma LastIsFirst<L, K>(reader: Reader<L, K>, lines: seq<L>, t: Transfer)
    requires lines != []
    requires Candidates(reader, lines) == Candidates(reader, lines[..|lines| - 1]) + [t]
    ensures FirstNamed(reader, lines, t, |lines| - 1)
  {
    var n := |lines| - 1;
    var before := Candidates(reader, lines[..n]);
    assert Candidates(reader, lines) == AddCandidate(reader, before, lines[n]) && Candidates(reader, lines) != before;
    assert Candidates(reader, lines)[|before|] == t;
    assert Names(reader, lines[n], t);
    forall j, u | 0 <= j < n && Names(reader, lines[j], u)
      ensures Key(reader, u) != Key(reader, t)
    {
      assert lines[j] == lines[..n][j];
      var c := CandidateFor(reader, lines[..n], j, u);
    }
  }

  /** The edge that the k-th of these candidates leads to, as the first of them. */
  ghost predicate EdgeOf<L, K>(reader: Reader<L, K>, cands: seq<Transfer>, e: Edge<K>, k: nat) {
    && k < |cands| && LeadsTo(reader, cands[k], e.kind, e.target) && e.at == cands[k].at
    && forall h :: 0 <= h < k ==> !LeadsTo(reader, cands[h], e.kind, e.target)
  }

  /** The edges stand in the order of the candidates that first lead to them. */
  lemma {:induction false} TargetsInOrder<L, K>(reader: Reader<L, K>, cands: seq<Transfer>) returns (from: seq<nat>)
    ensures var edges := Targets(reader, cands);
      |from| == |edges| && Rising(from) && forall k :: 0 <= k < |edges| ==> EdgeOf(reader, cands, edges[k], from[k])
    decreases |cands|
  {
    var edges := Targets(reader, cands);
    if cands == [] {
      from := [];
    } else {
      var n := |cands| - 1;
      var before := Targets(reader, cands[..n]);
      from := TargetsInOrder(reader, cands[..n]);
      var kept := from;
      forall k | 0 <= k < |before|
        ensures EdgeOf(reader, cands, before[k], kept[k]) && kept[k] < n
      {
        assert EdgeOf(reader, cands[..n], before[k], kept[k]);
        assert forall h :: 0 <= h < n ==> cands[h] == cands[..n][h];
      }
      if edges != before {
        var e := edges[|before|];
        assert edges == before + [e] && LeadsTo(reader, cands[n], e.kind, e.target) && e.at == cands[n].at;
        TargetsAre(reader, cands[..n], e.kind, e.target);
        forall h | 0 <= h < n
          ensures !LeadsTo(reader, cands[h], e.kind, e.target)
        {
          assert cands[..n][h] in cands[..n];
        }
        assert EdgeOf(reader, cands, e, n);
        hide EdgeOf, Targets;
        RisingMore(from, n);
        from := from + [n];
      }
    }
  }

  /** The i-th line first names a transfer that leads to the edge's target and stands where the edge says,
      and no line before it does. */
  ghost predicate FirstLeads<L, K>(reader: Reader<L, K>, lines: seq<L>, e: Edge<K>, i: nat) {
    && (exists t :: FirstNamed(reader, lines, t, i) && LeadsTo(reader, t, e.kind, e.target) && e.at == t.at)
    && forall j: nat, t :: j < i && FirstNamed(reader, lines, t, j) ==> !LeadsTo(reader, t, e.kind, e.target)
  }

  /** The edges come in instruction order, each with the place of the first instruction that first names an
      operand leading to its target. */
  lemma EdgesInOrder<L, K>(reader: Reader<L, K>, lines: seq<L>) returns (at: seq<nat>)
    ensures var edges := DirectEdges(reader, lines);
      |at| == |edges| && Rising(at) && forall k :: 0 <= k < |edges| ==> FirstLeads(reader, lines, edges[k], at[k])
  {
    var cands := Candidates(reader, lines);
    var edges := Targets(reader, cands);
    var named := CandidatesInOrder(reader, lines);
    var from := TargetsInOrder(reader, cands);
    assert forall k :: 0 <= k < |from| ==> EdgeOf(reader, cands, edges[k], from[k]);
    at := seq(|from|, k requires 0 <= k < |from| => if from[k] < |named| then named[from[k]] else 0);
    forall k | 0 <= k < |edges|
      ensures FirstLeads(reader, lines, edges[k], at[k])
    {
      hide FirstNamed, Candidates, Targets, LeadsTo;
      var c := cands[from[k]];
      assert FirstNamed(reader, lines, c, at[k]) && LeadsTo(reader, c, edges[k].kind, edges[k].target) && edges[k].at == c.at;
      forall j: nat, t | j < at[k] && FirstNamed(reader, lines, t, j)
        ensures !LeadsTo(reader, t, edges[k].kind, edges[k].target)
      {
        FirstIsCandidate(reader, lines, t, j);
        var h :| 0 <= h < |cands| && cands[h] == t;
        FirstNamedOnce(reader, lines, t, j, named[h]);
        assert h < from[k];
      }
    }
  }

  /** Every function an instruction of the listing transfers to has an edge. */
  ghost predicate NothingMissed<L, K(!new)>(reader: Reader<L, K>, lines: seq<L>) {
    forall kind, target :: Transfers(reader, lines, kind, target) ==> HasEdge(DirectEdges(reader, lines), kind, target)
  }

  /** Whatever an operand leads to, the first spelling of some operand of that kind leads there too. */
  ghost predicate SpellingsAgree<L, K>(reader: Reader<L, K>, lines: seq<L>) {
    forall i, t :: 0 <= i < |lines| && Names(reader, lines[i], t) && Leads(reader, t) ==>
      FirstTransfers(reader, lines, t.kind, reader.resolve(t.operand).value)
  }

  /** The operand names a function, and not by a jump inside this one. */
  predicate Leads<L, K(==)>(reader: Reader<L, K>, t: Transfer) {
    var target := reader.resolve(t.operand);
    target.Some? && !(t.kind == TailJump && target.value == reader.current)
  }

  /** No edge is invented, whatever the operands; and none is missed exactly when the spellings agree,
      which they do when operands that differ only in case name the same function. */
  lemma EdgesAreTransfers<L, K(!new)>(reader: Reader<L, K>, lines: seq<L>)
    ensures forall kind, target :: HasEdge(DirectEdges(reader, lines), kind, target) ==> Transfers(reader, lines, kind, target)
    ensures NothingMissed(reader, lines) <==> SpellingsAgree(reader, lines)
    ensures CaseBlind(reader, lines) ==> SpellingsAgree(reader, lines)
  {
    hide HasEdge, DirectEdges, FirstNamed;
    forall kind, target
      ensures HasEdge(DirectEdges(reader, lines), kind, target) <==> FirstTransfers(reader, lines, kind, target)
      ensures FirstTransfers(reader, lines, kind, target) ==> Transfers(reader, lines, kind, target)
    {
      EdgesAreFirstTransfers(reader, lines, kind, target);
      FirstIsTransfer(reader, lines, kind, target);
    }
    if NothingMissed(reader, lines) {
      forall i, t | 0 <= i < |lines| && Names(reader, lines[i], t) && Leads(reader, t)
        ensures FirstTransfers(reader, lines, t.kind, reader.resolve(t.operand).value)
      {
        assert LeadsTo(reader, t, t.kind, reader.resolve(t.operand).value);
        assert Transfers(reader, lines, t.kind, reader.resolve(t.operand).value);
      }
    }
    if CaseBlind(reader, lines) {
      CaseBlindAgrees(reader, lines);
    }
  }

  lemma FirstIsTransfer<L, K>(reader: Reader<L, K>, lines: seq<L>, kind: Kind, target: K)
    ensures FirstTransfers(reader, lines, kind, target) ==> Transfers(reader, lines, kind, target)
  {
    if FirstTransfers(reader, lines, kind, target) {
      var i: nat, t :| FirstNamed(reader, lines, t, i) && LeadsTo(reader, t, kind, target);
      assert Names(reader, lines[i], t);
    }
  }

  /** Operands of this listing that differ only in case name the same function. */
  ghost predicate CaseBlind<L, K>(reader: Reader<L, K>, lines: seq<L>) {
    forall i, j, t, u :: 0 <= i < |lines| && 0 <= j < |lines| && Names(reader, lines[i], t) && Names(reader, lines[j], u) ==>
      (Key(reader, t) == Key(reader, u) ==> reader.resolve(t.operand) == reader.resolve(u.operand))
  }

  lemma CaseBlindAgrees<L, K>(reader: Reader<L, K>, lines: seq<L>)
    requires CaseBlind(reader, lines)
    ensures SpellingsAgree(reader, lines)
  {
    forall i, t | 0 <= i < |lines| && Names(reader, lines[i], t) && Leads(reader, t)
      ensures FirstTransfers(reader, lines, t.kind, reader.resolve(t.operand).value)
    {
      var c := CandidateFor(reader, lines, i, t);
      var j := CandidateIsFirst(reader, lines, c);
      assert LeadsTo(reader, c, t.kind, reader.resolve(t.operand).value);
    }
  }

  // Without agreement an edge is missed: of two calls whose operands differ only in case the second is
  // never looked up.

  function LowerChar(c: char): char {
    if 'A' <= c <= 'Z' then c + 32 as char else c
  }

  function Lower(s: string): string {
    if s == "" then "" else [LowerChar(s[0])] + Lower(s[1..])
  }

  /** Two functions whose names differ only in case. */
  function TwinReader(): Reader<string, int> {
    Reader(line => Some(Transfer(Call, line, "")), Lower, operand => Some(if operand == "Run" then 1 else 2), 0)
  }

  lemma TwinsFold()
    ensures Lower("Run") == Lower("run") == "run"
  {
    assert "Run"[1..] == "un" && "run"[1..] == "un" && "un"[1..] == "n" && "n"[1..] == "";
    assert Lower("n") == "n" && Lower("un") == "un";
  }

  lemma CaseTwinCandidates()
    ensures Candidates(TwinReader(), ["Run", "run"]) == [Transfer(Call, "Run", "")]
  {
    TwinsFold();
    hide Lower;
    var reader := TwinReader();
    var lines := ["Run", "run"];
    var first := [Transfer(Call, "Run", "")];
    assert lines[..1] == ["Run"] && lines[..1][..0] == [];
    assert Candidates(reader, ["Run"][..0]) == [];
    assert AddCandidate(reader, [], "Run") == first;
    assert Candidates(reader, lines[..1]) == first;
    assert Key(reader, first[0]) == Key(reader, Transfer(Call, "run", ""));
    assert AddCandidate(reader, first, "run") == first;
  }

  lemma CaseTwinIsLost()
    ensures Transfers(TwinReader(), ["Run", "run"], Call, 2)
    ensures !HasEdge(DirectEdges(TwinReader(), ["Run", "run"]), Call, 2)
  {
    var reader := TwinReader();
    CaseTwinCandidates();
    hide Lower;
    TargetsAre(reader, [Transfer(Call, "Run", "")], Call, 2);
    assert Names(reader, ["Run", "run"][1], Transfer(Call, "run", "")) && LeadsTo(reader, Transfer(Call, "run", ""), Call, 2);
  }

  method ResolveTargets<L, K(==)>(reader: Reader<L, K>, cands: seq<Transfer>) returns (edges: seq<Edge<K>>)
    ensures edges == Targets(reader, cands)
  {
    edges := [];
    var c := 0;
    while c < |cands|
      invariant 0 <= c <= |cands|
      invariant edges == Targets(reader, cands[..c])
    {
      assert cands[..c + 1][..c] == cands[..c];
      edges := AddTarget(reader, edges, cands[c]);
      c := c + 1;
    }
    assert cands[..c] == cands;
  }

  /** One page more of candidates. */
  method ReadPage<L, K>(reader: Reader<L, K>, known: seq<Transfer>, lines: seq<L>, ghost before: seq<L>) returns (cands: seq<Transfer>)
    requires known == Candidates(reader, before)
    ensures cands == Candidates(reader, before + lines)
  {
    hide AddCandidate;
    cands := known;
    assert before + lines[..0] == before;
    var i := 0;
    while i < |lines|
      invariant 0 <= i <= |lines|
      invariant cands == Candidates(reader, before + lines[..i])
    {
      assert (before + lines[..i + 1])[..|before| + i] == before + lines[..i];
      cands := AddCandidate(reader, cands, lines[i]);
      i := i + 1;
    }
    assert lines[..i] == lines;
  }

  /** For every page size the edges are those of the whole listing. */
  method FetchDirectCodeEdges<L, K(==)>(heads: Option<seq<Head<L>>>, size: int, reader: Reader<L, K>)
    returns (r: Result<seq<Edge<K>>>)
    ensures heads.None? ==> r == Err(NoAssembly)
    ensures heads.Some? ==> r == Ok(DirectEdges(reader, Code(heads.value)))
  {
    ghost var code := if heads.Some? then Code(heads.value) else [];
    assert Candidates(reader, code[..0]) == [];
    hide Code, Answer, Clamped, Candidates, Targets;
    var offset := 0;
    var cands: seq<Transfer> := [];
    while true
      invariant 0 <= offset <= |code| && (offset == 0 || offset < |code|)
      invariant heads.None? ==> offset == 0
      invariant cands == Candidates(reader, code[..offset])
      decreases |code| - offset
    {
      var reply := Disasm(heads, size, offset);
      if reply.NoFunction? {
        if heads.Some? { PageAt(heads.value, code, size, offset, reply); }
        return Err(NoAssembly);
      }
      if heads.None? { NoPage<L>(size, offset); }
      PageAt(heads.value, code, size, offset, reply);
      cands := ReadPage(reader, cands, reply.lines, code[..offset]);
      match reply.cursor {
        case Done => break;
        case Next(next) =>
          if next <= offset { return Err(InvalidCursor); }
          offset := next;
      }
    }
    var edges := ResolveTargets(reader, cands);
    r := Ok(edges);
  }
}
