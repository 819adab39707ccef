/** The bridge between a client and a headless worker that may crash at any moment
    (mcp/hexport/src/bridge.cpp). A worker process answers a request line with one line of its own,
    or dies having written any part of it; the bridge restarts it and tries once more. */
module Bridges {
  import opened Options

  /** A reply a process finished writing: the database it had been started for, the line it was
      handed, and the text it wrote. */
  datatype Exchange = Exchange(db: string, request: string, reply: string)

  /** What the bridge writes to its client. */
  datatype Output = Reply(text: string) | Failure(id: string)

  /** What became of one request: whether it changed the database; how often the process was found
      dead before an attempt, and whether none could be started in its place; how often a process could
      not be written to and how often one was handed the line; how many starts failed in all; and the
      text forwarded, if any. */
  datatype Outcome = Outcome(
    switched: bool, dead: nat, noStart: bool, unwritten: nat, sends: nat, refused: nat, reply: Option<string>)

  const IDLE := Outcome(false, 0, false, 0, 0, 0, None)

  // -----------------------------------------------------------------------
  // What a run owes its client
  // -----------------------------------------------------------------------

  /** Attempts at a request that came to a process: handed the line or not to be written to. */
  function Attempts(o: Outcome): nat {
    o.sends + o.unwritten
  }

  /** Two attempts at most, and never fewer unless the request was answered or a process found dead could
      not be replaced.  A process is looked at before each attempt, and replaced then only if dead. */
  predicate Permitted(line: string, o: Outcome) {
    if line == "" then o == IDLE
    else
      && Attempts(o) <= 2 && o.dead <= Attempts(o) + (if o.noStart then 1 else 0)
      && (o.reply.Some? ==> o.sends >= 1 && !o.noStart)
      && (o.reply.None? && !o.noStart ==> Attempts(o) == 2)
      && (o.noStart ==> o.dead > 0 && o.refused > 0 && Attempts(o) <= 1)
      && o.refused <= Starts(o)
  }

  /** The processes it took: one for a new database, one for each found dead, and one for each that was
      lost on the way, in place of it. */
  function Starts(o: Outcome): nat {
    (if o.switched then 1 else 0) + o.dead + Attempts(o) - if o.reply.Some? && o.sends > 0 then 1 else 0
  }

  function AllStarts(outcomes: seq<Outcome>): nat {
    if outcomes == [] then 0
    else AllStarts(outcomes[..|outcomes| - 1]) + Starts(outcomes[|outcomes| - 1])
  }

  predicate AllPermitted(lines: seq<string>, outcomes: seq<Outcome>) {
    && |lines| == |outcomes|
    && forall i :: 0 <= i < |lines| ==> Permitted(lines[i], outcomes[i])
  }

  /** The database the client last asked for. */
  function Database(wanted: string -> string, first: string, lines: seq<string>): string {
    if lines == [] then first
    else
      var n := |lines| - 1;
      if lines[n] == "" || wanted(lines[n]) == "" then Database(wanted, first, lines[..n])
      else wanted(lines[n])
  }

  /** Whether the last line asks for a database other than the one before it. */
  predicate Switches(wanted: string -> string, first: string, lines: seq<string>)
    requires lines != []
  {
    var n := |lines| - 1;
    lines[n] != "" && wanted(lines[n]) != "" && wanted(lines[n]) != Database(wanted, first, lines[..n])
  }

  predicate AllSwitched(wanted: string -> string, first: string, lines: seq<string>, outcomes: seq<Outcome>) {
    && |lines| == |outcomes|
    && forall i :: 0 <= i < |lines| ==> (outcomes[i].switched <==> Switches(wanted, first, lines[..i + 1]))
  }

  function Written(id: string, line: string, o: Outcome): seq<Output> {
    if o.reply.Some? then [Reply(o.reply.value)]
    else if line != "" && id != "" then [Failure(id)]
    else []
  }

  function AllWritten(idOf: string -> string, lines: seq<string>, outcomes: seq<Outcome>): seq<Output>
    requires |lines| == |outcomes|
  {
    if lines == [] then []
    else
      var n := |lines| - 1;
      AllWritten(idOf, lines[..n], outcomes[..n]) + Written(idOf(lines[n]), lines[n], outcomes[n])
  }

  function Answer(db: string, line: string, o: Outcome): seq<Exchange> {
    if o.reply.Some? then [Exchange(db, line, o.reply.value)] else []
  }

  function AllAnswers(wanted: string -> string, first: string, lines: seq<string>, outcomes: seq<Outcome>): seq<Exchange>
    requires |lines| == |outcomes|
  {
    if lines == [] then []
    else
      var n := |lines| - 1;
      AllAnswers(wanted, first, lines[..n], outcomes[..n]) + Answer(Database(wanted, first, lines), lines[n], outcomes[n])
  }

  function Copies(line: string, n: nat): (s: seq<string>)
    ensures |s| == n && forall k :: 0 <= k < n ==> s[k] == line
  {
    if n == 0 then [] else Copies(line, n - 1) + [line]
  }

  function AllSends(lines: seq<string>, outcomes: seq<Outcome>): seq<string>
    requires |lines| == |outcomes|
  {
    if lines == [] then []
    else
      var n := |lines| - 1;
      AllSends(lines[..n], outcomes[..n]) + Copies(lines[n], outcomes[n].sends)
  }

  /** Starts and writes that failed. */
  function Failures(o: Outcome): nat {
    o.refused + o.unwritten
  }

  function AllFailures(outcomes: seq<Outcome>): nat {
    if outcomes == [] then 0
    else AllFailures(outcomes[..|outcomes| - 1]) + Failures(outcomes[|outcomes| - 1])
  }

  /** The texts among the outputs that are forwarded replies. */
  function Forwarded(output: seq<Output>): seq<string> {
    if output == [] then []
    else
      var last := output[|output| - 1];
      Forwarded(output[..|output| - 1]) + if last.Reply? then [last.text] else []
  }

  function Texts(served: seq<Exchange>): (t: seq<string>)
    ensures |t| == |served|
    ensures forall i :: 0 <= i < |t| ==> t[i] == served[i].reply
  {
    seq(|served|, i requires 0 <= i < |served| => served[i].reply)
  }

  lemma ForwardedStep(before: seq<Output>, id: string, line: string, o: Outcome)
    ensures Forwarded(before + Written(id, line, o))
         == Forwarded(before) + if o.reply.Some? then [o.reply.value] else []
  {
    var now := Written(id, line, o);
    if now == [] {
      assert before + now == before;
    } else {
      assert (before + now)[..|before|] == before;
    }
  }

  lemma TextsStep(before: seq<Exchange>, db: string, line: string, o: Outcome)
    ensures Texts(before + Answer(db, line, o))
         == Texts(before) + if o.reply.Some? then [o.reply.value] else []
  {
  }

  /** Nothing a worker finishes writing is lost, repeated or reordered: the replies forwarded are
      the replies served. */
  lemma {:induction false} ForwardsEveryReply(idOf: string -> string, wanted: string -> string, first: string, lines: seq<string>, outcomes: seq<Outcome>)
    requires |lines| == |outcomes|
    ensures Forwarded(AllWritten(idOf, lines, outcomes)) == Texts(AllAnswers(wanted, first, lines, outcomes))
  {
    hide Written, Answer, Database;
    if lines != [] {
      var n := |lines| - 1;
      ForwardsEveryReply(idOf, wanted, first, lines[..n], outcomes[..n]);
      ForwardedStep(AllWritten(idOf, lines[..n], outcomes[..n]), idOf(lines[n]), lines[n], outcomes[n]);
      TextsStep(AllAnswers(wanted, first, lines[..n], outcomes[..n]), Database(wanted, first, lines), lines[n], outcomes[n]);
    }
  }

  /** The place among the outputs where a request's own line stands. */
  function Place(idOf: string -> string, lines: seq<string>, outcomes: seq<Outcome>, i: nat): nat
    requires |lines| == |outcomes| && i <= |lines|
  {
    |AllWritten(idOf, lines[..i], outcomes[..i])|
  }

  lemma {:induction false} PlaceStep(idOf: string -> string, lines: seq<string>, outcomes: seq<Outcome>, i: nat)
    requires AllPermitted(lines, outcomes) && i < |lines|
    ensures Place(idOf, lines, outcomes, i + 1) == Place(idOf, lines, outcomes, i) + |Written(idOf(lines[i]), lines[i], outcomes[i])|
  {
    assert lines[..i + 1][..i] == lines[..i];
    assert outcomes[..i + 1][..i] == outcomes[..i];
  }

  lemma {:induction false} WrittenExtends(idOf: string -> string, lines: seq<string>, outcomes: seq<Outcome>, i: nat)
    requires AllPermitted(lines, outcomes) && i <= |lines|
    ensures AllWritten(idOf, lines[..i], outcomes[..i]) <= AllWritten(idOf, lines, outcomes)
    decreases |lines|
  {
    if i < |lines| {
      var n := |lines| - 1;
      WrittenExtends(idOf, lines[..n], outcomes[..n], i);
      assert lines[..n][..i] == lines[..i];
      assert outcomes[..n][..i] == outcomes[..i];
    } else {
      assert lines[..i] == lines && outcomes[..i] == outcomes;
    }
  }

  /** Every request that carries an id has exactly one output line, the outputs stand in request
      order, and the line is the forwarded reply or an error naming that id. */
  lemma OneLineEach(idOf: string -> string, lines: seq<string>, outcomes: seq<Outcome>, i: nat)
    requires AllPermitted(lines, outcomes) && i < |lines|
    requires lines[i] != "" && idOf(lines[i]) != ""
    ensures var p := Place(idOf, lines, outcomes, i);
      && Place(idOf, lines, outcomes, i + 1) == p + 1
      && p < |AllWritten(idOf, lines, outcomes)|
      && AllWritten(idOf, lines, outcomes)[p]
         == (if outcomes[i].reply.Some? then Reply(outcomes[i].reply.value) else Failure(idOf(lines[i])))
  {
    PlaceStep(idOf, lines, outcomes, i);
    WrittenExtends(idOf, lines, outcomes, i + 1);
    assert lines[..i + 1][..i] == lines[..i];
    assert outcomes[..i + 1][..i] == outcomes[..i];
  }

  lemma {:induction false} PlacesOrdered(idOf: string -> string, lines: seq<string>, outcomes: seq<Outcome>, i: nat, j: nat)
    requires AllPermitted(lines, outcomes) && i <= j <= |lines|
    ensures Place(idOf, lines, outcomes, i) <= Place(idOf, lines, outcomes, j)
    decreases j - i
  {
    if i < j {
      PlaceStep(idOf, lines, outcomes, i);
      PlacesOrdered(idOf, lines, outcomes, i + 1, j);
    }
  }

  /** Of two requests with ids the earlier has its line first. */
  lemma RequestOrder(idOf: string -> string, lines: seq<string>, outcomes: seq<Outcome>, i: nat, j: nat)
    requires AllPermitted(lines, outcomes) && i < j < |lines|
    requires lines[i] != "" && idOf(lines[i]) != ""
    ensures Place(idOf, lines, outcomes, i) < Place(idOf, lines, outcomes, j)
  {
    OneLineEach(idOf, lines, outcomes, i);
    PlacesOrdered(idOf, lines, outcomes, i + 1, j);
    hide Place, AllWritten;
  }

  /** How far the sends of a run exceed its replies. */
  function Lost(outcomes: seq<Outcome>): int {
    if outcomes == [] then 0
    else
      var o := outcomes[|outcomes| - 1];
      Lost(outcomes[..|outcomes| - 1]) + o.sends - if o.reply.Some? then 1 else 0
  }

  lemma {:induction false} LostCounts(wanted: string -> string, first: string, lines: seq<string>, outcomes: seq<Outcome>)
    requires |lines| == |outcomes|
    ensures Lost(outcomes) == |AllSends(lines, outcomes)| - |AllAnswers(wanted, first, lines, outcomes)|
  {
    hide Database;
    if lines != [] {
      var n := |lines| - 1;
      LostCounts(wanted, first, lines[..n], outcomes[..n]);
    }
  }

  predicate AtFirstSend(line: string, o: Outcome) {
    line != "" ==> o.sends == 1 && Failures(o) == 0 && o.reply.Some?
  }

  lemma LostNothing(line: string, o: Outcome)
    requires Permitted(line, o)
    ensures o.sends >= if o.reply.Some? then 1 else 0
    ensures Failures(o) == 0 && o.sends == (if o.reply.Some? then 1 else 0) <==> AtFirstSend(line, o)
  {
  }

  lemma {:induction false} NothingLost(lines: seq<string>, outcomes: seq<Outcome>)
    requires AllPermitted(lines, outcomes)
    ensures Lost(outcomes) >= 0
    ensures AllFailures(outcomes) == 0 && Lost(outcomes) == 0 <==> forall i :: 0 <= i < |lines| ==> AtFirstSend(lines[i], outcomes[i])
  {
    hide Permitted, AtFirstSend, Failures;
    if lines != [] {
      var n := |lines| - 1;
      NothingLost(lines[..n], outcomes[..n]);
      assert Permitted(lines[n], outcomes[n]);
      LostNothing(lines[n], outcomes[n]);
      assert forall i :: 0 <= i < n ==> lines[..n][i] == lines[i] && outcomes[..n][i] == outcomes[i];
    }
  }

  /** When every process starts, takes what it is handed and answers it, each request is answered
      at its first send; and only then. */
  lemma UntroubledRun(wanted: string -> string, first: string, lines: seq<string>, outcomes: seq<Outcome>)
    requires AllPermitted(lines, outcomes)
    ensures (&& AllFailures(outcomes) == 0
             && |AllSends(lines, outcomes)| == |AllAnswers(wanted, first, lines, outcomes)|)
       <==> forall i :: 0 <= i < |lines| ==> AtFirstSend(lines[i], outcomes[i])
  {
    LostCounts(wanted, first, lines, outcomes);
    NothingLost(lines, outcomes);
  }

  lemma {:induction false} SendsBounded(lines: seq<string>, outcomes: seq<Outcome>)
    requires AllPermitted(lines, outcomes)
    ensures |AllSends(lines, outcomes)| <= 2 * |lines|
  {
    if lines != [] {
      var n := |lines| - 1;
      SendsBounded(lines[..n], outcomes[..n]);
      assert Permitted(lines[n], outcomes[n]);
    }
  }

  lemma SwitchedExtends(wanted: string -> string, first: string, lines: seq<string>, outcomes: seq<Outcome>, o: Outcome)
    requires |lines| == |outcomes| + 1
    ensures AllSwitched(wanted, first, lines[..|outcomes|], outcomes) && (o.switched <==> Switches(wanted, first, lines)) ==>
              AllSwitched(wanted, first, lines, outcomes + [o])
  {
    hide Switches;
    var n, all := |outcomes|, outcomes + [o];
    if AllSwitched(wanted, first, lines[..n], outcomes) && (o.switched <==> Switches(wanted, first, lines)) {
      assert lines[..n + 1] == lines;
      forall i | 0 <= i < |lines|
        ensures all[i].switched <==> Switches(wanted, first, lines[..i + 1])
      {
        if i < n {
          assert lines[..n][..i + 1] == lines[..i + 1];
        }
      }
    }
  }

  /** One more request at the end of a run. */
  lemma Extended(idOf: string -> string, wanted: string -> string, first: string, lines: seq<string>, outcomes: seq<Outcome>, o: Outcome)
    requires |lines| == |outcomes| + 1
    ensures var n := |outcomes|;
      var line, all := lines[n], outcomes + [o];
      && AllWritten(idOf, lines, all) == AllWritten(idOf, lines[..n], outcomes) + Written(idOf(line), line, o)
      && AllAnswers(wanted, first, lines, all) == AllAnswers(wanted, first, lines[..n], outcomes) + Answer(Database(wanted, first, lines), line, o)
      && AllSends(lines, all) == AllSends(lines[..n], outcomes) + Copies(line, o.sends)
      && AllFailures(all) == AllFailures(outcomes) + o.refused + o.unwritten && AllStarts(all) == AllStarts(outcomes) + Starts(o)
      && (AllSwitched(wanted, first, lines[..n], outcomes)
          && (o.switched <==> line != "" && wanted(line) != "" && wanted(line) != Database(wanted, first, lines[..n])) ==>
            AllSwitched(wanted, first, lines, all))
      && Database(wanted, first, lines) == (if line == "" || wanted(line) == "" then Database(wanted, first, lines[..n]) else wanted(line))
      && (AllPermitted(lines[..n], outcomes) && Permitted(line, o) ==> AllPermitted(lines, all))
  {
    hide Permitted, Written, Answer, Copies, Starts, AllSwitched, AllPermitted;
    assert (outcomes + [o])[..|outcomes|] == outcomes;
    SwitchedExtends(wanted, first, lines, outcomes, o);
    PermittedExtends(lines, outcomes, o);
  }

  lemma PermittedExtends(lines: seq<string>, outcomes: seq<Outcome>, o: Outcome)
    requires |lines| == |outcomes| + 1
    ensures AllPermitted(lines[..|outcomes|], outcomes) && Permitted(lines[|outcomes|], o) ==> AllPermitted(lines, outcomes + [o])
  {
    hide Permitted;
  }

  lemma StartOfRun(idOf: string -> string, wanted: string -> string, first: string)
    ensures AllPermitted([], []) && AllWritten(idOf, [], []) == [] && AllAnswers(wanted, first, [], []) == []
    ensures AllSends([], []) == [] && AllFailures([]) == 0 && AllStarts([]) == 0 && Database(wanted, first, []) == first
    ensures AllSwitched(wanted, first, [], [])
  {
  }

  lemma BlankLine(db: string, id: string)
    ensures Permitted("", IDLE) && Written(id, "", IDLE) == [] && Answer(db, "", IDLE) == [] && Copies("", 0) == []
    ensures Failures(IDLE) == 0 == Starts(IDLE) && !IDLE.switched && IDLE.sends == 0
  {
  }

  // -----------------------------------------------------------------------
  // Lines
  // -----------------------------------------------------------------------

  /** The first newline, or the length when there is none. */
  function NewlineAt(s: string): (k: nat)
    ensures k <= |s|
    ensures '\n' !in s[..k]
    ensures k < |s| ==> s[k] == '\n'
  {
    if s == "" || s[0] == '\n' then 0
    else
      var k := 1 + NewlineAt(s[1..]);
      assert s[..k] == [s[0]] + s[1..][..k - 1];
      k
  }

  /** A reply's text holds no newline and does not end in a carriage return. */
  predicate IsText(text: string) {
    '\n' !in text && (text != "" ==> text[|text| - 1] != '\r')
  }

  /** One line on the pipe: the text and a newline, which a text-mode stream writes as two bytes. */
  predicate IsLine(bytes: string, text: string) {
    IsText(text) && (bytes == text + "\n" || bytes == text + "\r\n")
  }

  lemma OnlyNewline(bytes: string, text: string)
    requires IsLine(bytes, text)
    ensures bytes != ""
    ensures forall k :: 0 <= k < |bytes| ==> (bytes[k] == '\n' <==> k == |bytes| - 1)
  {
    var body := bytes[..|bytes| - 1];
    assert body == text || body == text + "\r";
    assert '\n' !in body;
    assert forall k :: 0 <= k < |body| ==> body[k] == bytes[k];
  }

  lemma FirstNewline(pending: string, pipe: string, text: string)
    requires IsLine(pending + pipe, text)
    ensures NewlineAt(pending) < |pending| ==> NewlineAt(pending) == |pending| - 1 && pipe == ""
    ensures NewlineAt(pending) == |pending| ==> pipe != ""
  {
    var bytes := pending + pipe;
    OnlyNewline(bytes, text);
    var k := NewlineAt(pending);
    assert k < |pending| ==> bytes[k] == '\n';
    assert pending[..|pending|] == pending;
    assert pipe == "" ==> bytes == pending;
  }

  lemma NoNewline(pending: string, pipe: string)
    requires '\n' !in pending + pipe
    ensures NewlineAt(pending) == |pending|
  {
    assert forall k :: 0 <= k < |pending| ==> pending[k] == (pending + pipe)[k];
  }

  lemma ChunkMoves(pending: string, pipe: string, got: nat)
    requires got <= |pipe|
    ensures pending + pipe[..got] + pipe[got..] == pending + pipe
  {
    assert pipe == pipe[..got] + pipe[got..];
  }

  /** Cutting a line at its newline and dropping a carriage return before it leaves the text. */
  lemma CutLine(bytes: string, text: string)
    requires IsLine(bytes, text)
    ensures var n := |bytes| - 1;
      n >= 0 && bytes[..if n > 0 && bytes[n - 1] == '\r' then n - 1 else n] == text
  {
  }

  // -----------------------------------------------------------------------
  // The worker
  // -----------------------------------------------------------------------

  const CHUNK := 16384

  lemma ServedOnce(db: string, line: string, id: string, o: Outcome)
    requires line != ""
    requires Attempts(o) <= 2 && o.dead <= Attempts(o) + (if o.noStart then 1 else 0) && o.refused <= Starts(o)
    requires if o.reply.Some? then o.sends >= 1 && !o.noStart
             else if o.noStart then o.dead > 0 && o.refused > 0 && Attempts(o) <= 1 else Attempts(o) == 2
    ensures Permitted(line, o)
    ensures Answer(db, line, o) == if o.reply.Some? then [Exchange(db, line, o.reply.value)] else []
    ensures Written(id, line, o) == if o.reply.Some? then [Reply(o.reply.value)] else if id != "" then [Failure(id)] else []
  {
  }

  class Worker {
    var db: string           // what a process is started on; empty until a request names one
    var proc: bool           // whether each of the three handles is open
    var toChild: bool
    var fromChild: bool
    var pending: string      // the part of a reply taken out of the pipe so far

    // The world outside: the process and the bytes it has written that are still in the pipe; and what
    // has happened to it so far.
    var running: bool
    var pipe: string
    ghost var startedFor: string
    ghost var starts: nat
    ghost var refused: nat
    ghost var dead: nat
    ghost var unwritten: nat
    ghost var delivered: seq<string>
    ghost var served: seq<Exchange>

    ghost predicate Valid()
      reads this
    {
      && toChild == proc && fromChild == proc
      && (!proc ==> !running && pending == "" && pipe == "")
      && (proc ==> startedFor == db)
    }

    /** No byte of an earlier exchange is left anywhere. */
    predicate Quiet()
      reads this
    {
      pending == "" && pipe == ""
    }

    constructor (database: string)
      ensures Valid() && Quiet() && !proc && db == database
      ensures delivered == [] && served == [] && starts == refused == dead == unwritten == 0
    {
      db, proc, toChild, fromChild, pending := database, false, false, false, "";
      running, pipe, startedFor := false, "", "";
      starts, refused, dead, unwritten, delivered, served := 0, 0, 0, 0, [], [];
    }

    // What the outside does.

    /** A process may die at any moment. */
    method Elapse()
      requires Valid()
      modifies this`running
      ensures Valid() && (running ==> old(running))
    {
      if * { running := false; }
    }

    /** A process comes up for the current database, or does not. */
    method Create() returns (ok: bool)
      requires !proc && !running && pipe == ""
      modifies this`running, this`startedFor, this`starts, this`refused
      ensures if ok then running && startedFor == db else !running
      ensures starts == old(starts) + 1 && refused == old(refused) + if ok then 0 else 1
    {
      starts := starts + 1;
      ok := *;
      if ok {
        running, startedFor := true, db;
      } else {
        refused := refused + 1;
      }
    }

    /** A process is handed a line, or the write fails because it is dead or will not take it.  One that
        is handed a line writes the whole of its reply, and may die after that; or it dies before the
        reply's newline is written. */
    method Write(line: string) returns (ok: bool, ghost reply: Option<string>)
      requires Valid() && Quiet() && proc
      modifies this`running, this`pipe, this`unwritten, this`delivered, this`served
      ensures Valid() && pending == ""
      ensures !ok ==> Quiet() && unwritten == old(unwritten) + 1 && delivered == old(delivered) && served == old(served)
      ensures ok ==> unwritten == old(unwritten) && delivered == old(delivered) + [line]
      ensures ok ==> served == old(served) + if reply.Some? then [Exchange(db, line, reply.value)] else []
      ensures ok ==> if reply.Some? then IsLine(pipe, reply.value) else '\n' !in pipe && !running
    {
      Elapse();
      reply, ok := None, *;
      if !running || !ok {
        unwritten := unwritten + 1;
        return false, None;
      }
      delivered := delivered + [line];
      var text: string := *;
      if * {
        if IsText(text) {
          var translated: bool := *;
          pipe := text + if translated then "\r\n" else "\n";
          served := served + [Exchange(startedFor, line, text)];
          running := *;
          return true, Some(text);
        }
      }
      pipe := text[..NewlineAt(text)];
      running := false;
    }

    // What the bridge does.

    method Alive() returns (r: bool)
      requires Valid()
      modifies this`running, this`dead
      ensures Valid() && (r <==> proc && running) && (running ==> old(running))
      ensures dead == old(dead) + if r then 0 else 1
    {
      Elapse();
      r := proc && running;
      dead := dead + if r then 0 else 1;
    }

    method Shutdown()
      modifies this`proc, this`toChild, this`fromChild, this`pending, this`running, this`pipe
      ensures Valid() && Quiet() && !proc
    {
      toChild := false;
      fromChild := false;
      proc := false;
      running, pipe := false, "";
      pending := "";
    }

    /** The old process is gone whether or not a new one starts. */
    method Spawn() returns (ok: bool)
      modifies this`proc, this`toChild, this`fromChild, this`pending, this`running, this`pipe,
        this`startedFor, this`starts, this`refused
      ensures Valid() && Quiet() && ok == proc && (ok ==> running)
      ensures starts == old(starts) + 1 && refused == old(refused) + if ok then 0 else 1
    {
      Shutdown();
      ok := Create();
      if ok {
        proc, toChild, fromChild := true, true, true;
      }
    }

    method Send(line: string) returns (ok: bool, ghost reply: Option<string>)
      requires Valid() && Quiet()
      modifies this`running, this`pipe, this`unwritten, this`delivered, this`served
      ensures Valid() && pending == ""
      ensures !ok ==> Quiet() && unwritten == old(unwritten) + (if proc then 1 else 0)
      ensures !ok ==> delivered == old(delivered) && served == old(served)
      ensures ok ==> proc && unwritten == old(unwritten) && delivered == old(delivered) + [line]
      ensures ok ==> served == old(served) + if reply.Some? then [Exchange(db, line, reply.value)] else []
      ensures ok ==> if reply.Some? then IsLine(pipe, reply.value) else '\n' !in pipe && !running
    {
      if !toChild { return false, None; }
      ok, reply := Write(line);
    }

    /** Reads chunks of any size until a whole line is there. False when the process died first. */
    method Recv(ghost reply: Option<string>) returns (ok: bool, text: string)
      requires Valid() && proc && pending == ""
      requires if reply.Some? then IsLine(pipe, reply.value) else '\n' !in pipe && !running
      modifies this`pending, this`pipe
      ensures Valid() && ok == reply.Some?
      ensures ok ==> text == reply.value && Quiet()
    {
      hide IsLine, NewlineAt;
      ghost var bytes := pipe;
      while true
        invariant Valid() && proc && pending + pipe == bytes
        decreases |pipe|
      {
        var nl := NewlineAt(pending);
        if reply.Some? { FirstNewline(pending, pipe, reply.value); } else { NoNewline(pending, pipe); }
        if nl < |pending| {
          assert pending == bytes;
          CutLine(bytes, reply.value);
          var n := nl;
          if n > 0 && pending[n - 1] == '\r' { n := n - 1; }
          text := pending[..n];
          pending := pending[nl + 1..];
          return true, text;
        }
        if pipe == "" { return false, ""; }
        var got :| 1 <= got <= |pipe| && got <= CHUNK;
        ChunkMoves(pending, pipe, got);
        pending := pending + pipe[..got];
        pipe := pipe[got..];
      }
    }

    /** One pass of the retry loop: a live process, or a replacement for a dead one; the line; its reply.
        A process that is lost on the way is replaced at once, which also clears whatever it left
        behind. */
    method Attempt(line: string) returns (started: bool, got: bool, text: string, ghost sent: bool)
      requires Valid() && Quiet()
      modifies this
      ensures Valid() && Quiet() && db == old(db)
      ensures (got ==> sent) && (sent ==> started)
      ensures old(dead) <= dead <= old(dead) + 1 && (!started ==> dead > old(dead) && refused > old(refused))
      ensures unwritten == old(unwritten) + if started && !sent then 1 else 0
      ensures starts - old(starts) == dead - old(dead) + if started && !got then 1 else 0
      ensures 0 <= refused - old(refused) <= starts - old(starts)
      ensures delivered == old(delivered) + if sent then [line] else []
      ensures served == old(served) + if got then [Exchange(db, line, text)] else []
    {
      hide IsLine;
      got, text, sent := false, "", false;
      started := Alive();
      if !started {
        started := Spawn();
        if !started { return; }
      }
      var ok, reply := Send(line);
      if ok {
        sent := true;
        got, text := Recv(reply);
        if got { return; }
      }
      var _ := Spawn();
    }

    /** One request line: switch databases if it asks for another, then try twice. */
    method Serve(line: string, id: string, want: string) returns (output: seq<Output>, ghost o: Outcome)
      requires Valid() && Quiet() && line != ""
      modifies this
      ensures Valid() && Quiet()
      ensures db == if want == "" then old(db) else want
      ensures o.switched <==> want != "" && want != old(db)
      ensures Permitted(line, o)
      ensures output == Written(id, line, o)
      ensures served == old(served) + Answer(db, line, o)
      ensures delivered == old(delivered) + Copies(line, o.sends)
      ensures starts == old(starts) + Starts(o) && dead == old(dead) + o.dead
      ensures refused == old(refused) + o.refused && unwritten == old(unwritten) + o.unwritten
    {
      hide Written, Answer, Valid, Quiet, Permitted;
      var switched := want != "" && db != want;
      if switched {
        db := want;
        var _ := Spawn();
      }
      ghost var sends: nat, noStart := 0, false;
      ghost var found: Option<string> := None;
      output := [];
      var answered := false;
      var attempt := 0;
      while attempt < 2 && !answered
        invariant 0 <= attempt <= 2 && Valid() && Quiet()
        invariant db == if want == "" then old(db) else want
        invariant !answered && !noStart && found == None && output == [] && served == old(served)
        invariant sends + (unwritten - old(unwritten)) == attempt && unwritten >= old(unwritten)
        invariant 0 <= dead - old(dead) <= attempt
        invariant starts - old(starts) == (if switched then 1 else 0) + (dead - old(dead)) + attempt
        invariant 0 <= refused - old(refused) <= starts - old(starts)
        invariant delivered == old(delivered) + Copies(line, sends)
        decreases 2 - attempt
      {
        var started, got, text, sent := Attempt(line);
        sends := sends + if sent then 1 else 0;
        if !started {
          noStart := true;
          break;
        }
        if got {
          output := output + [Reply(text)];
          found := Some(text);
          answered := true;
          break;
        }
        attempt := attempt + 1;
      }
      o := Outcome(switched, dead - old(dead), noStart, unwritten - old(unwritten), sends, refused - old(refused), found);
      ServedOnce(db, line, id, o);
      if !answered && id != "" {
        output := output + [Failure(id)];
      }
    }
  }

  // -----------------------------------------------------------------------
  // The request loop
  // -----------------------------------------------------------------------

  /** The whole run, for any requests, any scanners for the id and for the database a line asks for,
      and any behaviour of the workers. */
  method RunBridge(lines: seq<string>, first: string, idOf: string -> string, wanted: string -> string)
    returns (code: int, output: seq<Output>, w: Worker, ghost outcomes: seq<Outcome>)
    ensures w.Valid() && w.Quiet() && !w.proc
    ensures code == 0 || code == 1
    ensures code == 1 ==> output == [] && w.served == [] && w.delivered == [] && w.starts == w.refused == 1
    ensures code == 0 ==> AllPermitted(lines, outcomes) && AllSwitched(wanted, first, lines, outcomes)
    ensures code == 0 ==> output == AllWritten(idOf, lines, outcomes)
    ensures code == 0 ==> w.served == AllAnswers(wanted, first, lines, outcomes)
    ensures code == 0 ==> w.delivered == AllSends(lines, outcomes)
    ensures code == 0 ==> w.refused + w.unwritten == AllFailures(outcomes) && w.starts == 1 + AllStarts(outcomes)
  {
    hide AllPermitted, AllSwitched, AllWritten, AllAnswers, AllSends, AllFailures, AllStarts, Database, Permitted, Written, Answer,
      Copies, Starts, Failures, Switches, Worker.Valid, Worker.Quiet;
    StartOfRun(idOf, wanted, first);
    w := new Worker(first);
    output, outcomes := [], [];
    var ok := w.Spawn();
    if !ok { return 1, [], w, []; }
    var next := 0;
    while next < |lines|
      invariant 0 <= next <= |lines| && |outcomes| == next
      invariant fresh(w) && w.Valid() && w.Quiet()
      invariant w.db == Database(wanted, first, lines[..next])
      invariant AllPermitted(lines[..next], outcomes) && AllSwitched(wanted, first, lines[..next], outcomes)
      invariant output == AllWritten(idOf, lines[..next], outcomes)
      invariant w.served == AllAnswers(wanted, first, lines[..next], outcomes)
      invariant w.delivered == AllSends(lines[..next], outcomes)
      invariant w.refused + w.unwritten == AllFailures(outcomes) && w.starts == 1 + AllStarts(outcomes)
    {
      var line := lines[next];
      ghost var o := IDLE;
      BlankLine(w.db, idOf(""));
      if line != "" {
        var written;
        written, o := w.Serve(line, idOf(line), wanted(line));
        output := output + written;
      }
      assert lines[..next + 1][..next] == lines[..next];
      Extended(idOf, wanted, first, lines[..next + 1], outcomes, o);
      outcomes := outcomes + [o];
      next := next + 1;
    }
    assert lines[..next] == lines;
    w.Shutdown();
    code := 0;
  }
}
