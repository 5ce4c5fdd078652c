// Every run of a script is finite, and a well-matched script can only stop when both sides are done.

module SessionLiveness {
  import opened Bytes
  import opened Packets
  import opened Streams
  import opened Lists
  import opened Decoders
  import opened Waits
  import opened Sessions
  import opened SessionSafety

  // ----- A potential that every move spends -----

  /** One unit for each write still to make and one for each byte it will send. */
  function WriteCost(writes: seq<seq<Frame>>, j: nat): nat
    decreases |writes| - j
  {
    if j >= |writes| then 0 else 1 + |Wire(writes[j])| + WriteCost(writes, j + 1)
  }

  /** The potential of a side that has phases i and later before it: its writes, and two units for
      the control steps of each wait. */
  function PhasesCost(script: Script, x: Side, i: nat): nat
    decreases |script| - i
  {
    if i >= |script| then 0
    else (if Sender(i) == x then WriteCost(script[i].writes, 0) else 2) + PhasesCost(script, x, i + 1)
  }

  function ControlCost(script: Script, p: Process): nat
    requires p.phase < |script|
  {
    match p.at
    case Writing(j) => WriteCost(script[p.phase].writes, j)
    case FirstRead => 2
    case _ => 1
  }

  /** The bytes on their way to a process, and all it has still to do. */
  function Todo(script: Script, x: Side, p: Process): nat {
    |p.inbox| +
    if Finished(p) || p.phase >= |script| then 0
    else ControlCost(script, p) + PhasesCost(script, x, p.phase + 1)
  }

  function Potential(script: Script, s: State): nat {
    Todo(script, Client, s.client) + Todo(script, Server, s.server)
  }

  lemma EnterCost(script: Script, x: Side, p: Process, i: nat)
    ensures Todo(script, x, Enter(script, x, p, i)) == |p.inbox| + PhasesCost(script, x, i)
  {
  }

  /** A write takes from the writer one unit and the bytes it puts on the way to its peer. */
  lemma WriteSpends(script: Script, s: State, x: Side)
    requires var p := Get(s, x); p.phase < |script| && p.at.Writing? && p.at.next < |script[p.phase].writes|
    ensures Potential(script, WriteStep(script, s, x)) < Potential(script, s)
  {
    hide Wire, Todo, Enter;
    var y := Other(x);
    var p, q := Get(s, x), Get(s, y);
    var bytes := Wire(script[p.phase].writes[p.at.next]);
    var s' := WriteStep(script, s, x);
    var p', q' := Get(s', x), Get(s', y);
    WriterTodo(script, x, p, |bytes|);
    InboxTodo(script, y, q, bytes);
    assert Todo(script, x, p') + 1 + |bytes| <= Todo(script, x, p);
    assert Todo(script, y, q') <= Todo(script, y, q) + |bytes|;
    assert Potential(script, s) == Todo(script, x, p) + Todo(script, y, q);
    assert Potential(script, s') == Todo(script, x, p') + Todo(script, y, q');
  }

  lemma WriterTodo(script: Script, x: Side, p: Process, n: nat)
    requires p.phase < |script| && p.at.Writing? && p.at.next < |script[p.phase].writes|
    requires n == |Wire(script[p.phase].writes[p.at.next])|
    ensures Todo(script, x, p.(at := Stopped(NothingWritten))) + 1 + n <= Todo(script, x, p)
    ensures p.at.next + 1 < |script[p.phase].writes| ==>
              Todo(script, x, p.(at := Writing(p.at.next + 1))) + 1 + n == Todo(script, x, p)
    ensures p.at.next + 1 == |script[p.phase].writes| ==>
              Todo(script, x, Enter(script, x, p, p.phase + 1)) + 1 + n == Todo(script, x, p)
  {
    hide Wire, PhasesCost, Enter;
    EnterCost(script, x, p, p.phase + 1);
    var writes, j := script[p.phase].writes, p.at.next;
    assert WriteCost(writes, j) == 1 + n + WriteCost(writes, j + 1);
    assert j + 1 == |writes| ==> WriteCost(writes, j + 1) == 0;
  }

  lemma InboxTodo(script: Script, x: Side, p: Process, bytes: seq<byte>)
    ensures Todo(script, x, p.(inbox := p.inbox + bytes)) == Todo(script, x, p) + |bytes|
  {
  }

  lemma ReadSpends(script: Script, x: Side, p: Process, bytes: nat)
    requires AtRead(script, p) && bytes <= |p.inbox|
    ensures Todo(script, x, ReadStep(script[p.phase].wait, p, bytes)) < Todo(script, x, p)
  {
  }

  lemma LeaveSpends(script: Script, x: Side, p: Process)
    requires p.phase < |script| && p.at.Reading?
    ensures Todo(script, x, LeaveWait(script, x, p)) < Todo(script, x, p)
  {
  }

  /** Every move of every script, matched or not, spends potential. */
  lemma EveryMoveSpends(script: Script, s: State, a: Action)
    requires Enabled(script, s, a)
    ensures Potential(script, Exec(script, s, a)) < Potential(script, s)
  {
    hide Todo, WriteStep, ReadStep, LeaveWait;
    var p := Get(s, a.who);
    if p.at.Writing? {
      WriteSpends(script, s, a.who);
    } else if AtRead(script, p) {
      ReadSpends(script, a.who, p, a.bytes);
    } else {
      LeaveSpends(script, a.who, p);
    }
  }

  /** What a script can spend: per phase its writes, its bytes, and two control steps. */
  function Budget(script: Script): nat {
    if script == [] then 0
    else
      var ph := script[|script| - 1];
      Budget(script[..|script| - 1]) + |ph.writes| + |Wire(Sent(ph))| + 2
  }

  lemma {:induction false} WriteCostIs(writes: seq<seq<Frame>>, j: nat)
    requires j <= |writes|
    ensures WriteCost(writes, j) == |writes| - j + |Wire(Concat(writes[j..]))|
    decreases |writes| - j
  {
    hide Wire;
    if j == |writes| {
      NothingIsNothing();
    } else {
      WriteCostIs(writes, j + 1);
      assert writes[j..][1..] == writes[j + 1..];
      WireConcat(writes[j], Concat(writes[j + 1..]));
    }
  }

  lemma {:induction false} PhasesCostSplits(script: Script, x: Side, i: nat)
    requires i < |script|
    ensures var last := script[|script| - 1];
            PhasesCost(script, x, i) == PhasesCost(script[..|script| - 1], x, i) +
                                        if Sender(|script| - 1) == x then WriteCost(last.writes, 0) else 2
    decreases |script| - i
  {
    if i + 1 == |script| {
    } else {
      PhasesCostSplits(script, x, i + 1);
    }
  }

  lemma {:induction false} TotalCost(script: Script)
    ensures PhasesCost(script, Client, 0) + PhasesCost(script, Server, 0) == Budget(script)
  {
    hide Wire, WriteCost, Concat;
    if script == [] {
    } else {
      TotalCost(script[..|script| - 1]);
      PhasesCostSplits(script, Client, 0);
      PhasesCostSplits(script, Server, 0);
      var writes := script[|script| - 1].writes;
      WriteCostIs(writes, 0);
      assert writes[0..] == writes;
    }
  }

  lemma InitialPotential(script: Script)
    ensures Potential(script, Init(script)) == Budget(script)
  {
    TotalCost(script);
    hide Budget, WriteCost;
  }

  /** No run of any script is longer than its budget. */
  lemma {:induction false} RunsAreFinite(script: Script, schedule: seq<Action>)
    requires Run(script, schedule).Some?
    ensures |schedule| + Potential(script, Run(script, schedule).value) <= Budget(script)
  {
    hide Potential, Exec, Enabled, Init, Budget;
    if schedule == [] {
      InitialPotential(script);
    } else {
      var n := |schedule| - 1;
      RunsAreFinite(script, schedule[..n]);
      EveryMoveSpends(script, Run(script, schedule[..n]).value, schedule[n]);
    }
  }

  // ----- Nothing is stuck before the end -----

  /** A move that is possible in phase g: a write, a read of what has arrived, or leaving the wait. */
  function SomeMove(s: State): Action {
    var x := Sender(Level(s));
    if Get(s, x).phase == Level(s) then Action(x, 0)
    else
      var n := |Get(s, Other(x)).inbox|;
      Action(Other(x), if n == 0 then 0 else 1)
  }

  lemma SomeMoveIsEnabled(script: Script, s: State)
    requires WellMatched(script) && InPhase(script, s, Level(s))
    ensures Enabled(script, s, SomeMove(s))
  {
    hide Passes, Receipts;
    var g := Level(s);
    var x := Sender(g);
    var p, q := Get(s, Other(x)), Get(s, x);
    if q.phase != g && p.inbox == [] && AtRead(script, p) {
      assert p.buffer + p.inbox == p.buffer;
      WholeFramesDoNotWait(Sent(script[g])[|p.all|..]);
      assert false;
    }
  }

  // ----- The session theorems -----

  /** A process that has taken no error exit: each finished wait holds exactly the batch the peer
      sent in that phase, during a wait the packets are a prefix of that batch, and outside waits
      nothing is left in the buffer. */
  predicate Safe(script: Script, x: Side, p: Process) {
    && !p.at.Stopped?
    && p.phase <= |script| && p.held == Receipts(script, x, p.phase)
    && (p.at.Reading? ==> p.phase < |script| && p.all <= Sent(script[p.phase]))
    && (!p.at.Reading? ==> p.buffer == [])
  }

  /** Safety, over every interleaving and every cutting into reads. */
  lemma NeverFails(script: Script, schedule: seq<Action>, x: Side)
    requires WellMatched(script) && Run(script, schedule).Some?
    ensures Safe(script, x, Get(Run(script, schedule).value, x))
  {
    hide Run, WellMatched, InPhase, Receipts, Sent;
    ReachableInStep(script, schedule);
    var s := Run(script, schedule).value;
    if InPhase(script, s, Level(s)) {
      InPhaseSafe(script, s, x);
    }
  }

  lemma InPhaseSafe(script: Script, s: State, x: Side)
    requires WellMatched(script) && InPhase(script, s, Level(s))
    ensures Safe(script, x, Get(s, x))
  {
    hide Safe, SenderInStep, ReceiverInStep, Shaped, Matched, SentSoFar;
    var g := Level(s);
    if x == Sender(g) {
      SenderSafe(script, g, x, Get(s, x));
    } else {
      SentIsPrefix(script, g, Get(s, Sender(g)));
      ReceiverSafe(script, g, x, Get(s, x), SentSoFar(script, g, Get(s, Sender(g))));
    }
  }

  lemma SentIsPrefix(script: Script, g: nat, p: Process)
    requires Shaped(script) && g < |script|
    ensures SentSoFar(script, g, p) <= Sent(script[g])
  {
    hide Passes;
    if p.at.Writing? && p.at.next <= |script[g].writes| {
      FewerSent(script[g].writes, p.at.next);
    }
  }

  lemma SenderSafe(script: Script, g: nat, x: Side, p: Process)
    requires g < |script| && x == Sender(g) && SenderInStep(script, g, x, p)
    ensures Safe(script, x, p)
  {
  }

  lemma ReceiverSafe(script: Script, g: nat, x: Side, p: Process, sent: seq<Frame>)
    requires g < |script| && ReceiverInStep(script, g, x, p, sent) && sent <= Sent(script[g])
    ensures Safe(script, x, p)
  {
  }

  /** Liveness: a run that cannot go on has brought both sides to their normal exit, each holding
      every batch sent to it, with nothing left in a buffer or on the way. */
  lemma AlwaysEnds(script: Script, schedule: seq<Action>)
    requires WellMatched(script) && Run(script, schedule).Some?
    ensures var s := Run(script, schedule).value;
            && |schedule| <= Budget(script)
            && (Stuck(script, s) <==> AllDone(script, s))
  {
    hide Enabled, InPhase;
    ReachableInStep(script, schedule);
    RunsAreFinite(script, schedule);
    var s := Run(script, schedule).value;
    if AllDone(script, s) {
      DoneIsStuck(script, s);
    } else {
      SomeMoveIsEnabled(script, s);
      var a := SomeMove(s);
      assert Enabled(script, s, Action(a.who, a.bytes));
    }
  }

  lemma DoneIsStuck(script: Script, s: State)
    requires AllDone(script, s)
    ensures Stuck(script, s)
  {
  }

  /** From every reachable state the session can be completed. */
  lemma {:induction false} Completes(script: Script, schedule: seq<Action>) returns (full: seq<Action>)
    requires WellMatched(script) && Run(script, schedule).Some?
    ensures schedule <= full && Run(script, full).Some? && AllDone(script, Run(script, full).value)
    decreases Potential(script, Run(script, schedule).value)
  {
    hide Potential, InPhase, AllDone, Enabled, Exec, Run;
    var s := Run(script, schedule).value;
    ReachableInStep(script, schedule);
    if AllDone(script, s) {
      return schedule;
    }
    var a := SomeMove(s);
    SomeMoveIsEnabled(script, s);
    EveryMoveSpends(script, s, a);
    RunNext(script, schedule, a);
    full := Completes(script, schedule + [a]);
  }

  /** A run continued by a possible move. */
  lemma RunNext(script: Script, schedule: seq<Action>, a: Action)
    requires Run(script, schedule).Some? && Enabled(script, Run(script, schedule).value, a)
    ensures Run(script, schedule + [a]) == Some(Exec(script, Run(script, schedule).value, a))
  {
    hide Enabled, Exec, Init;
    assert (schedule + [a])[..|schedule|] == schedule;
  }

  // ----- What being stuck looks like, for any script -----

  /** A process that has not finished is somewhere in a phase of the script. */
  predicate InScript(script: Script, p: Process) {
    match p.at
    case Writing(j) => p.phase < |script| && j < |script[p.phase].writes|
    case FirstRead => p.phase < |script|
    case Reading => p.phase < |script|
    case _ => true
  }

  lemma EnterInScript(script: Script, x: Side, p: Process, i: nat)
    requires Shaped(script)
    ensures InScript(script, Enter(script, x, p, i))
  {
  }

  lemma StepInScript(script: Script, s: State, a: Action, x: Side)
    requires Shaped(script) && Enabled(script, s, a) && InScript(script, Get(s, x))
    ensures InScript(script, Get(Exec(script, s, a), x))
  {
    hide Shaped, Enter, Wire, Receive, Verdict, Fatal;
    var p := Get(s, x);
    EnterInScript(script, x, p, p.phase + 1);
    EnterInScript(script, x, p.(held := p.held + [p.all]), p.phase + 1);
  }

  lemma StartInScript(script: Script, x: Side)
    requires Shaped(script)
    ensures InScript(script, Get(Init(script), x))
  {
  }

  lemma {:induction false} ReachableInScript(script: Script, schedule: seq<Action>, x: Side)
    requires Shaped(script) && Run(script, schedule).Some?
    ensures InScript(script, Get(Run(script, schedule).value, x))
  {
    hide Shaped, Enabled, Exec, InScript, Init;
    if schedule == [] {
      StartInScript(script, x);
    } else {
      var n := |schedule| - 1;
      ReachableInScript(script, schedule[..n], x);
      StepInScript(script, Run(script, schedule[..n]).value, schedule[n], x);
    }
  }

  /** The process waits for bytes, and none are on the way. */
  predicate Starved(script: Script, p: Process) {
    AtRead(script, p) && p.inbox == []
  }

  /** A process in the script has a move, unless it has finished, or it waits for bytes of a peer that
      has not: the end of the stream lets it move as well. */
  lemma CanMove(script: Script, s: State, x: Side)
    requires InScript(script, Get(s, x))
    ensures (exists n :: Enabled(script, s, Action(x, n))) <==>
            !Finished(Get(s, x)) && (Starved(script, Get(s, x)) ==> Finished(Get(s, Other(x))))
  {
    var p := Get(s, x);
    if !Finished(p) && (Starved(script, p) ==> Finished(Get(s, Other(x)))) {
      assert Enabled(script, s, Action(x, if p.inbox == [] then 0 else 1));
    }
  }

  /** Whatever the script, matched or not, a run can only stop with both sides finished, or with both
      waiting for bytes that nobody will send: no process hangs once its peer has gone. */
  lemma StuckExactly(script: Script, schedule: seq<Action>)
    requires Shaped(script) && Run(script, schedule).Some?
    ensures var s := Run(script, schedule).value;
            Stuck(script, s) <==>
            || (Finished(s.client) && Finished(s.server))
            || (Starved(script, s.client) && Starved(script, s.server))
  {
    hide Shaped, Enabled, InScript, Run;
    var s := Run(script, schedule).value;
    ReachableInScript(script, schedule, Client);
    ReachableInScript(script, schedule, Server);
    CanMove(script, s, Client);
    CanMove(script, s, Server);
    if !Stuck(script, s) {
      var x, n :| Enabled(script, s, Action(x, n));
      assert x == Client || x == Server;
    }
  }
}
