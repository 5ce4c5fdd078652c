// Exactly which runs a well-matched script has: in each phase any interleaving of the sender's writes with
// reads of at most 256 bytes by the server, 128 by the client, that take no byte before it was written.

module SessionCuts {
  import opened Bytes
  import opened Packets
  import opened Streams
  import opened Lists
  import opened Decoders
  import opened Waits
  import opened Sessions
  import opened SessionSafety
  import opened SessionLiveness
  import opened SessionWait

  /** What happens in a phase before its receiver leaves it: a write of the sender, or a read of the receiver. */
  datatype Move = Write | Take(bytes: nat)

  type Plan = seq<Move>

  function WritesIn(plan: Plan): nat {
    if plan == [] then 0 else WritesIn(plan[..|plan| - 1]) + if plan[|plan| - 1].Write? then 1 else 0
  }

  function BytesIn(plan: Plan): nat {
    if plan == [] then 0
    else BytesIn(plan[..|plan| - 1]) + if plan[|plan| - 1].Take? then plan[|plan| - 1].bytes else 0
  }

  /** No more writes than there are to make, and each read takes at least one byte, no more than the read
      buffer holds, and only bytes that have been written. */
  predicate InOrder(writes: seq<seq<Frame>>, capacity: nat, plan: Plan)
    ensures InOrder(writes, capacity, plan) ==> WritesIn(plan) <= |writes|
  {
    plan == [] ||
    var n := |plan| - 1;
    && InOrder(writes, capacity, plan[..n])
    && match plan[n]
       case Write => WritesIn(plan[..n]) < |writes|
       case Take(bytes) =>
         && 1 <= bytes <= capacity
         && BytesIn(plan[..n]) + bytes <= |Wire(Concat(writes[..WritesIn(plan[..n])]))|
  }

  /** A plan for all of a phase. */
  predicate Feasible(writes: seq<seq<Frame>>, capacity: nat, plan: Plan) {
    InOrder(writes, capacity, plan) && WritesIn(plan) == |writes| && BytesIn(plan) == |Wire(Concat(writes))|
  }

  predicate AllFeasible(script: Script, plans: seq<Plan>) {
    && |plans| <= |script|
    && forall g :: 0 <= g < |plans| ==> Feasible(script[g].writes, if g % 2 == 0 then 256 else 128, plans[g])
  }

  function Writer(g: nat): Side {
    if g % 2 == 0 then Client else Server
  }

  function Taker(g: nat): Side {
    if g % 2 == 0 then Server else Client
  }

  /** These actions carry out the plan of phase g. Only for reads their number of bytes matters. */
  predicate CarryOut(actions: seq<Action>, g: nat, plan: Plan) {
    && |actions| == |plan|
    && forall i :: 0 <= i < |plan| ==>
         match plan[i]
         case Write => actions[i].who == Writer(g)
         case Take(bytes) => actions[i] == Action(Taker(g), bytes)
  }

  /** The schedule carries out one plan after the other, the receiver leaving each phase at its end. */
  predicate Follows(schedule: seq<Action>, plans: seq<Plan>) {
    if plans == [] then schedule == []
    else
      var g := |plans| - 1;
      var last := |schedule| - 1;
      var first := last - |plans[g]|;
      && first >= 0
      && Follows(schedule[..first], plans[..g])
      && CarryOut(schedule[first..last], g, plans[g])
      && schedule[last].who == Taker(g)
  }

  /** What the reads of a plan return, of the bytes of its phase. */
  function ReadsOf(plan: Plan, stream: seq<byte>): seq<Read>
    requires BytesIn(plan) <= |stream|
  {
    if plan == [] then []
    else
      var before := plan[..|plan| - 1];
      ReadsOf(before, stream) +
      if plan[|plan| - 1].Take? then [Data(stream[BytesIn(before)..BytesIn(plan)])] else []
  }

  /** The waits of a side in the phases planned. */
  function LogsOf(script: Script, plans: seq<Plan>, x: Side): seq<Log>
    requires AllFeasible(script, plans)
  {
    if plans == [] then []
    else
      var g := |plans| - 1;
      LogsOf(script, plans[..g], x) +
      if Taker(g) == x then [Log([], ReadsOf(plans[g], Wire(Sent(script[g]))))] else []
  }

  // ----- Inside a phase -----

  /** In phase g, j writes have been made and t bytes of them read. */
  predicate Midway(script: Script, g: nat, s: State, j: nat, t: nat) {
    && g < |script| && InPhase(script, s, g) && Level(s) == g
    && j <= |script[g].writes|
    && var q, sent := Get(s, Writer(g)), Concat(script[g].writes[..j]);
       && (if j < |script[g].writes| then q.phase == g && q.at == Writing(j) else q.phase == g + 1)
       && SentSoFar(script, g, q) == sent
       && t <= |Wire(sent)| && Get(s, Taker(g)).inbox == Wire(sent)[t..]
  }

  /** Both processes have entered phase g, and its receiver is before its first read. */
  lemma EnterMidway(script: Script, g: nat, s: State)
    requires Shaped(script) && g < |script| && Between(script, s, g)
    ensures Midway(script, g, s, 0, 0) && Get(s, Taker(g)).at.FirstRead?
  {
    hide Passes, Receipts;
    Begin(script, s, g);
    NothingIsNothing();
    assert Get(s, Client) == s.client && Get(s, Server) == s.server;
    assert script[g].writes != [];
  }

  lemma MidwayWrite(script: Script, g: nat, s: State, j: nat, t: nat, a: Action)
    requires Shaped(script) && Midway(script, g, s, j, t) && j < |script[g].writes| && a.who == Writer(g)
    ensures Enabled(script, s, a) && Midway(script, g, Exec(script, s, a), j + 1, t)
    ensures Get(Exec(script, s, a), Taker(g)).at == Get(s, Taker(g)).at
  {
    hide Wire, Concat, InPhase, Receipts;
    var writes := script[g].writes;
    var more := writes[j];
    InPhaseOf(script, s);
    WireLength(more);
    WriteSends(script, s, a.who);
    WriteKeeps(script, s);
    ConcatNext(writes, j);
    WireConcat(Concat(writes[..j]), more);
  }

  lemma InPhaseOf(script: Script, s: State)
    requires InPhase(script, s, Level(s))
    ensures SenderInStep(script, Level(s), Sender(Level(s)), Get(s, Sender(Level(s))))
  {
  }

  /** While bytes are on the way to it, the receiver is at a read. */
  lemma MidwayReads(script: Script, g: nat, s: State, j: nat, t: nat)
    requires Shaped(script) && Midway(script, g, s, j, t) && Matched(script[g])
    requires t < |Wire(Concat(script[g].writes[..j]))|
    ensures var p := Get(s, Taker(g)); AtRead(script, p) && p.phase == g && (p.at.FirstRead? ==> p.buffer == [])
  {
    hide Wire, Concat, StoppedBy, Receipts, Passes;
    var p := Get(s, Taker(g));
    if p.at.Reading? && |p.all| >= script[g].wait.want {
      WholeBatch(script, s);
      assert false;
    }
  }

  lemma MidwayTake(script: Script, g: nat, s: State, j: nat, t: nat, a: Action)
    requires Shaped(script) && Midway(script, g, s, j, t) && Matched(script[g])
    requires a.who == Taker(g) && 1 <= a.bytes <= if g % 2 == 0 then 256 else 128
    requires t + a.bytes <= |Wire(Concat(script[g].writes[..j]))|
    ensures var p := Get(s, a.who);
            && Enabled(script, s, a) && AtRead(script, p) && a.bytes <= |p.inbox|
            && (p.at.FirstRead? ==> p.buffer == [])
            && ReadOf(p, a.bytes) == Data(Wire(Concat(script[g].writes[..j]))[t..t + a.bytes])
    ensures Midway(script, g, Exec(script, s, a), j, t + a.bytes)
    ensures Get(Exec(script, s, a), a.who).at.Reading?
  {
    hide Wire, Concat, StoppedBy, Receipts, Receive, Shaped, Matched, SenderInStep, ReceiverInStep, SentSoFar;
    MidwayReads(script, g, s, j, t);
    ReadKeeps(script, s, a.bytes);
    ReadLeadsOn(script[g].wait, Get(s, a.who), a.bytes);
    ReceiverStands(script, g, Exec(script, s, a));
  }

  lemma ReadLeadsOn(e: Expect, p: Process, bytes: nat)
    requires bytes <= |p.inbox|
    ensures var p' := ReadStep(e, p, bytes);
            (p'.at.Reading? || p'.at.Stopped?) && p'.inbox == p.inbox[bytes..]
  {
    hide Receive;
  }

  lemma ReceiverStands(script: Script, g: nat, s: State)
    requires g < |script| && InPhase(script, s, g)
    ensures !Get(s, Taker(g)).at.Stopped?
  {
    hide Wire, StoppedBy, Receipts, SentSoFar;
  }

  /** When the receiver has enough packets, the phase is over: all is written, and all is read. */
  lemma MidwayLeave(script: Script, g: nat, s: State, j: nat, t: nat, a: Action)
    requires Shaped(script) && Midway(script, g, s, j, t) && Matched(script[g])
    requires a.who == Taker(g) && Get(s, a.who).at.Reading?
    ensures Enabled(script, s, a) && !AtRead(script, Get(s, a.who)) <==>
            j == |script[g].writes| && t == |Wire(Sent(script[g]))|
    ensures AtRead(script, Get(s, a.who)) || Between(script, Exec(script, s, a), g + 1)
  {
    hide Wire, StoppedBy, Receipts, Passes, Concat;
    var p, writes := Get(s, a.who), script[g].writes;
    assert writes[..|writes|] == writes;
    if !AtRead(script, p) {
      WholeBatch(script, s);
      LeaveKeeps(script, s);
    } else if j == |writes| && t == |Wire(Sent(script[g]))| {
      assert p.inbox == [];
      assert p.buffer + p.inbox == p.buffer;
      WholeFramesDoNotWait(Sent(script[g])[|p.all|..]);
      assert false;
    }
  }

  // ----- Every feasible schedule is a run -----

  /** One more action of a run. */
  lemma NextAction(script: Script, schedule: seq<Action>, a: Action, x: Side)
    requires Run(script, schedule).Some? && Enabled(script, Run(script, schedule).value, a)
    ensures Run(script, schedule + [a]) == Some(Exec(script, Run(script, schedule).value, a))
    ensures var p := Get(Run(script, schedule).value, x);
            WaitLogs(script, schedule + [a], x) ==
            if a.who == x && AtRead(script, p) then LogRead(p, WaitLogs(script, schedule, x), a.bytes)
            else WaitLogs(script, schedule, x)
  {
    hide Enabled, Exec, LogRead, AtRead;
    RunNext(script, schedule, a);
    assert (schedule + [a])[..|schedule|] == schedule;
  }

  /** The log of the wait a receiver is in, with what its reads have returned. */
  predicate LogGrows(p: Process, before: seq<Log>, logs: seq<Log>, input: seq<Read>) {
    if input == [] then p.at.FirstRead? && logs == before
    else p.at.Reading? && logs == before + [Log([], input)]
  }

  lemma LogTake(p: Process, p': Process, before: seq<Log>, logs: seq<Log>, input: seq<Read>, bytes: nat)
    requires LogGrows(p, before, logs, input) && bytes <= |p.inbox| && (p.at.FirstRead? ==> p.buffer == [])
    requires p'.at.Reading?
    ensures LogGrows(p', before, LogRead(p, logs, bytes), input + [ReadOf(p, bytes)])
  {
    hide ReadOf;
    var r := ReadOf(p, bytes);
    if input == [] {
      assert [] + [r] == [r];
    } else {
      assert logs[..|logs| - 1] == before;
    }
  }

  /** The part of a plan's stream that one more read takes. */
  lemma TakesNext(writes: seq<seq<Frame>>, j: nat, from: nat, to: nat)
    requires j <= |writes| && from <= to <= |Wire(Concat(writes[..j]))|
    ensures to <= |Wire(Concat(writes))|
    ensures Wire(Concat(writes[..j]))[from..to] == Wire(Concat(writes))[from..to]
  {
    hide Wire, Concat;
    assert writes == writes[..j] + writes[j..];
    ConcatAppend(writes[..j], writes[j..]);
    WireConcat(Concat(writes[..j]), Concat(writes[j..]));
  }

  /** The state and the logs in the middle of a phase whose plan has been carried out so far. */
  predicate PartWay(script: Script, schedule: seq<Action>, g: nat, plan: Plan, writer: seq<Log>, reader: seq<Log>) {
    && g < |script| && Run(script, schedule).Some?
    && BytesIn(plan) <= |Wire(Sent(script[g]))|
    && var s := Run(script, schedule).value;
       && Midway(script, g, s, WritesIn(plan), BytesIn(plan))
       && WaitLogs(script, schedule, Writer(g)) == writer
       && LogGrows(Get(s, Taker(g)), reader, WaitLogs(script, schedule, Taker(g)),
                   ReadsOf(plan, Wire(Sent(script[g]))))
  }

  /** Carrying out one more move of a plan. */
  lemma CarryOutMove(script: Script, schedule: seq<Action>, g: nat, plan: Plan, a: Action, m: Move,
                     writer: seq<Log>, reader: seq<Log>)
    requires WellMatched(script) && PartWay(script, schedule, g, plan, writer, reader)
    requires InOrder(script[g].writes, if g % 2 == 0 then 256 else 128, plan + [m])
    requires CarryOut([a], g, [m])
    ensures PartWay(script, schedule + [a], g, plan + [m], writer, reader)
  {
    hide Midway, Run, Enabled, Exec, WaitLogs, LogGrows, AtRead, Wire, Concat, Shaped, Matched, ReadOf, Get, LogRead;
    var s := Run(script, schedule).value;
    var x, y := Writer(g), Taker(g);
    var j, t := WritesIn(plan), BytesIn(plan);
    assert (plan + [m])[..|plan|] == plan;
    assert [a][0] == a && [m][0] == m;
    match m
    case Write =>
      MidwayWrite(script, g, s, j, t, a);
      NextAction(script, schedule, a, x);
      NextAction(script, schedule, a, y);
      WriterWrites(script, g, s, j, t);
      assert ReadsOf(plan + [m], Wire(Sent(script[g]))) == ReadsOf(plan, Wire(Sent(script[g])));
      SameAt(Get(s, y), Get(Exec(script, s, a), y), reader, WaitLogs(script, schedule, y),
             ReadsOf(plan, Wire(Sent(script[g]))));
    case Take(n) =>
      MidwayTake(script, g, s, j, t, a);
      NextAction(script, schedule, a, x);
      NextAction(script, schedule, a, y);
      TakesNext(script[g].writes, j, t, t + n);
      LogTake(Get(s, y), Get(Exec(script, s, a), y), reader, WaitLogs(script, schedule, y),
              ReadsOf(plan, Wire(Sent(script[g]))), n);
  }

  lemma WriterWrites(script: Script, g: nat, s: State, j: nat, t: nat)
    requires Midway(script, g, s, j, t) && j < |script[g].writes|
    ensures !AtRead(script, Get(s, Writer(g)))
  {
  }

  lemma SameAt(p: Process, p': Process, before: seq<Log>, logs: seq<Log>, input: seq<Read>)
    requires p'.at == p.at && LogGrows(p, before, logs, input)
    ensures LogGrows(p', before, logs, input)
  {
  }

  /** Carrying out the plan of a phase move by move. */
  lemma {:induction false} CarryOutPlan(script: Script, schedule: seq<Action>, actions: seq<Action>, g: nat, plan: Plan)
    requires WellMatched(script) && g < |script| && Run(script, schedule).Some?
    requires Between(script, Run(script, schedule).value, g)
    requires InOrder(script[g].writes, if g % 2 == 0 then 256 else 128, plan) && CarryOut(actions, g, plan)
    ensures PartWay(script, schedule + actions, g, plan, WaitLogs(script, schedule, Writer(g)),
                     WaitLogs(script, schedule, Taker(g)))
  {
    hide WellMatched, Run, WaitLogs, PartWay, Between, Concat;
    if plan == [] {
      assert schedule + actions == schedule;
      StandAtStart(script, schedule, g);
    } else {
      var n := |plan| - 1;
      CarryOutPlan(script, schedule, actions[..n], g, plan[..n]);
      assert plan == plan[..n] + [plan[n]];
      assert schedule + actions == schedule + actions[..n] + [actions[n]];
      CarryOutMove(script, schedule + actions[..n], g, plan[..n], actions[n], plan[n],
                   WaitLogs(script, schedule, Writer(g)), WaitLogs(script, schedule, Taker(g)));
    }
  }

  lemma StandAtStart(script: Script, schedule: seq<Action>, g: nat)
    requires WellMatched(script) && g < |script| && Run(script, schedule).Some?
    requires Between(script, Run(script, schedule).value, g)
    ensures PartWay(script, schedule, g, [], WaitLogs(script, schedule, Writer(g)),
                     WaitLogs(script, schedule, Taker(g)))
  {
    hide Run, WaitLogs, Midway, Between, Shaped, Matched, Wire, Get;
    EnterMidway(script, g, Run(script, schedule).value);
  }

  /** A phase whose plan has been carried out is left by its receiver. */
  lemma LeavePhase(script: Script, schedule: seq<Action>, g: nat, plan: Plan, a: Action,
                   writer: seq<Log>, reader: seq<Log>)
    requires WellMatched(script) && PartWay(script, schedule, g, plan, writer, reader)
    requires Feasible(script[g].writes, if g % 2 == 0 then 256 else 128, plan) && a.who == Taker(g)
    ensures Run(script, schedule + [a]).Some? && Between(script, Run(script, schedule + [a]).value, g + 1)
    ensures WaitLogs(script, schedule + [a], Writer(g)) == writer
    ensures WaitLogs(script, schedule + [a], Taker(g)) ==
            reader + [Log([], ReadsOf(plan, Wire(Sent(script[g]))))]
  {
    hide Midway, Run, Enabled, Exec, WaitLogs, AtRead, Wire, Concat, Shaped, Matched, Get, Between, LogRead;
    var s := Run(script, schedule).value;
    ReadsNonEmpty(script, g, plan);
    MidwayLeave(script, g, s, WritesIn(plan), BytesIn(plan), a);
    NextAction(script, schedule, a, Writer(g));
    NextAction(script, schedule, a, Taker(g));
  }

  lemma ReadsNonEmpty(script: Script, g: nat, plan: Plan)
    requires Shaped(script) && g < |script|
    requires Feasible(script[g].writes, if g % 2 == 0 then 256 else 128, plan)
    ensures ReadsOf(plan, Wire(Sent(script[g]))) != []
  {
    hide InOrder, Wire;
    ConcatIsLonger(script[g].writes);
    WireLength(Sent(script[g]));
    SomeTake(plan, Wire(Sent(script[g])));
  }

  lemma {:induction false} SomeTake(plan: Plan, stream: seq<byte>)
    requires 0 < BytesIn(plan) <= |stream|
    ensures ReadsOf(plan, stream) != []
  {
    var n := |plan| - 1;
    if plan[n].Take? {
    } else {
      SomeTake(plan[..n], stream);
    }
  }

  /** Carrying out the plan of a phase, and leaving it. */
  lemma CarryOutPhase(script: Script, before: seq<Action>, actions: seq<Action>, a: Action, g: nat, plan: Plan)
    requires WellMatched(script) && g < |script| && Run(script, before).Some?
    requires Between(script, Run(script, before).value, g)
    requires Feasible(script[g].writes, if g % 2 == 0 then 256 else 128, plan)
    requires CarryOut(actions, g, plan) && a.who == Taker(g)
    ensures var schedule := before + actions + [a];
            && Run(script, schedule).Some? && Between(script, Run(script, schedule).value, g + 1)
            && WaitLogs(script, schedule, Writer(g)) == WaitLogs(script, before, Writer(g))
            && WaitLogs(script, schedule, Taker(g)) ==
               WaitLogs(script, before, Taker(g)) + [Log([], ReadsOf(plan, Wire(Sent(script[g]))))]
  {
    hide WellMatched, Run, WaitLogs, Between, PartWay, CarryOut, Wire, Concat, ReadsOf, InOrder;
    CarryOutPlan(script, before, actions, g, plan);
    LeavePhase(script, before + actions, g, plan, a, WaitLogs(script, before, Writer(g)),
               WaitLogs(script, before, Taker(g)));
  }

  /** Whatever order of writes and reads is feasible, phase by phase, is a run; each wait makes the reads
      planned, and after the last phase both programs have exited with every batch. */
  lemma {:induction false} FollowsRuns(script: Script, schedule: seq<Action>, plans: seq<Plan>)
    requires WellMatched(script) && AllFeasible(script, plans) && Follows(schedule, plans)
    ensures Run(script, schedule).Some? && Between(script, Run(script, schedule).value, |plans|)
    ensures forall x :: WaitLogs(script, schedule, x) == LogsOf(script, plans, x)
  {
    hide WellMatched, Run, WaitLogs, Between, Feasible, CarryOut, Wire, Sent, ReadsOf;
    if plans == [] {
      StartBetween(script);
    } else {
      var g, last := |plans| - 1, |schedule| - 1;
      var first := last - |plans[g]|;
      FollowsRuns(script, schedule[..first], plans[..g]);
      CarryOutPhase(script, schedule[..first], schedule[first..last], schedule[last], g, plans[g]);
      assert schedule == schedule[..first] + schedule[first..last] + [schedule[last]];
      forall x ensures WaitLogs(script, schedule, x) == LogsOf(script, plans, x) {
        assert x == Writer(g) || x == Taker(g);
      }
    }
  }

  lemma StartBetween(script: Script)
    ensures Run(script, []).Some? && Between(script, Run(script, []).value, 0)
    ensures forall x :: WaitLogs(script, [], x) == []
  {
  }

  // ----- And no other schedule is -----

  /** The first k actions carry out whole plans, the others the plan of the next phase as far as it goes. */
  predicate Unfolds(script: Script, schedule: seq<Action>, plans: seq<Plan>, plan: Plan, k: nat) {
    && AllFeasible(script, plans) && k <= |schedule| && Follows(schedule[..k], plans)
    && if |plans| == |script| then plan == [] && k == |schedule|
       else
         var g := |plans|;
         InOrder(script[g].writes, if g % 2 == 0 then 256 else 128, plan) && CarryOut(schedule[k..], g, plan)
  }

  /** Where a schedule that unfolds so far has brought the session. */
  predicate BroughtTo(script: Script, s: State, g: nat, plan: Plan) {
    if g == |script| then Between(script, s, g) else Midway(script, g, s, WritesIn(plan), BytesIn(plan))
  }

  /** A possible move of a phase's sender is a write still to make. */
  lemma WriteInOrder(script: Script, g: nat, s: State, plan: Plan, a: Action)
    requires WellMatched(script) && Midway(script, g, s, WritesIn(plan), BytesIn(plan)) && Enabled(script, s, a)
    requires InOrder(script[g].writes, if g % 2 == 0 then 256 else 128, plan) && a.who == Writer(g)
    ensures CarryOut([a], g, [Write]) && InOrder(script[g].writes, if g % 2 == 0 then 256 else 128, plan + [Write])
    ensures Midway(script, g, Exec(script, s, a), WritesIn(plan + [Write]), BytesIn(plan + [Write]))
  {
    hide InPhase, Exec, Enabled, Wire, Concat, Matched, Shaped, SentSoFar;
    SenderOnlyWrites(script, s, a);
    MidwayWrite(script, g, s, WritesIn(plan), BytesIn(plan), a);
    assert (plan + [Write])[..|plan|] == plan;
  }

  lemma ReadBounds(script: Script, s: State, a: Action)
    requires Enabled(script, s, a) && AtRead(script, Get(s, a.who))
    ensures a.bytes <= (if a.who == Server then 256 else 128) && a.bytes <= |Get(s, a.who).inbox|
  {
  }

  /** A possible read of its receiver takes bytes that have been written. */
  lemma TakeInOrder(script: Script, g: nat, s: State, plan: Plan, a: Action)
    requires WellMatched(script) && Midway(script, g, s, WritesIn(plan), BytesIn(plan)) && Enabled(script, s, a)
    requires InOrder(script[g].writes, if g % 2 == 0 then 256 else 128, plan)
    requires a.who == Taker(g) && AtRead(script, Get(s, a.who))
    ensures CarryOut([a], g, [Take(a.bytes)])
    ensures InOrder(script[g].writes, if g % 2 == 0 then 256 else 128, plan + [Take(a.bytes)])
    ensures Midway(script, g, Exec(script, s, a), WritesIn(plan + [Take(a.bytes)]), BytesIn(plan + [Take(a.bytes)]))
  {
    hide InPhase, Exec, Enabled, AtRead, Wire, Concat, Matched, Shaped, SentSoFar;
    NoEndOfFile(script, s, a);
    ReadBounds(script, s, a);
    MidwayTake(script, g, s, WritesIn(plan), BytesIn(plan), a);
    assert (plan + [Take(a.bytes)])[..|plan|] == plan;
  }

  /** A receiver in a phase that moves without reading is leaving, and has read everything. */
  lemma LeaveIsLast(script: Script, g: nat, s: State, plan: Plan, a: Action)
    requires WellMatched(script) && Midway(script, g, s, WritesIn(plan), BytesIn(plan)) && Enabled(script, s, a)
    requires InOrder(script[g].writes, if g % 2 == 0 then 256 else 128, plan)
    requires a.who == Taker(g) && !AtRead(script, Get(s, a.who))
    ensures Feasible(script[g].writes, if g % 2 == 0 then 256 else 128, plan)
    ensures BroughtTo(script, Exec(script, s, a), g + 1, [])
  {
    hide Exec, Wire, Concat, Matched, StoppedBy, Receipts, Between, Enabled, Shaped;
    TakerReads(script, g, s, WritesIn(plan), BytesIn(plan));
    MidwayLeave(script, g, s, WritesIn(plan), BytesIn(plan), a);
    if g + 1 < |script| {
      EnterMidway(script, g + 1, Exec(script, s, a));
    }
  }

  lemma TakerReads(script: Script, g: nat, s: State, j: nat, t: nat)
    requires Midway(script, g, s, j, t)
    ensures var p := Get(s, Taker(g)); p.phase == g && (p.at.Reading? || p.at.FirstRead?)
  {
  }

  /** Every run unfolds into plans. */
  lemma {:induction false} RunUnfolds(script: Script, schedule: seq<Action>)
    returns (plans: seq<Plan>, plan: Plan, k: nat)
    requires WellMatched(script) && Run(script, schedule).Some?
    ensures Unfolds(script, schedule, plans, plan, k)
    ensures BroughtTo(script, Run(script, schedule).value, |plans|, plan)
  {
    hide WellMatched, Enabled, Exec, Midway, Between, Feasible, InOrder, AtRead, Get, Init;
    if schedule == [] {
      plans, plan, k := [], [], 0;
      StartUnfolds(script);
    } else {
      var n := |schedule| - 1;
      var a := schedule[n];
      plans, plan, k := RunUnfolds(script, schedule[..n]);
      var s := Run(script, schedule[..n]).value;
      var g := |plans|;
      if g == |script| {
        BetweenIsDone(script, s, a);
        assert false;
      } else if a.who == Taker(g) && !AtRead(script, Get(s, a.who)) {
        LeaveIsLast(script, g, s, plan, a);
        UnfoldLeave(script, schedule, plans, plan, k);
        plans, plan, k := plans + [plan], [], n + 1;
      } else {
        var m := if a.who == Writer(g) then Write else Take(a.bytes);
        if a.who == Writer(g) {
          WriteInOrder(script, g, s, plan, a);
        } else {
          TakeInOrder(script, g, s, plan, a);
        }
        UnfoldMove(script, schedule, plans, plan, k, m);
        plan := plan + [m];
      }
    }
  }

  lemma StartUnfolds(script: Script)
    requires WellMatched(script)
    ensures Unfolds(script, [], [], [], 0) && BroughtTo(script, Init(script), 0, [])
  {
    StartBetween(script);
    if script != [] {
      EnterMidway(script, 0, Init(script));
    }
  }

  lemma BetweenIsDone(script: Script, s: State, a: Action)
    requires Between(script, s, |script|)
    ensures AllDone(script, s) && !Enabled(script, s, a)
  {
    assert Get(s, Client) == s.client && Get(s, Server) == s.server;
  }

  lemma UnfoldMove(script: Script, schedule: seq<Action>, plans: seq<Plan>, plan: Plan, k: nat, m: Move)
    requires var n := |schedule| - 1; n >= 0 && Unfolds(script, schedule[..n], plans, plan, k)
    requires |plans| < |script| && CarryOut([schedule[|schedule| - 1]], |plans|, [m])
    requires InOrder(script[|plans|].writes, if |plans| % 2 == 0 then 256 else 128, plan + [m])
    ensures Unfolds(script, schedule, plans, plan + [m], k)
  {
    hide InOrder, Feasible, Follows;
    var n := |schedule| - 1;
    assert schedule[..n][..k] == schedule[..k];
    assert schedule[k..] == schedule[..n][k..] + [schedule[n]];
    assert [schedule[n]][0] == schedule[n] && [m][0] == m;
  }

  lemma UnfoldLeave(script: Script, schedule: seq<Action>, plans: seq<Plan>, plan: Plan, k: nat)
    requires var n := |schedule| - 1; n >= 0 && Unfolds(script, schedule[..n], plans, plan, k)
    requires |plans| < |script| && schedule[|schedule| - 1].who == Taker(|plans|)
    requires Feasible(script[|plans|].writes, if |plans| % 2 == 0 then 256 else 128, plan)
    ensures Unfolds(script, schedule, plans + [plan], [], |schedule|)
  {
    hide Feasible;
    var n := |schedule| - 1;
    assert schedule[..n][..k] == schedule[..k] && schedule[..n][k..] == schedule[k..n];
    assert n - |plan| == k;
    assert schedule[..|schedule|] == schedule && schedule[|schedule|..] == [];
    assert (plans + [plan])[..|plans|] == plans;
  }

  /** The runs of a well-matched script, exactly: a schedule is a run if and only if it unfolds, phase by
      phase, into some order of all the sender's writes and of reads of written bytes, the last phase
      perhaps incomplete. The sizes of the reads are free up to the read buffers, 256 bytes and 128. */
  lemma RunsExactly(script: Script, schedule: seq<Action>)
    requires WellMatched(script)
    ensures Run(script, schedule).Some? <==> exists plans, plan, k: nat :: Unfolds(script, schedule, plans, plan, k)
  {
    hide WellMatched, Run, Between, Feasible, InOrder, Follows, WaitLogs, PartWay;
    if Run(script, schedule).Some? {
      var plans, plan, k := RunUnfolds(script, schedule);
    }
    forall plans, plan, k: nat | Unfolds(script, schedule, plans, plan, k)
      ensures Run(script, schedule).Some?
    {
      FollowsRuns(script, schedule[..k], plans);
      assert schedule == schedule[..k] + schedule[k..];
      if |plans| < |script| {
        CarryOutPlan(script, schedule[..k], schedule[k..], |plans|, plan);
        PartOfRun(script, schedule, |plans|, plan, WaitLogs(script, schedule[..k], Writer(|plans|)),
                  WaitLogs(script, schedule[..k], Taker(|plans|)));
      } else {
        assert schedule[..k] == schedule;
      }
    }
  }

  lemma PartOfRun(script: Script, schedule: seq<Action>, g: nat, plan: Plan, writer: seq<Log>, reader: seq<Log>)
    requires PartWay(script, schedule, g, plan, writer, reader)
    ensures Run(script, schedule).Some?
  {
  }

  /** The runs that complete are those of a plan for every phase, and each wait has then made just the
      reads planned. */
  lemma CompletedRunsExactly(script: Script, schedule: seq<Action>)
    requires WellMatched(script)
    ensures Run(script, schedule).Some? && AllDone(script, Run(script, schedule).value) <==>
            exists plans :: |plans| == |script| && AllFeasible(script, plans) && Follows(schedule, plans)
    ensures forall plans :: |plans| == |script| && AllFeasible(script, plans) && Follows(schedule, plans) ==>
              forall x :: WaitLogs(script, schedule, x) == LogsOf(script, plans, x)
  {
    hide WellMatched, Run, Feasible, InOrder, Follows, WaitLogs, Between, AllDone, Midway;
    if Run(script, schedule).Some? && AllDone(script, Run(script, schedule).value) {
      var plans, plan, k := RunUnfolds(script, schedule);
      NotMidway(script, Run(script, schedule).value, |plans|, WritesIn(plan), BytesIn(plan));
      assert schedule[..k] == schedule;
    }
    forall plans | |plans| == |script| && AllFeasible(script, plans) && Follows(schedule, plans)
      ensures Run(script, schedule).Some? && AllDone(script, Run(script, schedule).value)
      ensures forall x :: WaitLogs(script, schedule, x) == LogsOf(script, plans, x)
    {
      FollowsRuns(script, schedule, plans);
      BetweenIsDone(script, Run(script, schedule).value, Action(Client, 0));
    }
  }

  lemma NotMidway(script: Script, s: State, g: nat, j: nat, t: nat)
    requires AllDone(script, s)
    ensures !Midway(script, g, s, j, t)
  {
  }

  // ----- Every cutting happens -----

  /** All writes of a phase, and then reads of these sizes. */
  function Reading(writes: nat, cut: seq<seq<byte>>): Plan {
    seq(writes, _ => Write) + seq(|cut|, i requires 0 <= i < |cut| => Take(|cut[i]|))
  }

  /** Every part is a read that a buffer of this size can hold. */
  predicate Fits(cut: seq<seq<byte>>, capacity: nat) {
    forall i :: 0 <= i < |cut| ==> 1 <= |cut[i]| <= capacity
  }

  lemma {:induction false} OnlyWrites(writes: seq<seq<Frame>>, capacity: nat, j: nat, stream: seq<byte>)
    requires j <= |writes|
    ensures var plan := Reading(j, []);
            InOrder(writes, capacity, plan) && WritesIn(plan) == j && BytesIn(plan) == 0 && ReadsOf(plan, stream) == []
  {
    if j == 0 {
    } else {
      OnlyWrites(writes, capacity, j - 1, stream);
      assert Reading(j, [])[..j - 1] == Reading(j - 1, []);
    }
  }

  /** A plan that takes the first i parts of a cutting, with its writes behind it. */
  predicate Takes(writes: seq<seq<Frame>>, capacity: nat, cut: seq<seq<byte>>, i: nat, plan: Plan)
    requires i <= |cut|
  {
    && InOrder(writes, capacity, plan) && WritesIn(plan) == |writes|
    && BytesIn(plan) == |Concat(cut[..i])| <= |Concat(cut)|
    && ReadsOf(plan, Concat(cut)) == Datas(cut[..i])
  }

  lemma TakesOneMore(writes: seq<seq<Frame>>, capacity: nat, cut: seq<seq<byte>>, i: nat, plan: Plan)
    requires i < |cut| && Concat(cut) == Wire(Concat(writes)) && 1 <= |cut[i]| <= capacity
    requires Takes(writes, capacity, cut, i, plan)
    ensures Takes(writes, capacity, cut, i + 1, plan + [Take(|cut[i]|)])
  {
    hide Wire, Concat;
    ConcatNext(cut, i);
    ConcatPrefix(cut, i);
    ConcatPrefix(cut, i + 1);
    assert (plan + [Take(|cut[i]|)])[..|plan|] == plan;
    assert writes[..|writes|] == writes;
    assert Concat(cut)[|Concat(cut[..i])|..|Concat(cut[..i + 1])|] == cut[i];
    assert Datas(cut[..i + 1]) == Datas(cut[..i]) + [Data(cut[i])];
  }

  lemma {:induction false} ReadingTakes(writes: seq<seq<Frame>>, capacity: nat, cut: seq<seq<byte>>, i: nat)
    requires i <= |cut| && Concat(cut) == Wire(Concat(writes)) && Fits(cut, capacity)
    ensures Takes(writes, capacity, cut, i, Reading(|writes|, cut[..i]))
  {
    hide Wire, Concat, InOrder, WritesIn, BytesIn, ReadsOf;
    if i == 0 {
      OnlyWrites(writes, capacity, |writes|, Concat(cut));
      assert cut[..0] == [];
      ConcatNothing<byte>();
    } else {
      ReadingTakes(writes, capacity, cut, i - 1);
      var before := Reading(|writes|, cut[..i - 1]);
      assert Reading(|writes|, cut[..i]) == before + [Take(|cut[i - 1]|)];
      TakesOneMore(writes, capacity, cut, i - 1, before);
    }
  }

  lemma ConcatNothing<T>()
    ensures Concat<T>([]) == []
  {
  }

  /** Any plans are followed by some schedule. */
  lemma {:induction false} SomeSchedule(plans: seq<Plan>) returns (schedule: seq<Action>)
    ensures Follows(schedule, plans)
  {
    if plans == [] {
      schedule := [];
    } else {
      var g := |plans| - 1;
      var plan := plans[g];
      var before := SomeSchedule(plans[..g]);
      var actions := seq(|plan|, i requires 0 <= i < |plan| =>
        if plan[i].Write? then Action(Writer(g), 0) else Action(Taker(g), plan[i].bytes));
      schedule := before + actions + [Action(Taker(g), 0)];
      assert schedule[..|before|] == before;
      assert schedule[|before|..|schedule| - 1] == actions;
    }
  }

  lemma {:induction false} LogsCount(script: Script, plans: seq<Plan>, x: Side)
    requires AllFeasible(script, plans)
    ensures |LogsOf(script, plans, x)| == if x == Server then (|plans| + 1) / 2 else |plans| / 2
  {
    hide Feasible, ReadsOf, Sent, Wire;
    if plans == [] {
    } else {
      LogsCount(script, plans[..|plans| - 1], x);
    }
  }

  /** Where the reads of phase g are found in the logs of its receiver. */
  lemma {:induction false} LogsAt(script: Script, plans: seq<Plan>, g: nat)
    requires AllFeasible(script, plans) && g < |plans|
    ensures var logs := LogsOf(script, plans, Taker(g));
            g / 2 < |logs| && logs[g / 2] == Log([], ReadsOf(plans[g], Wire(Sent(script[g]))))
    decreases |plans|
  {
    hide Feasible, ReadsOf, Sent, Wire;
    var n := |plans| - 1;
    LogsCount(script, plans[..n], Taker(g));
    if g < n {
      LogsAt(script, plans[..n], g);
    }
  }

  /** One cutting for each phase, into reads of at most 256 bytes by the server and 128 by the client. */
  predicate Cutting(script: Script, cuts: seq<seq<seq<byte>>>)
    ensures Cutting(script, cuts) ==> |cuts| == |script|
  {
    && |cuts| == |script|
    && forall g :: 0 <= g < |script| ==>
         Concat(cuts[g]) == Wire(Sent(script[g])) && Fits(cuts[g], if g % 2 == 0 then 256 else 128)
  }

  function PlansFor(script: Script, cuts: seq<seq<seq<byte>>>): (plans: seq<Plan>)
    requires Cutting(script, cuts)
    ensures |plans| == |script|
  {
    seq(|script|, g requires 0 <= g < |script| => Reading(|script[g].writes|, cuts[g]))
  }

  lemma PlanFits(script: Script, cuts: seq<seq<seq<byte>>>, g: nat)
    requires Cutting(script, cuts) && g < |script|
    ensures Feasible(script[g].writes, if g % 2 == 0 then 256 else 128, PlansFor(script, cuts)[g])
    ensures ReadsOf(PlansFor(script, cuts)[g], Wire(Sent(script[g]))) == Datas(cuts[g])
  {
    hide InOrder, Wire, Concat, Reading, Fits, BytesIn, WritesIn, ReadsOf;
    ReadingTakes(script[g].writes, if g % 2 == 0 then 256 else 128, cuts[g], |cuts[g]|);
    assert cuts[g][..|cuts[g]|] == cuts[g];
  }

  /** Wait number k began with an empty buffer, and its reads returned the parts of this cutting. */
  predicate MadeReads(logs: seq<Log>, k: nat, cut: seq<seq<byte>>) {
    k < |logs| && logs[k] == Log([], Datas(cut))
  }

  /** Whatever way the bytes of the batches are cut into reads of at most 256 bytes by the server and 128 by
      the client, one cutting per phase, some run makes just these reads, and completes. */
  lemma EveryCutting(script: Script, cuts: seq<seq<seq<byte>>>) returns (schedule: seq<Action>)
    requires WellMatched(script) && Cutting(script, cuts)
    ensures Run(script, schedule).Some? && AllDone(script, Run(script, schedule).value)
    ensures forall g :: 0 <= g < |script| ==>
              MadeReads(WaitLogs(script, schedule, if g % 2 == 0 then Server else Client), g / 2, cuts[g])
  {
    hide WellMatched, Run, WaitLogs, AllDone, Follows, LogsOf, Feasible, Cutting, PlansFor, ReadsOf, Sent, Wire, Datas;
    var plans := PlansFor(script, cuts);
    forall g | 0 <= g < |script|
      ensures Feasible(script[g].writes, if g % 2 == 0 then 256 else 128, plans[g])
    {
      PlanFits(script, cuts, g);
    }
    schedule := SomeSchedule(plans);
    CompletedRunsExactly(script, schedule);
    forall g | 0 <= g < |script|
      ensures MadeReads(WaitLogs(script, schedule, if g % 2 == 0 then Server else Client), g / 2, cuts[g])
    {
      PlanFits(script, cuts, g);
      LogsAt(script, plans, g);
    }
  }
}
