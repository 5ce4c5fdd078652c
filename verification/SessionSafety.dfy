// No run of a well-matched script leaves the lockstep.

module SessionSafety {
  import opened Packets
  import opened Streams
  import opened Lists
  import opened Decoders
  import opened Waits
  import opened Sessions

  /** What the sender of phase g has written of it: everything, once it has moved on. */
  function SentSoFar(script: Script, g: nat, p: Process): seq<Frame>
    requires g < |script|
  {
    var writes := script[g].writes;
    if p.phase == g && p.at.Writing? && p.at.next <= |writes| then Concat(writes[..p.at.next]) else Sent(script[g])
  }

  /** The sender of phase g is writing it, or has entered the next phase and waits there. */
  predicate SenderInStep(script: Script, g: nat, x: Side, p: Process)
    requires g < |script|
  {
    && p.inbox == [] && p.buffer == []
    && (if p.phase == g then p.at.Writing? && p.at.next < |script[g].writes|
        else p.phase == g + 1 && p.at == Entry(script, x, g + 1) && p.all == [])
    && p.held == Receipts(script, x, g)
  }

  /** The receiver of phase g holds a prefix of what has been sent; its buffer and inbox are the
      rest, and the buffer holds no whole frame. */
  predicate ReceiverInStep(script: Script, g: nat, x: Side, p: Process, sent: seq<Frame>)
    requires g < |script|
  {
    && p.phase == g
    && (p.at.Reading? || (p.at.FirstRead? && p.all == [] && p.buffer == []))
    && |p.all| <= |sent| && p.all == sent[..|p.all|]
    && p.buffer + p.inbox == Wire(sent[|p.all|..])
    && StoppedBy(p.buffer, Waiting)
    && p.held == Receipts(script, x, g)
  }

  /** The session stands in phase g. */
  predicate InPhase(script: Script, s: State, g: nat) {
    g < |script| &&
    var x := Sender(g);
    var y := Other(x);
    && SenderInStep(script, g, x, Get(s, x))
    && ReceiverInStep(script, g, y, Get(s, y), SentSoFar(script, g, Get(s, x)))
  }

  predicate ProcessDone(script: Script, x: Side, p: Process) {
    && p.phase == |script| && p.at.Exited?
    && p.inbox == [] && p.buffer == []
    && p.held == Receipts(script, x, |script|)
  }

  predicate AllDone(script: Script, s: State) {
    ProcessDone(script, Client, s.client) && ProcessDone(script, Server, s.server)
  }

  function Level(s: State): nat {
    if s.client.phase <= s.server.phase then s.client.phase else s.server.phase
  }

  predicate InStep(script: Script, s: State) {
    AllDone(script, s) || InPhase(script, s, Level(s))
  }

  // ----- The invariant, move by move -----

  /** Between two phases: both processes enter phase g, with nothing on the way, in a buffer or in a wait. */
  predicate Between(script: Script, s: State, g: nat) {
    g <= |script| &&
    forall x :: var p := Get(s, x);
      && p.phase == g && p.at == Entry(script, x, g) && p.all == [] && p.inbox == [] && p.buffer == []
      && p.held == Receipts(script, x, g)
  }

  lemma Begin(script: Script, s: State, g: nat)
    requires Shaped(script) && Between(script, s, g)
    ensures InStep(script, s) && Level(s) == g
  {
    var x := Sender(g);
    assert Get(s, Client) == s.client && Get(s, Server) == s.server;
    if g < |script| {
      var ph := script[g];
      assert ph.writes != [];
      NothingIsNothing();
      assert InPhase(script, s, g);
    }
  }

  lemma StartInStep(script: Script)
    requires WellMatched(script)
    ensures InStep(script, Init(script))
  {
  }

  /** While the sender still has writes to make, fewer frames are out than the receiver wants. */
  lemma FewerSent(writes: seq<seq<Frame>>, j: nat)
    requires NoEmptyPart(writes) && j <= |writes|
    ensures j < |writes| ==> |Concat(writes[..j])| < |Concat(writes)|
    ensures Concat(writes[..j]) <= Concat(writes)
  {
    ConcatPrefix(writes, j);
    if j < |writes| {
      ConcatNext(writes, j);
      ConcatPrefix(writes, j + 1);
    }
  }

  /** A write adds its frames to what has been sent. */
  lemma WriteSends(script: Script, s: State, x: Side)
    requires var p := Get(s, x);
             p.phase < |script| && p.at.Writing? && p.at.next < |script[p.phase].writes|
    requires Wire(script[Get(s, x).phase].writes[Get(s, x).at.next]) != []
    ensures var p, p' := Get(s, x), Get(WriteStep(script, s, x), x);
            SentSoFar(script, p.phase, p') == SentSoFar(script, p.phase, p) + script[p.phase].writes[p.at.next]
  {
    hide Wire, Concat;
    var p := Get(s, x);
    var writes := script[p.phase].writes;
    ConcatNext(writes, p.at.next);
    assert writes[..|writes|] == writes;
  }

  /** The sender's move keeps the session in phase. */
  lemma WriteKeeps(script: Script, s: State)
    requires Shaped(script) && InPhase(script, s, Level(s))
    requires var g := Level(s); Get(s, Sender(g)).phase == g
    ensures var s' := WriteStep(script, s, Sender(Level(s))); Level(s') == Level(s) && InPhase(script, s', Level(s'))
  {
    hide Wire, StoppedBy, Receipts, Passes;
    var g := Level(s);
    var ph := script[g];
    var x := Sender(g);
    var p, q := Get(s, x), Get(s, Other(x));
    var sent, more := SentSoFar(script, g, p), ph.writes[p.at.next];
    var s' := WriteStep(script, s, x);
    WireLength(more);
    WriteSends(script, s, x);
    assert SentSoFar(script, g, Get(s', x)) == sent + more;
    assert (sent + more)[|q.all|..] == sent[|q.all|..] + more;
    WireConcat(sent[|q.all|..], more);
    assert q.buffer + (q.inbox + Wire(more)) == q.buffer + q.inbox + Wire(more);
  }

  /** The receiver's read keeps the session in phase, and never fails. */
  lemma ReadKeeps(script: Script, s: State, bytes: nat)
    requires InPhase(script, s, Level(s))
    requires var p := Get(s, Other(Sender(Level(s)))); AtRead(script, p) && 1 <= bytes <= |p.inbox|
    ensures var y := Other(Sender(Level(s)));
            var s' := Put(s, y, ReadStep(script[Level(s)].wait, Get(s, y), bytes));
            Level(s') == Level(s) && InPhase(script, s', Level(s'))
  {
    hide Wire, StoppedBy, Receipts, Passes, Receive;
    var g := Level(s);
    var x := Sender(g);
    var y := Other(x);
    var p := Get(s, y);
    var sent := SentSoFar(script, g, Get(s, x));
    var k := |p.all|;
    var chunk, later := p.inbox[..bytes], p.inbox[bytes..];
    assert p.buffer + chunk + later == p.buffer + p.inbox;
    ReceivePart(p.buffer, chunk, later, sent[k..]);
    var c := Receive(p.buffer, Data(chunk));
    var m := |c.packets|;
    assert sent[..k] + sent[k..][..m] == sent[..k + m];
    assert sent[k..][m..] == sent[k + m..];
    var s' := Put(s, y, ReadStep(script[g].wait, p, bytes));
    assert InPhase(script, s', g);
  }

  /** With enough packets the receiver holds the whole batch, and both sides enter the next phase. */
  lemma LeaveKeeps(script: Script, s: State)
    requires Shaped(script) && InPhase(script, s, Level(s)) && Matched(script[Level(s)])
    requires var p := Get(s, Other(Sender(Level(s)))); p.at.Reading? && |p.all| >= script[Level(s)].wait.want
    ensures var y := Other(Sender(Level(s)));
            var s' := Put(s, y, LeaveWait(script, y, Get(s, y)));
            InStep(script, s') && Level(s') == Level(s) + 1 && Between(script, s', Level(s'))
  {
    hide StoppedBy, Passes, Wire, Receipts, Concat;
    var g := Level(s);
    var x := Sender(g);
    var y := Other(x);
    var p, q := Get(s, y), Get(s, x);
    WholeBatch(script, s);
    var s' := Put(s, y, LeaveWait(script, y, p));
    assert Verdict(script[g].wait, p.all) == Held;
    ReceiptsGrow(script, g);
    forall z ensures var r := Get(s', z);
               && r.phase == g + 1 && r.at == Entry(script, z, g + 1) && r.all == [] && r.inbox == [] && r.buffer == []
               && r.held == Receipts(script, z, g + 1)
    {
      assert z == x || z == y;
    }
    Begin(script, s', g + 1);
  }

  /** A receiver that has enough packets in a matched phase has the batch, and nothing else. */
  lemma WholeBatch(script: Script, s: State)
    requires Shaped(script) && InPhase(script, s, Level(s)) && Matched(script[Level(s)])
    requires |Get(s, Other(Sender(Level(s)))).all| >= script[Level(s)].wait.want
    ensures var g := Level(s);
            var p := Get(s, Other(Sender(g)));
            && p.all == Sent(script[g]) && p.inbox == [] && p.buffer == []
            && Get(s, Sender(g)).phase == g + 1
  {
    hide StoppedBy, Passes, Receipts;
    var g := Level(s);
    var q := Get(s, Sender(g));
    if q.phase == g {
      FewerSent(script[g].writes, q.at.next);
      assert false;
    }
  }

  lemma ReceiptsGrow(script: Script, g: nat)
    requires g < |script|
    ensures Receipts(script, Sender(g), g + 1) == Receipts(script, Sender(g), g)
    ensures Receipts(script, Other(Sender(g)), g + 1) == Receipts(script, Other(Sender(g)), g) + [Sent(script[g])]
  {
    hide Sent;
  }

  /** The sender of a phase moves only to write: once it has moved on, nothing is on its way to it
      and its peer is still running. */
  lemma SenderOnlyWrites(script: Script, s: State, a: Action)
    requires InPhase(script, s, Level(s)) && Enabled(script, s, a) && a.who == Sender(Level(s))
    ensures Get(s, a.who).phase == Level(s) && Get(s, a.who).at.Writing?
  {
    hide Receipts, Wire, StoppedBy, Sent, Concat, SentSoFar;
  }

  /** The receiver never sees the end of the stream: with a sender that has moved on and nothing on
      the way, it has its packets. */
  lemma NoEndOfFile(script: Script, s: State, a: Action)
    requires Shaped(script) && InPhase(script, s, Level(s)) && Matched(script[Level(s)]) && Enabled(script, s, a)
    requires a.who == Other(Sender(Level(s))) && AtRead(script, Get(s, a.who))
    ensures a.bytes >= 1
  {
    hide Passes, Receipts;
    var g := Level(s);
    var p, q := Get(s, a.who), Get(s, Sender(g));
    if a.bytes == 0 {
      assert Finished(q) && q.phase == g + 1;
      assert p.buffer + p.inbox == p.buffer;
      WholeFramesDoNotWait(Sent(script[g])[|p.all|..]);
    }
  }

  /** A move in a matched phase keeps the session in step. */
  lemma StepKeeps(script: Script, s: State, a: Action)
    requires Shaped(script) && InPhase(script, s, Level(s)) && Matched(script[Level(s)]) && Enabled(script, s, a)
    ensures var s' := Exec(script, s, a);
            && InStep(script, s')
            && (Level(s') == Level(s) || (Level(s') == Level(s) + 1 && Between(script, s', Level(s'))))
  {
    hide Passes, Receipts, StoppedBy, Wire, Shaped, Matched, SentSoFar, Entry, Enter, WriteStep, ReadStep, LeaveWait;
    if a.who == Sender(Level(s)) {
      SenderOnlyWrites(script, s, a);
      WriteKeeps(script, s);
    } else if AtRead(script, Get(s, a.who)) {
      NoEndOfFile(script, s, a);
      ReadKeeps(script, s, a.bytes);
    } else {
      LeaveKeeps(script, s);
    }
  }

  lemma NotDoneYet(script: Script, s: State, a: Action)
    requires InStep(script, s) && Enabled(script, s, a)
    ensures Level(s) < |script| && InPhase(script, s, Level(s))
  {
  }

  /** Every reachable state is in step. */
  lemma {:induction false} ReachableInStep(script: Script, schedule: seq<Action>)
    requires WellMatched(script) && Run(script, schedule).Some?
    ensures InStep(script, Run(script, schedule).value)
  {
    hide Shaped, Matched, InPhase, Enabled, Exec, Init;
    if schedule == [] {
      StartInStep(script);
    } else {
      var n := |schedule| - 1;
      ReachableInStep(script, schedule[..n]);
      var s := Run(script, schedule[..n]).value;
      NotDoneYet(script, s, schedule[n]);
      StepKeeps(script, s, schedule[n]);
    }
  }
}
