// The matching condition is necessary: a script with one phase whose receiver waits for another
// number of packets than is sent, or refuses them, has a run that stops without completing it.

module SessionConverse {
  import opened Streams
  import opened Lists
  import opened Decoders
  import opened Waits
  import opened Sessions
  import opened SessionSafety
  import opened SessionLiveness

  /** The receiver of phase g. */
  function Receiver(g: nat): Side {
    Other(Sender(g))
  }

  /** The receiver of phase g has given up, or holds something else than what phase g sends. */
  predicate Off(script: Script, g: nat, s: State)
    requires g < |script|
  {
    var p := Get(s, Receiver(g));
    p.at.Stopped? || (|p.held| > g / 2 && p.held[g / 2] != Sent(script[g]))
  }

  /** The session has not passed phase g, in which its receiver has no more than it waits for. */
  predicate OnTheWay(script: Script, g: nat, s: State)
    requires g < |script|
  {
    && Level(s) <= g && InPhase(script, s, Level(s))
    && (Level(s) == g ==> |Get(s, Receiver(g)).all| <= script[g].wait.want)
  }

  /** The receiver of phase g has g / 2 batches behind it, and phase g is its next. */
  lemma {:induction false} ReceiptIndex(script: Script, x: Side, n: nat)
    requires n <= |script|
    ensures |Receipts(script, x, n)| == if x == Server then (n + 1) / 2 else n / 2
    ensures forall g :: 0 <= g < n && Receiver(g) == x ==> Receipts(script, x, n)[g / 2] == Sent(script[g])
  {
    hide Sent;
    if n == 0 {
    } else {
      ReceiptIndex(script, x, n - 1);
      assert n / 2 * 2 == n || (n + 1) / 2 * 2 == n + 1;
    }
  }

  /** Once off, a session stays off: what a process holds is never taken back. */
  lemma OffStays(script: Script, g: nat, s: State, a: Action)
    requires g < |script| && Off(script, g, s) && Enabled(script, s, a)
    ensures Off(script, g, Exec(script, s, a))
  {
  }

  lemma DoneIsNotOff(script: Script, g: nat, s: State)
    requires g < |script| && AllDone(script, s)
    ensures !Off(script, g, s)
  {
    hide Sent;
    ReceiptIndex(script, Receiver(g), |script|);
  }

  /** Leaving an unmatched phase with exactly as many packets as waited for. */
  lemma LeaveGoesOff(script: Script, g: nat, s: State)
    requires InPhase(script, s, g) && Level(s) == g && !Matched(script[g])
    requires var p := Get(s, Receiver(g)); p.at.Reading? && |p.all| == script[g].wait.want
    requires SentSoFar(script, g, Get(s, Sender(g))) <= Sent(script[g])
    ensures var y := Receiver(g); Off(script, g, Put(s, y, LeaveWait(script, y, Get(s, y))))
  {
    hide Sent, Wire, StoppedBy, Passes;
    var y := Receiver(g);
    var p := Get(s, y);
    ReceiptIndex(script, y, g);
    if p.all == Sent(script[g]) {
      assert Verdict(script[g].wait, p.all).Failed?;
    }
  }

  /** Reading the end of the stream in the middle of a wait. */
  lemma EndGoesOff(script: Script, g: nat, s: State)
    requires Shaped(script) && InPhase(script, s, g) && Level(s) == g
    requires Get(s, Receiver(g)).inbox == [] && Finished(Get(s, Sender(g)))
    ensures var y := Receiver(g); Off(script, g, Put(s, y, ReadStep(script[g].wait, Get(s, y), 0)))
  {
    hide Wire, StoppedBy, Receipts;
    if Get(s, Receiver(g)).at.FirstRead? {
      FirstReadHasInput(script, g, s);
    }
  }

  /** Before the first read of a batch that has been sent, all of it is on the way. */
  lemma FirstReadHasInput(script: Script, g: nat, s: State)
    requires Shaped(script) && InPhase(script, s, g)
    requires Get(s, Receiver(g)).at.FirstRead? && Get(s, Sender(g)).phase == g + 1
    ensures |Get(s, Receiver(g)).inbox| > 0
  {
    hide Wire, StoppedBy, Receipts;
    var ph := script[g];
    ConcatIsLonger(ph.writes);
    WireLength(Sent(ph));
    assert Sent(ph)[0..] == Sent(ph);
  }

  /** A read of one byte completes at most one packet. */
  lemma OneByteOnePacket(script: Script, s: State)
    requires InPhase(script, s, Level(s))
    requires var p := Get(s, Receiver(Level(s))); AtRead(script, p) && |p.inbox| >= 1
    ensures var p := Get(s, Receiver(Level(s)));
            var p' := ReadStep(script[Level(s)].wait, p, 1);
            |p'.all| <= |p.all| + 1
  {
    hide Wire, StoppedBy, Receipts, Sent, Receive, Settled;
    var p := Get(s, Receiver(Level(s)));
    StoppedIsSettled(p.buffer, Waiting);
    BurstBound(p.buffer, p.inbox[..1]);
  }

  /** A receiver at a read has room for one more packet; one that leaves has enough. */
  lemma ReceiverCounts(script: Script, s: State)
    requires Shaped(script) && InPhase(script, s, Level(s))
    ensures var p, want := Get(s, Receiver(Level(s))), script[Level(s)].wait.want;
            && p.phase == Level(s)
            && (if AtRead(script, p) then |p.all| + 1 <= want else p.at.Reading? && |p.all| >= want)
  {
  }

  lemma WriteLeavesPackets(script: Script, s: State)
    requires InPhase(script, s, Level(s)) && Get(s, Sender(Level(s))).phase == Level(s)
    ensures var x := Sender(Level(s)); Get(WriteStep(script, s, x), Other(x)).all == Get(s, Other(x)).all
  {
  }

  /** With reads of one byte, a session on its way to an unmatched phase stays on its way or is off. */
  lemma StepToMismatch(script: Script, g: nat, s: State, a: Action)
    requires Shaped(script) && g < |script| && !Matched(script[g]) && forall i :: 0 <= i < g ==> Matched(script[i])
    requires OnTheWay(script, g, s) && Enabled(script, s, a) && a.bytes <= 1
    ensures OnTheWay(script, g, Exec(script, s, a)) || Off(script, g, Exec(script, s, a))
  {
    hide Matched, Passes, Receipts, StoppedBy, Wire, SentSoFar, Entry, Enter, Sent, SenderInStep, ReceiverInStep,
         Shaped, WriteStep, ReadStep, LeaveWait, Off;
    var y := Receiver(g);
    if Level(s) < g {
      StepKeeps(script, s, a);
      StillBefore(script, g, Exec(script, s, a));
    } else {
      ReceiverCounts(script, s);
      if a.who == Sender(g) {
        SenderOnlyWrites(script, s, a);
        WriteKeeps(script, s);
        WriteLeavesPackets(script, s);
      } else if AtRead(script, Get(s, y)) {
        if a.bytes == 1 {
          ReadKeeps(script, s, 1);
          OneByteOnePacket(script, s);
        } else {
          EndGoesOff(script, g, s);
        }
      } else {
        SentIsPrefix(script, g, Get(s, Sender(g)));
        LeaveGoesOff(script, g, s);
      }
    }
  }

  lemma StillBefore(script: Script, g: nat, s: State)
    requires InStep(script, s) && g < |script| && Level(s) <= g
    requires Level(s) == g ==> s.client.all == s.server.all == []
    ensures OnTheWay(script, g, s)
  {
  }

  predicate OneByteReads(schedule: seq<Action>) {
    forall i :: 0 <= i < |schedule| ==> schedule[i].bytes <= 1
  }

  lemma {:induction false} RunToMismatch(script: Script, g: nat, schedule: seq<Action>)
    requires Shaped(script) && g < |script| && !Matched(script[g]) && forall i :: 0 <= i < g ==> Matched(script[i])
    requires OneByteReads(schedule) && Run(script, schedule).Some?
    ensures var s := Run(script, schedule).value; OnTheWay(script, g, s) || Off(script, g, s)
  {
    hide Shaped, Matched, Enabled, Exec, OnTheWay, Off;
    if schedule == [] {
      StartOnTheWay(script, g);
    } else {
      var n := |schedule| - 1;
      RunToMismatch(script, g, schedule[..n]);
      var s := Run(script, schedule[..n]).value;
      if Off(script, g, s) {
        OffStays(script, g, s, schedule[n]);
      } else {
        StepToMismatch(script, g, s, schedule[n]);
      }
    }
  }

  lemma StartOnTheWay(script: Script, g: nat)
    requires Shaped(script) && g < |script|
    ensures OnTheWay(script, g, Init(script))
  {
  }

  /** Where a process can move, it can move reading no more than one byte. */
  lemma OneByteIsEnough(script: Script, s: State, a: Action)
    requires Enabled(script, s, a)
    ensures Enabled(script, s, Action(a.who, if a.bytes == 0 then 0 else 1))
  {
  }

  lemma OneByteMove(script: Script, s: State) returns (a: Action)
    requires !Stuck(script, s)
    ensures Enabled(script, s, a) && a.bytes <= 1
  {
    hide Enabled;
    var x, n :| Enabled(script, s, Action(x, n));
    OneByteIsEnough(script, s, Action(x, n));
    a := Action(x, if n == 0 then 0 else 1);
  }

  /** Any run of one-byte reads can be continued by such reads until nothing is possible. */
  lemma {:induction false} RunUntilStuck(script: Script, schedule: seq<Action>) returns (full: seq<Action>)
    requires OneByteReads(schedule) && Run(script, schedule).Some?
    ensures OneByteReads(full) && Run(script, full).Some? && Stuck(script, Run(script, full).value)
    decreases Potential(script, Run(script, schedule).value)
  {
    hide Potential, Exec, Enabled, Run, Stuck;
    var s := Run(script, schedule).value;
    if Stuck(script, s) {
      return schedule;
    }
    var a := OneByteMove(script, s);
    EveryMoveSpends(script, s, a);
    RunNext(script, schedule, a);
    full := RunUntilStuck(script, schedule + [a]);
  }

  /** A script that is not well matched has a run that stops with its batches not all delivered. */
  lemma MismatchShows(script: Script, g: nat) returns (schedule: seq<Action>)
    requires Shaped(script) && g < |script| && !Matched(script[g])
    ensures Run(script, schedule).Some? && Stuck(script, Run(script, schedule).value)
    ensures !AllDone(script, Run(script, schedule).value)
    decreases g
  {
    hide Shaped, Matched, Enabled, InPhase, Off, AllDone, Exec;
    if i: nat :| i < g && !Matched(script[i]) {
      schedule := MismatchShows(script, i);
    } else {
      schedule := RunUntilStuck(script, []);
      RunToMismatch(script, g, schedule);
      var s := Run(script, schedule).value;
      if AllDone(script, s) {
        DoneIsNotOff(script, g, s);
        DoneIsPast(script, s);
      }
    }
  }

  lemma DoneIsPast(script: Script, s: State)
    requires AllDone(script, s)
    ensures Level(s) == |script|
  {
  }

  /** Every run of a script ends with both sides exited and every batch held as it was sent, exactly
      if the script is well matched. */
  lemma CompletesExactly(script: Script)
    requires Shaped(script)
    ensures WellMatched(script) <==>
            forall schedule :: Run(script, schedule).Some? && Stuck(script, Run(script, schedule).value) ==>
              AllDone(script, Run(script, schedule).value)
  {
    hide Shaped, Matched, Stuck, AllDone, Run;
    if WellMatched(script) {
      forall schedule | Run(script, schedule).Some? && Stuck(script, Run(script, schedule).value)
        ensures AllDone(script, Run(script, schedule).value)
      {
        AlwaysEnds(script, schedule);
      }
    } else {
      var g: nat :| g < |script| && !Matched(script[g]);
      var schedule := MismatchShows(script, g);
    }
  }
}
