// The waits of a session's processes are waits of the loop of main: in every run of every script,
// whatever the peer writes between two reads, each wait is what `Await` computes from its reads.

module SessionWait {
  import opened Bytes
  import opened Packets
  import opened Streams
  import opened Decoders
  import opened Waits
  import opened Sessions

  /** A wait of a process: the bytes left over when it began, and what its reads have returned. */
  datatype Log = Log(leftover: seq<byte>, input: seq<Read>)

  /** What a process gets from read(2) when the scheduler gives it this many bytes. */
  function ReadOf(p: Process, bytes: nat): Read
    requires bytes <= |p.inbox|
  {
    if bytes == 0 then EndOfFile else Data(p.inbox[..bytes])
  }

  function LogRead(p: Process, logs: seq<Log>, bytes: nat): seq<Log>
    requires bytes <= |p.inbox|
  {
    if p.at.FirstRead? || logs == [] then logs + [Log(p.buffer, [ReadOf(p, bytes)])]
    else
      var last := logs[|logs| - 1];
      logs[..|logs| - 1] + [last.(input := last.input + [ReadOf(p, bytes)])]
  }

  /** All waits that a side has begun in a run, with the reads it has made in each. */
  function WaitLogs(script: Script, schedule: seq<Action>, x: Side): seq<Log>
    requires Run(script, schedule).Some?
  {
    if schedule == [] then []
    else
      var n := |schedule| - 1;
      var s, a := Run(script, schedule[..n]).value, schedule[n];
      var logs := WaitLogs(script, schedule[..n], x);
      if a.who == x && AtRead(script, Get(s, x)) then LogRead(Get(s, x), logs, a.bytes)
      else logs
  }

  /** The phase of a side's k-th wait. */
  function WaitPhase(x: Side, k: nat): nat {
    if x == Server then 2 * k else 2 * k + 1
  }

  /** Await, run on the k-th wait's reads, with that wait's expectations. */
  function Awaits(script: Script, x: Side, logs: seq<Log>, k: nat): Awaited
    requires k < |logs| && WaitPhase(x, k) < |script|
  {
    Await(script[WaitPhase(x, k)].wait, logs[k].leftover, logs[k].input)
  }

  /** Every finished wait holds what Await holds, all its reads used. */
  predicate FinishedMatch(script: Script, x: Side, p: Process, logs: seq<Log>) {
    && |p.held| <= |logs|
    && forall k :: 0 <= k < |p.held| ==>
         && WaitPhase(x, k) < |script|
         && Awaits(script, x, logs, k).outcome == Held
         && Awaits(script, x, logs, k).all == p.held[k]
         && Awaits(script, x, logs, k).input == []
  }

  /** The wait a process is in, or has failed in, stands as Await says. */
  predicate CurrentMatches(script: Script, x: Side, p: Process, logs: seq<Log>) {
    var k := |p.held|;
    match p.at
    case Writing(_) => |logs| == k && WaitPhase(x, k) == p.phase + 1
    case FirstRead => |logs| == k && WaitPhase(x, k) == p.phase < |script| && p.all == []
    case Exited => |logs| == k
    case Stopped(NothingWritten) => |logs| == k
    case _ =>
      && |logs| == k + 1 && WaitPhase(x, k) == p.phase < |script| && logs[k].input != []
      && var a := Awaits(script, x, logs, k);
         && a.all == p.all && a.buffer == p.buffer && a.input == []
         && a.outcome == Standing(script[p.phase].wait, p)
  }

  /** How a process stands in its wait. */
  function Standing(e: Expect, p: Process): Outcome {
    if p.at.Stopped? then Failed(p.at.why)
    else if |p.all| < e.want then Blocked
    else Verdict(e, p.all)
  }

  predicate Logged(script: Script, x: Side, p: Process, logs: seq<Log>) {
    FinishedMatch(script, x, p, logs) && CurrentMatches(script, x, p, logs)
  }

  // ----- One more read -----

  /** What one more read makes of a wait that is blocked. */
  function Resumed(e: Expect, a: Awaited, r: Read): Awaited {
    var c := Receive(a.buffer, r);
    if Fatal(e, false, c.status) then Awaited(Failed(BadStatus(c.status)), a.all, c.buffer, [])
    else AwaitMore(e, c.buffer, a.all + c.packets, [])
  }

  lemma {:induction false} AwaitMoreSnoc(e: Expect, buffer: seq<byte>, all: seq<Frame>, input: seq<Read>, r: Read)
    requires AwaitMore(e, buffer, all, input).outcome == Blocked
    ensures AwaitMore(e, buffer, all, input + [r]) == Resumed(e, AwaitMore(e, buffer, all, input), r)
    decreases |input|
  {
    hide Receive, Passes, Verdict;
    VerdictIsNotStatus(e, all);
    if input == [] {
      assert ([] + [r])[1..] == [];
    } else {
      var c := Receive(buffer, input[0]);
      assert (input + [r])[1..] == input[1..] + [r];
      AwaitMoreSnoc(e, c.buffer, all + c.packets, input[1..], r);
    }
  }

  lemma AwaitSnoc(e: Expect, buffer: seq<byte>, input: seq<Read>, r: Read)
    requires input != [] && Await(e, buffer, input).outcome == Blocked
    ensures Await(e, buffer, input + [r]) == Resumed(e, Await(e, buffer, input), r)
  {
    hide Receive, Passes, Verdict, AwaitMore, Resumed;
    var c := Receive(buffer, input[0]);
    assert (input + [r])[1..] == input[1..] + [r];
    AwaitMoreSnoc(e, c.buffer, c.packets, input[1..], r);
  }

  // ----- Every move keeps the logs -----

  /** The first read of a wait. */
  lemma FirstReadLogged(script: Script, x: Side, p: Process, logs: seq<Log>, bytes: nat)
    requires p.at.FirstRead? && CurrentMatches(script, x, p, logs) && bytes <= |p.inbox|
    ensures CurrentMatches(script, x, ReadStep(script[p.phase].wait, p, bytes), LogRead(p, logs, bytes))
  {
    hide Receive, Passes, Verdict;
    FailingIsEmpty(p.buffer, ReadOf(p, bytes));
    assert [ReadOf(p, bytes)][1..] == [];
  }

  /** A read in the loop. */
  lemma NextReadLogged(script: Script, x: Side, p: Process, logs: seq<Log>, bytes: nat)
    requires p.at.Reading? && CurrentMatches(script, x, p, logs) && AtRead(script, p) && bytes <= |p.inbox|
    ensures CurrentMatches(script, x, ReadStep(script[p.phase].wait, p, bytes), LogRead(p, logs, bytes))
  {
    hide Receive, Passes, Verdict, Await;
    var e, log := script[p.phase].wait, logs[|p.held|];
    AwaitSnoc(e, log.leftover, log.input, ReadOf(p, bytes));
  }

  lemma ReadKeepsFinished(script: Script, x: Side, p: Process, logs: seq<Log>, bytes: nat)
    requires Logged(script, x, p, logs) && AtRead(script, p) && bytes <= |p.inbox|
    ensures FinishedMatch(script, x, ReadStep(script[p.phase].wait, p, bytes), LogRead(p, logs, bytes))
  {
    hide Receive, Passes, Verdict, Await;
    var logs' := LogRead(p, logs, bytes);
    assert forall k :: 0 <= k < |p.held| ==> logs'[k] == logs[k];
  }

  /** Leaving the loop: the wait is over, or its checks have failed. */
  lemma LeaveLogged(script: Script, x: Side, p: Process, logs: seq<Log>)
    requires Logged(script, x, p, logs) && p.at.Reading? && !AtRead(script, p)
    ensures Logged(script, x, LeaveWait(script, x, p), logs)
  {
    hide Passes, Await;
    var k := |p.held|;
    assert k % 2 == k - k / 2 * 2;
    assert Awaits(script, x, logs, k).outcome == Verdict(script[p.phase].wait, p.all);
  }

  /** A write touches no log, neither the writer's nor its peer's. */
  lemma WriteLogged(script: Script, s: State, x: Side, y: Side, logs: seq<Log>)
    requires var p := Get(s, x); p.phase < |script| && p.at.Writing? && p.at.next < |script[p.phase].writes|
    requires Logged(script, y, Get(s, y), logs)
    ensures Logged(script, y, Get(WriteStep(script, s, x), y), logs)
  {
    hide Await;
  }

  lemma StepLogged(script: Script, s: State, a: Action, x: Side, logs: seq<Log>)
    requires Enabled(script, s, a) && Logged(script, x, Get(s, x), logs)
    ensures var p := Get(s, x);
            Logged(script, x, Get(Exec(script, s, a), x),
                   if a.who == x && AtRead(script, p) then LogRead(p, logs, a.bytes) else logs)
  {
    hide Logged, WriteStep, ReadStep, LeaveWait, LogRead, FinishedMatch, CurrentMatches;
    var p := Get(s, x);
    if Get(s, a.who).at.Writing? {
      WriteLogged(script, s, a.who, x, logs);
    } else if a.who == x {
      if AtRead(script, p) {
        LoggedParts(script, x, p, logs);
        ReadKeepsFinished(script, x, p, logs, a.bytes);
        if p.at.FirstRead? {
          FirstReadLogged(script, x, p, logs, a.bytes);
        } else {
          NextReadLogged(script, x, p, logs, a.bytes);
        }
        LoggedParts(script, x, ReadStep(script[p.phase].wait, p, a.bytes), LogRead(p, logs, a.bytes));
      } else {
        LeaveLogged(script, x, p, logs);
      }
    }
  }

  lemma LoggedParts(script: Script, x: Side, p: Process, logs: seq<Log>)
    ensures Logged(script, x, p, logs) <==> FinishedMatch(script, x, p, logs) && CurrentMatches(script, x, p, logs)
  {
  }

  lemma StartLogged(script: Script, x: Side)
    ensures Logged(script, x, Get(Init(script), x), [])
  {
  }

  /** In every run of every script, under every interleaving, each wait of either side is a wait of the
      loop of main. The k-th wait begun has made the reads of its log; if it is finished, Await on these
      reads holds exactly the packets the process holds of it; if the process is in it, Await is blocked or
      about to give its verdict, with the same packets and buffer; and if the process has stopped in it,
      Await has failed for the same reason. */
  lemma {:induction false} EveryWaitIsAwait(script: Script, schedule: seq<Action>, x: Side)
    requires Run(script, schedule).Some?
    ensures Logged(script, x, Get(Run(script, schedule).value, x), WaitLogs(script, schedule, x))
  {
    hide Logged, Enabled, Exec, LogRead, Init, AtRead;
    if schedule == [] {
      StartLogged(script, x);
    } else {
      var n := |schedule| - 1;
      EveryWaitIsAwait(script, schedule[..n], x);
      StepLogged(script, Run(script, schedule[..n]).value, schedule[n], x, WaitLogs(script, schedule[..n], x));
    }
  }

  // ----- The channels -----

  /** The bytes that reads have returned. */
  function BytesRead(input: seq<Read>): seq<byte> {
    if input == [] then []
    else
      var n := |input| - 1;
      BytesRead(input[..n]) + if input[n].Data? then input[n].chunk else []
  }

  function BytesLogged(logs: seq<Log>): seq<byte> {
    if logs == [] then []
    else
      var n := |logs| - 1;
      BytesLogged(logs[..n]) + BytesRead(logs[n].input)
  }

  lemma OneMoreRead(input: seq<Read>, r: Read)
    ensures BytesRead(input + [r]) == BytesRead(input) + if r.Data? then r.chunk else []
  {
    assert (input + [r])[..|input|] == input;
  }

  lemma OneMoreLog(logs: seq<Log>, log: Log)
    ensures BytesLogged(logs + [log]) == BytesLogged(logs) + BytesRead(log.input)
  {
    hide BytesRead;
    assert (logs + [log])[..|logs|] == logs;
  }

  lemma ReadIsLogged(p: Process, logs: seq<Log>, bytes: nat)
    requires bytes <= |p.inbox|
    ensures BytesLogged(LogRead(p, logs, bytes)) == BytesLogged(logs) + p.inbox[..bytes]
  {
    hide BytesLogged, BytesRead;
    var r := ReadOf(p, bytes);
    if p.at.FirstRead? || logs == [] {
      NothingRead();
      OneMoreRead([], r);
      assert [] + [r] == [r];
      OneMoreLog(logs, Log(p.buffer, [r]));
    } else {
      var last := logs[|logs| - 1];
      assert logs == logs[..|logs| - 1] + [last];
      OneMoreRead(last.input, r);
      OneMoreLog(logs[..|logs| - 1], last);
      OneMoreLog(logs[..|logs| - 1], last.(input := last.input + [r]));
    }
  }

  lemma NothingRead()
    ensures BytesRead([]) == []
  {
  }

  /** The frames of the write that a side makes with this action, if it makes one. */
  function FramesOf(script: Script, s: State, a: Action, x: Side): seq<Frame>
    requires Enabled(script, s, a)
  {
    var p := Get(s, x);
    if a.who == x && p.at.Writing? then script[p.phase].writes[p.at.next] else []
  }

  /** The frames that a side has written in a run, write after write. */
  function FramesWritten(script: Script, schedule: seq<Action>, x: Side): seq<Frame>
    requires Run(script, schedule).Some?
  {
    if schedule == [] then []
    else
      var n := |schedule| - 1;
      FramesWritten(script, schedule[..n], x) + FramesOf(script, Run(script, schedule[..n]).value, schedule[n], x)
  }

  /** What one move does to the bytes on the way to side x. */
  lemma InboxStep(script: Script, s: State, a: Action, x: Side)
    requires Enabled(script, s, a)
    ensures Get(Exec(script, s, a), x).inbox ==
            if a.who == x && AtRead(script, Get(s, x)) then Get(s, x).inbox[a.bytes..]
            else Get(s, x).inbox + Wire(FramesOf(script, s, a, Other(x)))
  {
    hide Wire, Receive, Passes;
    NothingIsNothing();
    assert Get(s, x).inbox + [] == Get(s, x).inbox;
  }

  lemma ReaderWritesNothing(script: Script, s: State, a: Action, x: Side)
    requires Enabled(script, s, a) && a.who == x
    ensures FramesOf(script, s, a, Other(x)) == []
    ensures AtRead(script, Get(s, x)) ==> a.bytes <= |Get(s, x).inbox|
  {
  }

  /** In every run of every script a channel keeps all bytes and their order: what a side has read, in all
      its waits, followed by what is on its way to it, is the encoding of the frames its peer has written. */
  lemma {:induction false} ChannelKeepsBytes(script: Script, schedule: seq<Action>, x: Side)
    requires Run(script, schedule).Some?
    ensures BytesLogged(WaitLogs(script, schedule, x)) + Get(Run(script, schedule).value, x).inbox ==
            Wire(FramesWritten(script, schedule, Other(x)))
  {
    hide LogRead, Wire, BytesLogged, AtRead, Enabled, Exec, FramesOf, Get, Init;
    if schedule == [] {
      NothingOnTheWay(script, x);
    } else {
      var n := |schedule| - 1;
      var s, a := Run(script, schedule[..n]).value, schedule[n];
      var p, logs := Get(s, x), WaitLogs(script, schedule[..n], x);
      ChannelKeepsBytes(script, schedule[..n], x);
      InboxStep(script, s, a, x);
      WireConcat(FramesWritten(script, schedule[..n], Other(x)), FramesOf(script, s, a, Other(x)));
      if a.who == x && AtRead(script, p) {
        NothingIsNothing();
        ReaderWritesNothing(script, s, a, x);
        ReadIsLogged(p, logs, a.bytes);
        assert p.inbox[..a.bytes] + p.inbox[a.bytes..] == p.inbox;
      }
    }
  }

  lemma NothingOnTheWay(script: Script, x: Side)
    ensures BytesLogged([]) + Get(Init(script), x).inbox == Wire([])
  {
  }

  /** The writes that end a main: exactly those that carry nothing, where the program looks at their result.
      Any other puts its bytes behind those on the way to the peer, which it leaves alone otherwise. */
  lemma EmptyWriteEnds(script: Script, s: State, x: Side)
    requires var p := Get(s, x); p.phase < |script| && p.at.Writing? && p.at.next < |script[p.phase].writes|
    ensures var p, q := Get(s, x), Get(s, Other(x));
            var ph, s' := script[p.phase], WriteStep(script, s, x);
            && (Get(s', x).at == Stopped(NothingWritten) <==> ph.zeroFatal && ph.writes[p.at.next] == [])
            && Get(s', Other(x)) == q.(inbox := q.inbox + Wire(ph.writes[p.at.next]))
  {
    hide Wire;
    NothingIsNothing();
    WireLength(script[Get(s, x).phase].writes[Get(s, x).at.next]);
  }
}
