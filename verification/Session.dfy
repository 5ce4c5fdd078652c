// Two processes in lockstep over two byte channels: the alternating send-a-batch, wait-for-a-batch
// sessions of client/main.cc and server/main.cc, under every interleaving and every way the
// transport cuts the bytes into reads. Writes are whole, and channels keep bytes in order.

module Sessions {
  import opened Bytes
  import opened Packets
  import opened Streams
  import opened Lists
  import opened Decoders
  import opened Waits

  datatype Side = Client | Server

  function Other(x: Side): Side {
    if x == Client then Server else Client
  }

  /** The size of the buffer a side hands to read(2). */
  function Capacity(x: Side): nat {
    if x == Client then 128 else 256
  }

  /** One batch: the writes the sender makes, each the encodings of some frames; whether the sender
      exits when a write sends nothing; and how the receiver waits for it. */
  datatype Phase = Phase(writes: seq<seq<Frame>>, zeroFatal: bool, wait: Expect)

  type Script = seq<Phase>

  /** The client sends the phases of even number, the server the others. */
  function Sender(i: nat): Side {
    if i % 2 == 0 then Client else Server
  }

  function Sent(ph: Phase): seq<Frame> {
    Concat(ph.writes)
  }

  datatype Control = Writing(next: nat) | FirstRead | Reading | Exited | Stopped(why: Reason)

  /** A process: the phase it is in and where in it, the bytes on their way to it, the bytes it has
      read but not decoded, the packets of the current wait, and those of its finished waits. */
  datatype Process = Process(phase: nat, at: Control, inbox: seq<byte>, buffer: seq<byte>,
                             all: seq<Frame>, held: seq<seq<Frame>>)

  datatype State = State(client: Process, server: Process)

  function Get(s: State, x: Side): Process {
    if x == Client then s.client else s.server
  }

  function Put(s: State, x: Side, p: Process): State {
    if x == Client then s.(client := p) else s.(server := p)
  }

  function Entry(script: Script, x: Side, i: nat): Control {
    if i >= |script| then Exited else if Sender(i) == x then Writing(0) else FirstRead
  }

  function Enter(script: Script, x: Side, p: Process, i: nat): Process {
    p.(phase := i, at := Entry(script, x, i), all := [])
  }

  function Start(script: Script, x: Side): Process {
    Process(0, Entry(script, x, 0), [], [], [], [])
  }

  function Init(script: Script): State {
    State(Start(script, Client), Start(script, Server))
  }

  /** The scheduler's choice: which process moves and, if it reads, how many bytes it gets. */
  datatype Action = Action(who: Side, bytes: nat)

  predicate Finished(p: Process) {
    p.at.Exited? || p.at.Stopped?
  }

  /** The process is at a read: before its loop, or in it with too few packets. */
  predicate AtRead(script: Script, p: Process) {
    p.phase < |script| &&
    (p.at.FirstRead? || (p.at.Reading? && |p.all| < script[p.phase].wait.want))
  }

  /** Which moves are possible. A read returns between one byte and as many as there are and fit;
      it returns zero only when the peer's socket is closed and nothing is left on the way. */
  predicate Enabled(script: Script, s: State, a: Action) {
    var p := Get(s, a.who);
    p.phase < |script| &&
    match p.at
    case Writing(j) => j < |script[p.phase].writes|
    case Exited => false
    case Stopped(_) => false
    case _ =>
      AtRead(script, p) ==>
        || (1 <= a.bytes <= Capacity(a.who) && a.bytes <= |p.inbox|)
        || (a.bytes == 0 && p.inbox == [] && Finished(Get(s, Other(a.who))))
  }

  /** One move of one process. */
  function Exec(script: Script, s: State, a: Action): State
    requires Enabled(script, s, a)
  {
    var p := Get(s, a.who);
    var ph := script[p.phase];
    if p.at.Writing? then
      WriteStep(script, s, a.who)
    else if AtRead(script, p) then
      Put(s, a.who, ReadStep(ph.wait, p, a.bytes))
    else
      Put(s, a.who, LeaveWait(script, a.who, p))
  }

  /** write(2) of the next encoded batch, into the peer's inbox. */
  function WriteStep(script: Script, s: State, x: Side): State
    requires var p := Get(s, x);
             p.phase < |script| && p.at.Writing? && p.at.next < |script[p.phase].writes|
  {
    var p, q := Get(s, x), Get(s, Other(x));
    var ph := script[p.phase];
    var j := p.at.next;
    var bytes := Wire(ph.writes[j]);
    if ph.zeroFatal && bytes == [] then
      Put(s, x, p.(at := Stopped(NothingWritten)))
    else
      var p' := if j + 1 < |ph.writes| then p.(at := Writing(j + 1)) else Enter(script, x, p, p.phase + 1);
      Put(Put(s, x, p'), Other(x), q.(inbox := q.inbox + bytes))
  }

  /** One get_packets call of a wait and the branches on its status. */
  function ReadStep(e: Expect, p: Process, bytes: nat): Process
    requires bytes <= |p.inbox|
  {
    var c := Receive(p.buffer, if bytes == 0 then EndOfFile else Data(p.inbox[..bytes]));
    var p' := p.(buffer := c.buffer, inbox := p.inbox[bytes..]);
    if Fatal(e, p.at.FirstRead?, c.status) then
      p'.(at := Stopped(BadStatus(c.status)))
    else
      p'.(at := Reading, all := if p.at.FirstRead? then c.packets else p.all + c.packets)
  }

  /** The checks after the loop, and on to the next phase. */
  function LeaveWait(script: Script, x: Side, p: Process): Process
    requires p.phase < |script|
  {
    match Verdict(script[p.phase].wait, p.all)
    case Failed(why) => p.(at := Stopped(why))
    case _ => Enter(script, x, p.(held := p.held + [p.all]), p.phase + 1)
  }

  /** The state after a schedule, if every move of it was possible. */
  function Run(script: Script, schedule: seq<Action>): Option<State> {
    if schedule == [] then
      Some(Init(script))
    else
      var n := |schedule| - 1;
      match Run(script, schedule[..n])
      case None => None
      case Some(s) => if Enabled(script, s, schedule[n]) then Some(Exec(script, s, schedule[n])) else None
  }

  ghost predicate Stuck(script: Script, s: State) {
    forall x, n :: !Enabled(script, s, Action(x, n))
  }

  /** Every phase makes writes, every write carries frames, and every wait waits for something. */
  predicate Shaped(script: Script) {
    forall i :: 0 <= i < |script| ==>
      && script[i].writes != []
      && NoEmptyPart(script[i].writes)
      && script[i].wait.want >= 1
  }

  /** The receiver waits for as many packets as are sent, and its check accepts them. */
  predicate Matched(ph: Phase) {
    ph.wait.want == |Sent(ph)| && Passes(ph.wait.check, Sent(ph))
  }

  predicate WellMatched(script: Script) {
    Shaped(script) && forall i :: 0 <= i < |script| ==> Matched(script[i])
  }

  /** The batches side x receives in the first i phases. */
  function Receipts(script: Script, x: Side, i: nat): seq<seq<Frame>>
    requires i <= |script|
  {
    if i == 0 then []
    else Receipts(script, x, i - 1) + (if Sender(i - 1) == x then [] else [Sent(script[i - 1])])
  }
}
