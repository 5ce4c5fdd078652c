// The accumulate-until-k loops of the two mains: read until enough packets have arrived,
// then judge them.

module Waits {
  import opened Bytes
  import opened Packets
  import opened Streams
  import opened Lists
  import opened Decoders
  import opened Chunking

  /** What main checks about the packets once it has enough of them. */
  datatype Check = NoCheck | EveryIs(kind: Kind) | FirstIs(kind: Kind) | FirstSays(msg: seq<byte>)

  /** One wait: how many packets the loop waits for, whether the status of the read before the loop
      is looked at, whether more packets than wanted are an error, and the check that follows. */
  datatype Expect = Expect(want: nat, firstChecked: bool, noExtra: bool, check: Check)

  datatype Reason = BadStatus(status: ReadStatus) | TooMany | WrongContent | NothingWritten

  /** How a wait stands: it holds its packets, it has made main return -1, or it is still reading. */
  datatype Outcome = Held | Failed(why: Reason) | Blocked

  predicate Passes(check: Check, all: seq<Frame>) {
    match check
    case NoCheck => true
    case EveryIs(kind) => forall p | p in all :: p.hdr == kind
    case FirstIs(kind) => |all| > 0 && all[0].hdr == kind
    case FirstSays(msg) => |all| > 0 && all[0].hdr == Greeting && all[0].msg == msg
  }

  /** The checks after the loop. */
  function Verdict(e: Expect, all: seq<Frame>): Outcome {
    if e.noExtra && |all| > e.want then Failed(TooMany)
    else if !Passes(e.check, all) then Failed(WrongContent)
    else Held
  }

  /** Does main give up on this status? The first read's status may go unchecked, in which case a
      failed read counts as a read without packets. */
  predicate Fatal(e: Expect, first: bool, status: ReadStatus) {
    status == Undefined || (status != OkPackets && (!first || e.firstChecked))
  }

  datatype Awaited = Awaited(outcome: Outcome, all: seq<Frame>, buffer: seq<byte>, input: seq<Read>)

  /** A wait, given what the successive reads return; without further reads it stays blocked. */
  function Await(e: Expect, buffer: seq<byte>, input: seq<Read>): Awaited {
    if input == [] then
      Awaited(Blocked, [], buffer, [])
    else
      var c := Receive(buffer, input[0]);
      if Fatal(e, true, c.status) then
        Awaited(Failed(BadStatus(c.status)), c.packets, c.buffer, input[1..])
      else
        AwaitMore(e, c.buffer, c.packets, input[1..])
  }

  function AwaitMore(e: Expect, buffer: seq<byte>, all: seq<Frame>, input: seq<Read>): Awaited
    decreases |input|
  {
    if |all| >= e.want then
      Awaited(Verdict(e, all), all, buffer, input)
    else if input == [] then
      Awaited(Blocked, all, buffer, [])
    else
      var c := Receive(buffer, input[0]);
      if Fatal(e, false, c.status) then
        Awaited(Failed(BadStatus(c.status)), all, c.buffer, input[1..])
      else
        AwaitMore(e, c.buffer, all + c.packets, input[1..])
  }

  /** read(2) returns at most as many bytes as its buffer holds, and at least one if it returns data. */
  predicate Deliverable(input: seq<Read>, capacity: nat) {
    forall r | r in input :: r.Data? ==> 1 <= |r.chunk| <= capacity
  }

  /** The loop of main. */
  method WaitFor(reader: Reader, e: Expect, input: seq<Read>)
    returns (outcome: Outcome, allPackets: seq<Frame>, unread: seq<Read>)
    requires reader.Valid() && Deliverable(input, reader.capacity)
    modifies reader`unprocessedBytes
    ensures Awaited(outcome, allPackets, reader.unprocessedBytes, unread) ==
            Await(e, old(reader.unprocessedBytes), input)
    ensures outcome != Failed(BadStatus(Undefined)) ==> reader.Valid()
  {
    hide Receive, Settled, Passes;
    allPackets, unread := [], input;
    if unread == [] {
      return Blocked, [], [];
    }
    var errorReturn, packets := reader.GetPackets(unread[0]);
    unread := unread[1..];
    allPackets := packets;
    if Fatal(e, true, errorReturn) {
      return Failed(BadStatus(errorReturn)), allPackets, unread;
    }
    while |allPackets| < e.want
      invariant reader.Valid() && Deliverable(unread, reader.capacity)
      invariant AwaitMore(e, reader.unprocessedBytes, allPackets, unread) ==
                Await(e, old(reader.unprocessedBytes), input)
      decreases |unread|
    {
      if unread == [] {
        return Blocked, allPackets, [];
      }
      errorReturn, packets := reader.GetPackets(unread[0]);
      unread := unread[1..];
      if Fatal(e, false, errorReturn) {
        return Failed(BadStatus(errorReturn)), allPackets, unread;
      }
      allPackets := allPackets + packets;
    }
    return Verdict(e, allPackets), allPackets, unread;
  }

  /** A wait that succeeds holds at least what it waited for and at most (B - 1) / 4 packets more,
      where B is the size of the read buffer: everything beyond comes from its last call. */
  lemma WaitBound(e: Expect, buffer: seq<byte>, input: seq<Read>, capacity: nat)
    requires Settled(buffer) && 1 <= capacity <= MAX_PAYLOAD && Deliverable(input, capacity)
    ensures var a := Await(e, buffer, input);
            && (a.outcome == Held ==> e.want <= |a.all| && Passes(e.check, a.all) && (e.noExtra ==> |a.all| == e.want))
            && |a.all| <= (if e.want == 0 then 1 else e.want) + (capacity - 1) / 4
  {
    hide Receive, Settled, Passes;
    if input != [] {
      CallBound(buffer, input[0], capacity);
      var c := Receive(buffer, input[0]);
      if !Fatal(e, true, c.status) {
        WaitMoreBound(e, c.buffer, c.packets, input[1..], capacity);
      }
    }
  }

  lemma CallBound(buffer: seq<byte>, r: Read, capacity: nat)
    requires Settled(buffer) && 1 <= capacity <= MAX_PAYLOAD && Deliverable([r], capacity)
    ensures |Receive(buffer, r).packets| <= 1 + (capacity - 1) / 4
    ensures Receive(buffer, r).status != Undefined ==> Settled(Receive(buffer, r).buffer)
  {
    hide DecodeAll, Settled;
    if Receive(buffer, r).status != Undefined {
      CallsSettle(buffer, r);
    }
    if r.Data? {
      assert r in [r];
      BurstBound(buffer, r.chunk);
    }
  }

  lemma {:induction false} WaitMoreBound(e: Expect, buffer: seq<byte>, all: seq<Frame>, input: seq<Read>, capacity: nat)
    requires Settled(buffer) && 1 <= capacity <= MAX_PAYLOAD && Deliverable(input, capacity)
    requires |all| <= (if e.want == 0 then 1 else e.want) + (capacity - 1) / 4
    ensures var a := AwaitMore(e, buffer, all, input);
            && (a.outcome == Held ==> e.want <= |a.all| && Passes(e.check, a.all) && (e.noExtra ==> |a.all| == e.want))
            && |a.all| <= (if e.want == 0 then 1 else e.want) + (capacity - 1) / 4
    decreases |input|
  {
    hide Receive, Settled, Passes;
    if |all| >= e.want || input == [] {
    } else {
      CallBound(buffer, input[0], capacity);
      var c := Receive(buffer, input[0]);
      if !Fatal(e, false, c.status) {
        WaitMoreBound(e, c.buffer, all + c.packets, input[1..], capacity);
      }
    }
  }

  // ----- What looking, or not looking, at the first status changes -----

  /** A wait in want of packets uses up at least one read, if there is one. */
  lemma {:induction false} WaitUsesReads(e: Expect, buffer: seq<byte>, all: seq<Frame>, input: seq<Read>)
    ensures |AwaitMore(e, buffer, all, input).input| <= |input|
    ensures |all| < e.want && input != [] ==> |AwaitMore(e, buffer, all, input).input| < |input|
    decreases |input|
  {
    hide Receive, Passes, Verdict;
    if |all| >= e.want || input == [] {
    } else {
      var c := Receive(buffer, input[0]);
      WaitUsesReads(e, c.buffer, all + c.packets, input[1..]);
    }
  }

  lemma FailingIsEmpty(buffer: seq<byte>, r: Read)
    ensures Receive(buffer, r).status != OkPackets ==> Receive(buffer, r).packets == []
    ensures r.EndOfFile? || r.Failure? ==> Receive(buffer, r).buffer == buffer
  {
    hide DecodeAll;
  }

  /** A first read whose failure goes unchecked counts as a read without packets. */
  lemma ForgivenRead(e: Expect, buffer: seq<byte>, first: Read, later: seq<Read>)
    requires e.want > 0 && !e.firstChecked && Receive(buffer, first).status !in {OkPackets, Undefined}
    ensures Await(e, buffer, [first] + later) == AwaitMore(e, Receive(buffer, first).buffer, [], later)
    ensures first.EndOfFile? || first.Failure? ==> Await(e, buffer, [first] + later) == AwaitMore(e, buffer, [], later)
  {
    hide Receive, Passes, Verdict;
    FailingIsEmpty(buffer, first);
    assert ([first] + later)[1..] == later;
  }

  /** The read before the loop is a read like those in the loop exactly if its status is looked at, or
      does not matter: a failing first read that goes unchecked is one read more. */
  lemma FirstReadIsRead(e: Expect, buffer: seq<byte>, input: seq<Read>)
    requires e.want > 0 && input != []
    ensures Await(e, buffer, input) == AwaitMore(e, buffer, [], input) <==>
            e.firstChecked || Receive(buffer, input[0]).status in {OkPackets, Undefined}
  {
    hide Receive, Passes, Verdict;
    var c := Receive(buffer, input[0]);
    FailingIsEmpty(buffer, input[0]);
    assert [] + c.packets == c.packets;
    if !e.firstChecked && c.status !in {OkPackets, Undefined} {
      assert input == [input[0]] + input[1..];
      ForgivenRead(e, buffer, input[0], input[1..]);
      WaitUsesReads(e, c.buffer, [], input[1..]);
    }
  }

  /** What a read returns while a bad header is at the front of the buffer. */
  function StatusAtBadHeader(r: Read): ReadStatus {
    match r
    case Data(_) => ProtocolError
    case EndOfFile => Closed
    case Failure => SocketError
  }

  /** A protocol error in the first read of a wait, whatever comes next. Looked at, it fails the wait at
      once. Unlooked at, the bad header stays: the wait blocks if no further read returns, and fails at
      the next one that does. It never ends holding packets. */
  lemma FirstProtocolError(e: Expect, buffer: seq<byte>, first: Read, later: seq<Read>)
    requires e.want > 0 && Receive(buffer, first).status == ProtocolError
    ensures var a := Await(e, buffer, [first] + later);
            && a.all == []
            && a.outcome ==
               if e.firstChecked then Failed(BadStatus(ProtocolError))
               else if later == [] then Blocked
               else Failed(BadStatus(StatusAtBadHeader(later[0])))
  {
    hide Receive, Passes, Verdict;
    var c := Receive(buffer, first);
    FailingIsEmpty(buffer, first);
    if !e.firstChecked {
      ForgivenRead(e, buffer, first, later);
      if later != [] {
        BadHeaderStays(buffer, first, later[0]);
      }
    }
  }

  lemma BadHeaderStays(buffer: seq<byte>, first: Read, second: Read)
    requires Receive(buffer, first).status == ProtocolError
    ensures Receive(Receive(buffer, first).buffer, second).status == StatusAtBadHeader(second)
  {
    hide DecodeAll, Wire;
    var c := Receive(buffer, first);
    Conservation(buffer + first.chunk);
    if second.Data? {
      StopIsStable(c.buffer, second.chunk, BadType);
      StopsAtOnce(c.buffer + second.chunk, BadType);
    }
  }

  // ----- A wait for exactly what the peer sends -----

  function Datas(chunks: seq<seq<byte>>): seq<Read> {
    seq(|chunks|, i requires 0 <= i < |chunks| => Data(chunks[i]))
  }

  /** If the peer sends exactly the frames waited for, and they pass the check, the wait holds
      exactly these, with nothing left in the buffer and every read used, however the stream is cut. */
  lemma WaitExact(e: Expect, ps: seq<Frame>, chunks: seq<seq<byte>>)
    requires |ps| == e.want > 0 && Passes(e.check, ps)
    requires Concat(chunks) == Wire(ps) && NoEmptyPart(chunks)
    ensures Await(e, [], Datas(chunks)) == Awaited(Held, ps, [], [])
  {
    hide Receive, Passes, StoppedBy, Wire, AwaitMore;
    NothingIsNothing();
    WireLength(ps);
    assert chunks != [];
    assert [] + chunks[0] + Concat(chunks[1..]) == Wire(ps);
    ReceivePart([], chunks[0], Concat(chunks[1..]), ps);
    var c := Receive([], Data(chunks[0]));
    assert Datas(chunks)[1..] == Datas(chunks[1..]);
    assert c.packets + ps[|c.packets|..] == ps;
    WaitMoreExact(e, c.buffer, c.packets, ps[|c.packets|..], chunks[1..]);
  }

  lemma {:induction false} WaitMoreExact(e: Expect, buffer: seq<byte>, all: seq<Frame>, later: seq<Frame>,
                                          chunks: seq<seq<byte>>)
    requires |all + later| == e.want && Passes(e.check, all + later) && StoppedBy(buffer, Waiting)
    requires buffer + Concat(chunks) == Wire(later) && NoEmptyPart(chunks)
    ensures AwaitMore(e, buffer, all, Datas(chunks)) == Awaited(Held, all + later, [], [])
    decreases |chunks|
  {
    hide Receive, Passes, StoppedBy;
    if later == [] {
      ConcatIsLonger(chunks);
      assert all + later == all;
    } else {
      if chunks == [] {
        assert buffer == Wire(later);
        WholeFramesDoNotWait(later);
      }
      assert buffer + chunks[0] + Concat(chunks[1..]) == Wire(later);
      ReceivePart(buffer, chunks[0], Concat(chunks[1..]), later);
      var c := Receive(buffer, Data(chunks[0]));
      assert Datas(chunks)[1..] == Datas(chunks[1..]);
      var k := |c.packets|;
      assert (all + c.packets) + later[k..] == all + later;
      WaitMoreExact(e, c.buffer, all + c.packets, later[k..], chunks[1..]);
    }
  }

  // ----- Where any wait ends -----

  /** The buffer after the first n of the reads, and the packets their calls return. */
  function BufferOver(buffer: seq<byte>, input: seq<Read>, n: nat): seq<byte>
    requires n <= |input|
  {
    if n == 0 then buffer else Receive(BufferOver(buffer, input, n - 1), input[n - 1]).buffer
  }

  function CallOver(buffer: seq<byte>, input: seq<Read>, i: nat): Call
    requires i < |input|
  {
    Receive(BufferOver(buffer, input, i), input[i])
  }

  function GainedOver(buffer: seq<byte>, input: seq<Read>, n: nat): seq<Frame>
    requires n <= |input|
  {
    if n == 0 then [] else GainedOver(buffer, input, n - 1) + CallOver(buffer, input, n - 1).packets
  }

  /** Call i makes main give up. */
  predicate FatalAt(e: Expect, buffer: seq<byte>, input: seq<Read>, i: nat)
    requires i < |input|
  {
    Fatal(e, i == 0, CallOver(buffer, input, i).status)
  }

  /** No call before n makes main give up, and the loop has not been left before call n - 1. */
  predicate Continues(e: Expect, buffer: seq<byte>, input: seq<Read>, n: nat)
    requires 1 <= n <= |input|
  {
    && (forall j :: 0 <= j < n - 1 ==> !FatalAt(e, buffer, input, j))
    && (n == 1 || |GainedOver(buffer, input, n - 1)| < e.want)
  }

  /** Where a wait ends, and how: with n reads made, the last of them has made main give up, or there
      are no more reads and too few packets, or the last of them has brought the count. */
  predicate EndsAfter(e: Expect, buffer: seq<byte>, input: seq<Read>, n: nat, a: Awaited) {
    && n <= |input| && a.input == input[n..] && a.buffer == BufferOver(buffer, input, n)
    && match a.outcome
       case Failed(BadStatus(status)) =>
         && n > 0 && Continues(e, buffer, input, n)
         && FatalAt(e, buffer, input, n - 1) && status == CallOver(buffer, input, n - 1).status
         && a.all == GainedOver(buffer, input, n - 1)
       case Blocked =>
         && n == |input| && a.all == GainedOver(buffer, input, n)
         && (n > 0 ==> Continues(e, buffer, input, n) && !FatalAt(e, buffer, input, n - 1) && |a.all| < e.want)
       case _ =>
         && n > 0 && Continues(e, buffer, input, n) && !FatalAt(e, buffer, input, n - 1)
         && a.all == GainedOver(buffer, input, n) && e.want <= |a.all| && a.outcome == Verdict(e, a.all)
  }

  /** Every wait, with whatever is left in the buffer and whatever its reads return, data, end of file or
      errors, ends at the first read that main gives up on or that completes its count, holding exactly
      what its calls returned until then; without such a read it blocks. */
  lemma WaitEnds(e: Expect, buffer: seq<byte>, input: seq<Read>) returns (n: nat)
    ensures EndsAfter(e, buffer, input, n, Await(e, buffer, input))
  {
    hide Receive, Passes, Verdict, BufferOver, CallOver, GainedOver, AwaitMore;
    OverNothing(buffer, input);
    n := 0;
    if input == [] {
      assert input[0..] == [];
    } else {
      OverNext(buffer, input, 0);
      FailingIsEmpty(buffer, input[0]);
      assert [] + CallOver(buffer, input, 0).packets == CallOver(buffer, input, 0).packets;
      if FatalAt(e, buffer, input, 0) {
        n := 1;
      } else {
        n := WaitMoreEnds(e, buffer, input, 1);
      }
    }
  }

  lemma OverNothing(buffer: seq<byte>, input: seq<Read>)
    ensures BufferOver(buffer, input, 0) == buffer && GainedOver(buffer, input, 0) == []
  {
  }

  lemma OverNext(buffer: seq<byte>, input: seq<Read>, i: nat)
    requires i < |input|
    ensures CallOver(buffer, input, i) == Receive(BufferOver(buffer, input, i), input[i])
    ensures BufferOver(buffer, input, i + 1) == CallOver(buffer, input, i).buffer
    ensures GainedOver(buffer, input, i + 1) == GainedOver(buffer, input, i) + CallOver(buffer, input, i).packets
  {
    hide Receive;
  }

  lemma {:induction false} WaitMoreEnds(e: Expect, buffer: seq<byte>, input: seq<Read>, i: nat) returns (n: nat)
    requires 1 <= i <= |input| && Continues(e, buffer, input, i) && !FatalAt(e, buffer, input, i - 1)
    ensures EndsAfter(e, buffer, input, n,
                      AwaitMore(e, BufferOver(buffer, input, i), GainedOver(buffer, input, i), input[i..]))
    decreases |input| - i
  {
    hide Receive, Passes, Verdict, BufferOver, CallOver, GainedOver;
    n := i;
    if |GainedOver(buffer, input, i)| >= e.want {
      VerdictIsNotStatus(e, GainedOver(buffer, input, i));
    } else if i < |input| {
      OverNext(buffer, input, i);
      assert input[i..][1..] == input[i + 1..];
      if FatalAt(e, buffer, input, i) {
        n := i + 1;
      } else {
        n := WaitMoreEnds(e, buffer, input, i + 1);
      }
    }
  }

  lemma VerdictIsNotStatus(e: Expect, all: seq<Frame>)
    ensures !Verdict(e, all).Blocked?
    ensures Verdict(e, all).Failed? ==> Verdict(e, all).why in {TooMany, WrongContent}
  {
    hide Passes;
  }

  /** For reads of data these are the calls of a run over the stream, from call m on. */
  lemma {:induction false} OverChunks(chunks: seq<seq<byte>>, m: nat, k: nat)
    requires m + k <= |chunks|
    ensures BufferOver(BufferAfter(chunks[..m]), Datas(chunks[m..]), k) == BufferAfter(chunks[..m + k])
    ensures Delivered(chunks[..m]) + GainedOver(BufferAfter(chunks[..m]), Datas(chunks[m..]), k) ==
            Delivered(chunks[..m + k])
  {
    hide Receive, BufferAfter, Delivered, CallAt, BufferOver, CallOver, GainedOver;
    var buffer, input := BufferAfter(chunks[..m]), Datas(chunks[m..]);
    if k == 0 {
      OverNothing(buffer, input);
    } else {
      OverChunks(chunks, m, k - 1);
      OverNext(buffer, input, k - 1);
      NextCall(chunks, m + k - 1);
      DeliveredNext(chunks, m + k - 1);
    }
  }

  lemma NextCall(chunks: seq<seq<byte>>, i: nat)
    requires i < |chunks|
    ensures CallAt(chunks, i) == Receive(BufferAfter(chunks[..i]), Data(chunks[i]))
    ensures BufferAfter(chunks[..i + 1]) == CallAt(chunks, i).buffer
  {
    hide Receive;
    assert chunks[..i + 1][..i] == chunks[..i];
  }

  // ----- How a wait comes out, told from its calls alone -----

  /** Call j is the last of a wait for `want` packets: with it there are enough of them, or it has failed.
      The first call may fail if the wait does not look at its status. */
  predicate LastCall(want: nat, looks: bool, buffer: seq<byte>, input: seq<Read>, j: nat)
    requires j < |input|
  {
    || |GainedOver(buffer, input, j + 1)| >= want
    || CallOver(buffer, input, j).status == Undefined
    || (CallOver(buffer, input, j).status != OkPackets && (looks || j > 0))
  }

  /** The wait makes the first n of the reads: all of them, or up to its last call. */
  predicate Makes(want: nat, looks: bool, buffer: seq<byte>, input: seq<Read>, n: nat) {
    && n <= |input|
    && (forall j :: 0 <= j < n - 1 ==> !LastCall(want, looks, buffer, input, j))
    && (n < |input| ==> n > 0 && LastCall(want, looks, buffer, input, n - 1))
  }

  /** What n reads leave behind and how they can fail a wait, packets apart: it fails with the status of
      its last call exactly if this has failed before the count, a first status unlooked at excepted. */
  predicate ComesOut(want: nat, looks: bool, buffer: seq<byte>, input: seq<Read>, n: nat, a: Awaited)
    requires n <= |input|
  {
    var got := GainedOver(buffer, input, n);
    var short := n > 0 && |got| < want;
    && a.all == got && a.buffer == BufferOver(buffer, input, n) && a.input == input[n..]
    && (forall status :: a.outcome == Failed(BadStatus(status)) <==>
          && short && status == CallOver(buffer, input, n - 1).status != OkPackets
          && (looks || n > 1 || status == Undefined))
    && (a.outcome == Failed(BadStatus(SocketError)) <==> short && input[n - 1].Failure? && (looks || n > 1))
    && (a.outcome == Failed(BadStatus(Closed)) <==> short && input[n - 1].EndOfFile? && (looks || n > 1))
    && (a.outcome == Blocked <==>
          |got| < want && (short ==> var status := CallOver(buffer, input, n - 1).status;
                             status == OkPackets || (n == 1 && !looks && status != Undefined)))
    && a.outcome != Failed(NothingWritten)
  }

  /** The number of reads a wait makes is determined by its calls. */
  lemma MakesOnce(want: nat, looks: bool, buffer: seq<byte>, input: seq<Read>, n: nat, m: nat)
    requires Makes(want, looks, buffer, input, n) && Makes(want, looks, buffer, input, m)
    ensures n == m
  {
    hide LastCall;
  }

  lemma {:induction false} GainedGrows(buffer: seq<byte>, input: seq<Read>, i: nat, n: nat)
    requires i <= n <= |input|
    ensures |GainedOver(buffer, input, i)| <= |GainedOver(buffer, input, n)|
    decreases n
  {
    hide CallOver;
    if i == n {
    } else {
      GainedGrows(buffer, input, i, n - 1);
    }
  }

  /** A wait that ends after n reads has made these, and no fewer. */
  lemma EndIsLast(e: Expect, buffer: seq<byte>, input: seq<Read>, n: nat, a: Awaited)
    requires e.want > 0 && EndsAfter(e, buffer, input, n, a)
    ensures Makes(e.want, e.firstChecked, buffer, input, n)
  {
    hide Verdict, Receive, BufferOver, CallOver, GainedOver;
    if n > 0 {
      OverNothing(buffer, input);
      forall j | 0 <= j < n - 1 ensures !LastCall(e.want, e.firstChecked, buffer, input, j) {
        assert !FatalAt(e, buffer, input, j);
        GainedGrows(buffer, input, j + 1, n - 1);
      }
    }
  }

  /** Every wait makes some number of reads, and comes out with them. */
  lemma WaitComesOut(e: Expect, buffer: seq<byte>, input: seq<Read>) returns (n: nat)
    requires e.want > 0
    ensures Makes(e.want, e.firstChecked, buffer, input, n)
    ensures var a := Await(e, buffer, input);
            && ComesOut(e.want, e.firstChecked, buffer, input, n, a)
            && (|a.all| >= e.want ==> a.outcome == Verdict(e, a.all))
  {
    hide Await, Verdict, Receive, BufferOver, CallOver, GainedOver, Makes;
    var a := Await(e, buffer, input);
    n := WaitEnds(e, buffer, input);
    EndIsLast(e, buffer, input, n, a);
    OverNothing(buffer, input);
    if n > 0 {
      OverNext(buffer, input, n - 1);
      FailingIsEmpty(BufferOver(buffer, input, n - 1), input[n - 1]);
      ReceiveMeans(BufferOver(buffer, input, n - 1), input[n - 1]);
      assert GainedOver(buffer, input, n - 1) + [] == GainedOver(buffer, input, n - 1);
    }
    VerdictIsNotStatus(e, a.all);
  }

  /** Where more packets than wanted are no error, the first one decides the two checks that look at one. */
  lemma FirstDecides(want: nat, looks: bool, kind: Kind, msg: seq<byte>, buffer: seq<byte>, input: seq<Read>, n: nat)
    requires want > 0 && Makes(want, looks, buffer, input, n) && |GainedOver(buffer, input, n)| >= want
    ensures var got := GainedOver(buffer, input, n);
            && (Await(Expect(want, looks, false, FirstIs(kind)), buffer, input).outcome ==
                if got[0].hdr == kind then Held else Failed(WrongContent))
            && (Await(Expect(want, looks, false, FirstSays(msg)), buffer, input).outcome ==
                if got[0].hdr == Greeting && got[0].msg == msg then Held else Failed(WrongContent))
  {
    hide Await, LastCall, GainedOver, CallOver, BufferOver;
    var m := WaitComesOut(Expect(want, looks, false, FirstIs(kind)), buffer, input);
    MakesOnce(want, looks, buffer, input, n, m);
    var k := WaitComesOut(Expect(want, looks, false, FirstSays(msg)), buffer, input);
    MakesOnce(want, looks, buffer, input, n, k);
  }

  // ----- A peer that leaves during a wait -----

  /** The peer sends the bytes of `chunks` and is gone: after them, every read returns end of file. */
  function Disconnect(chunks: seq<seq<byte>>, later: seq<Read>): seq<Read> {
    Datas(chunks) + [EndOfFile, EndOfFile] + later
  }

  /** When main returns -1 because the peer has left: exactly if, with the bytes left over from before,
      the peer had not sent as many whole packets as the wait is for. How the bytes are cut into reads does
      not matter. A bad header makes the wait fail for that reason instead, unless no read but an unchecked
      first one follows it. */
  lemma DisconnectExactly(e: Expect, buffer: seq<byte>, chunks: seq<seq<byte>>, later: seq<Read>)
    requires e.want > 0 && Settled(buffer)
    ensures var d := DecodeAll(buffer + Concat(chunks));
            Await(e, buffer, Disconnect(chunks, later)).outcome == Failed(BadStatus(Closed)) <==>
            if d.stop == Waiting then |d.pkts| < e.want
            else d.stop == BadType && (chunks == [] || (|chunks| == 1 && !e.firstChecked))
  {
    hide Receive, Passes, Verdict, AwaitMore, DecodeAll, Settled, Concat;
    var input := Disconnect(chunks, later);
    FirstOfDisconnect(e, buffer, chunks, later);
    if e.firstChecked || Receive(buffer, input[0]).status in {OkPackets, Undefined} {
      FirstReadIsRead(e, buffer, input);
      DisconnectMore(e, buffer, [], chunks, [EndOfFile] + later);
      assert Datas(chunks) + [EndOfFile] + ([EndOfFile] + later) == input;
    } else if chunks == [] {
      assert input == [EndOfFile] + ([EndOfFile] + later);
      ForgivenRead(e, buffer, EndOfFile, [EndOfFile] + later);
      DisconnectMore(e, buffer, [], chunks, later);
      assert Datas(chunks) + [EndOfFile] + later == [EndOfFile] + later;
    } else {
      var rest := Disconnect(chunks[1..], later);
      assert input == [Data(chunks[0])] + rest;
      FirstProtocolError(e, buffer, Data(chunks[0]), rest);
    }
  }

  /** What the first read of such a wait returns. */
  lemma FirstOfDisconnect(e: Expect, buffer: seq<byte>, chunks: seq<seq<byte>>, later: seq<Read>)
    ensures var d := DecodeAll(buffer + Concat(chunks));
            var r := Disconnect(chunks, later)[0];
            var status := Receive(buffer, r).status;
            && (chunks == [] ==> r == EndOfFile && status == Closed)
            && (chunks != [] ==> r == Data(chunks[0]) && status in {OkPackets, ProtocolError, Undefined})
            && (status == ProtocolError ==> d.stop == BadType)
            && (chunks == [] ==> buffer + Concat(chunks) == buffer)
            && (|chunks| == 1 && d.stop == BadType ==> status == ProtocolError)
            && (|chunks| > 1 ==> Disconnect(chunks[1..], later)[0] == Data(chunks[1]))
  {
    hide DecodeAll;
    if chunks != [] {
      var first := buffer + chunks[0];
      DecodeInTwo(first, Concat(chunks[1..]));
      assert buffer + Concat(chunks) == first + Concat(chunks[1..]);
      if |chunks| == 1 {
        assert first + Concat(chunks[1..]) == first;
      }
    }
  }

  lemma SettledDecodes(buffer: seq<byte>)
    requires Settled(buffer)
    ensures DecodeAll(buffer).pkts == [] && DecodeAll(buffer).stop in {Waiting, BadType}
  {
  }

  lemma {:induction false} DisconnectMore(e: Expect, buffer: seq<byte>, all: seq<Frame>, chunks: seq<seq<byte>>,
                                          later: seq<Read>)
    requires Settled(buffer)
    ensures var d := DecodeAll(buffer + Concat(chunks));
            AwaitMore(e, buffer, all, Datas(chunks) + [EndOfFile] + later).outcome == Failed(BadStatus(Closed)) <==>
            if d.stop == Waiting then |all| + |d.pkts| < e.want
            else d.stop == BadType && chunks == [] && |all| < e.want
    decreases |chunks|
  {
    hide Passes, Verdict, DecodeAll, StoppedBy, Settled;
    var input := Datas(chunks) + [EndOfFile] + later;
    VerdictIsNotStatus(e, all);
    if |all| >= e.want {
    } else if chunks == [] {
      assert buffer + Concat(chunks) == buffer;
      SettledDecodes(buffer);
      assert input == [EndOfFile] + later;
    } else {
      var first, rest := buffer + chunks[0], Concat(chunks[1..]);
      assert buffer + Concat(chunks) == first + rest;
      DecodeInTwo(first, rest);
      Conservation(first);
      assert input[1..] == Datas(chunks[1..]) + [EndOfFile] + later;
      var c := Receive(buffer, Data(chunks[0]));
      if c.status == OkPackets {
        StoppedIsSettled(c.buffer, Waiting);
        StopsAtOnce(c.buffer, Waiting);
        assert |chunks| == 1 ==> c.buffer + rest == c.buffer;
        DisconnectMore(e, c.buffer, all + c.packets, chunks[1..], later);
      }
    }
  }
}
