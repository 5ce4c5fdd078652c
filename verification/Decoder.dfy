// get_packets: one read appended to a persistent buffer, then as many packets as are complete
// (sandbox/tcp-packet/posix/client/main.cc and server/main.cc, which differ only in logging).

module Decoders {
  import opened Bytes
  import opened Packets
  import opened Streams

  /** The program's four statuses. `Undefined` stands for the inputs on which the program itself
      has no defined behaviour: a declared length above MAX_PAYLOAD reached the front. */
  datatype ReadStatus = OkPackets | Closed | SocketError | ProtocolError | Undefined

  /** What read(2) did: some bytes, zero, or a negative result. */
  datatype Read = Data(chunk: seq<byte>) | EndOfFile | Failure

  datatype Call = Call(status: ReadStatus, packets: seq<Frame>, buffer: seq<byte>)

  function StatusOf(stop: Stop): ReadStatus {
    match stop
    case Waiting => OkPackets
    case BadType => ProtocolError
    case TooLong => Undefined
  }

  /** One call, told from the decoding of everything in the buffer. Packets decoded in a call that
      fails are dropped with it. */
  function Receive(buffer: seq<byte>, r: Read): Call {
    match r
    case EndOfFile => Call(Closed, [], buffer)
    case Failure => Call(SocketError, [], buffer)
    case Data(chunk) =>
      var d := DecodeAll(buffer + chunk);
      Call(StatusOf(d.stop), if d.stop == Waiting then d.pkts else [], d.rest)
  }

  /** What one call does, without saying how: a failed read is a socket error and end of file is a closed
      connection, neither touching the buffer; data is accounted for byte by byte, and the status says
      why decoding stopped. */
  lemma ReceiveMeans(buffer: seq<byte>, r: Read)
    ensures var c := Receive(buffer, r);
            && (c.status == SocketError <==> r.Failure?)
            && (c.status == Closed <==> r.EndOfFile?)
            && (r.Failure? || r.EndOfFile? ==> c.packets == [] && c.buffer == buffer)
            && (r.Data? ==>
                  && (c.status == OkPackets <==> StoppedBy(c.buffer, Waiting))
                  && (c.status == ProtocolError <==> StoppedBy(c.buffer, BadType))
                  && (c.status == Undefined <==> StoppedBy(c.buffer, TooLong))
                  && (c.status == OkPackets ==> Wire(c.packets) + c.buffer == buffer + r.chunk)
                  && (c.status != OkPackets ==>
                        c.packets == [] && exists ps: seq<Frame> :: Wire(ps) + c.buffer == buffer + r.chunk))
  {
    hide DecodeAll, Wire, StoppedBy;
    if r.Data? {
      var d := DecodeAll(buffer + r.chunk);
      Conservation(buffer + r.chunk);
      OneStop(d.rest, d.stop);
    }
  }

  lemma OneStop(rest: seq<byte>, stop: Stop)
    requires StoppedBy(rest, stop)
    ensures forall other :: StoppedBy(rest, other) ==> other == stop
  {
  }

  /** No packet is held back at the front of the buffer. */
  predicate Settled(buffer: seq<byte>) {
    !Parse(buffer).Complete? && !Oversized(buffer)
  }

  /** A buffer without a packet at its front stays so after every defined call. */
  lemma CallsSettle(buffer: seq<byte>, r: Read)
    requires Settled(buffer) && Receive(buffer, r).status != Undefined
    ensures Settled(Receive(buffer, r).buffer)
  {
    if r.Data? {
      Conservation(buffer + r.chunk);
      StoppedIsSettled(Receive(buffer, r).buffer, DecodeAll(buffer + r.chunk).stop);
    }
  }

  lemma StoppedIsSettled(rest: seq<byte>, stop: Stop)
    requires StoppedBy(rest, stop)
    ensures Settled(rest) <==> stop != TooLong
  {
  }

  /** The verdicts of the parser, as reasons to stop. */
  lemma VerdictStops(b: seq<byte>)
    ensures Parse(b).Incomplete? ==> StoppedBy(b, Waiting)
    ensures Parse(b).InvalidType? ==> StoppedBy(b, BadType)
    ensures Parse(b).PastEnd? ==> StoppedBy(b, TooLong)
    ensures |b| < TWO_32 && Parse(b).Complete? ==> !Oversized(b)
  {
  }

  /** A packet that completes with a new chunk is whole, and takes all that was left over. */
  lemma FirstPacketTakesLeftover(leftover: seq<byte>, chunk: seq<byte>)
    requires Settled(leftover) && |chunk| <= MAX_PAYLOAD && Parse(leftover + chunk).Complete?
    ensures !Oversized(leftover + chunk)
    ensures Parse(leftover + chunk).bytesConsumed > |leftover|
  {
  }

  lemma WireNothing(b: seq<byte>)
    ensures Wire([]) + b == b
  {
  }

  /** Moving a parsed packet from the buffer to the list keeps all bytes. */
  lemma WireSnoc(ps: seq<Frame>, b: seq<byte>)
    requires Parse(b).Complete? && !Oversized(b)
    ensures var r := Parse(b); Wire(ps + [r.pkt]) + b[r.bytesConsumed..] == Wire(ps) + b
  {
    hide Parse, Oversized, Encode;
    var r := Parse(b);
    Canonical(b);
    WireOne(r.pkt);
    WireConcat(ps, [r.pkt]);
  }

  // ----- Receiving a stream of frames -----

  /** A call that reads the next part of a stream of frames succeeds, returns the frames that
      became complete, and leaves the beginning of the next one. */
  lemma ReceivePart(buffer: seq<byte>, chunk: seq<byte>, later: seq<byte>, ps: seq<Frame>)
    requires buffer + chunk + later == Wire(ps)
    ensures var c := Receive(buffer, Data(chunk));
            var k := |c.packets|;
            && c.status == OkPackets
            && k <= |ps| && c.packets == ps[..k]
            && c.buffer + later == Wire(ps[k..])
            && StoppedBy(c.buffer, Waiting)
  {
    hide DecodeAll, Wire, Fit, StoppedBy;
    var n := |buffer + chunk|;
    var k := Fit(ps, n);
    DecodePrefix(ps, n);
    assert buffer + chunk == Wire(ps)[..n];
    Conservation(buffer + chunk);
    RestOfWire(ps, k, n, later);
  }

  /** What follows the first k frames, cut at n bytes and put together again. */
  lemma RestOfWire(ps: seq<Frame>, k: nat, n: nat, later: seq<byte>)
    requires k <= |ps| && |Wire(ps[..k])| <= n <= |Wire(ps)| && Wire(ps)[..n] + later == Wire(ps)
    ensures Wire(ps)[|Wire(ps[..k])|..n] + later == Wire(ps[k..])
  {
    WireSplit(ps, k);
    Resume(Wire(ps), |Wire(ps[..k])|, n, later);
    hide *;
  }

  lemma Resume(stream: seq<byte>, at: nat, n: nat, later: seq<byte>)
    requires at <= n <= |stream| && stream[..n] + later == stream
    ensures stream[at..n] + later == stream[at..]
  {
  }

  /** A buffer that waits does not consist of whole frames. */
  lemma WholeFramesDoNotWait(ps: seq<Frame>)
    requires StoppedBy(Wire(ps), Waiting)
    ensures ps == []
  {
    hide Parse, Oversized, Encode;
    if ps != [] {
      ParseEncode(ps[0], Wire(ps[1..]));
    }
  }

  // ----- How much one call can return -----

  /** Behind the first packet of a call there are fewer bytes than were read. */
  lemma AfterFirst(leftover: seq<byte>, chunk: seq<byte>)
    requires Settled(leftover) && |chunk| <= MAX_PAYLOAD
    ensures var d := DecodeAll(leftover + chunk);
            d.pkts != [] ==> |Wire(d.pkts[1..])| < |chunk|
  {
    hide WordAt, Oversized, Encode;
    var b := leftover + chunk;
    if Parse(b).Complete? {
      FirstPacketTakesLeftover(leftover, chunk);
      var later := b[Parse(b).bytesConsumed..];
      Conservation(later);
      assert DecodeAll(b).pkts[1..] == DecodeAll(later).pkts;
    }
  }

  /** One call that reads n bytes returns at most 1 + (n - 1) / 4 packets. */
  lemma BurstBound(leftover: seq<byte>, chunk: seq<byte>)
    requires Settled(leftover) && 1 <= |chunk| <= MAX_PAYLOAD
    ensures |Receive(leftover, Data(chunk)).packets| <= 1 + (|chunk| - 1) / 4
  {
    hide DecodeAll, Wire;
    var pkts := DecodeAll(leftover + chunk).pkts;
    if pkts != [] {
      AfterFirst(leftover, chunk);
      WireLength(pkts[1..]);
    }
  }

  /** The bound is met: three bytes left over from a ping, then the last of them and k more pings. */
  lemma BurstBoundIsTight(k: nat)
    ensures Settled(Zeroes(3))
    ensures |Receive(Zeroes(3), Data(Zeroes(4 * k + 1))).packets| == k + 1
  {
    hide DecodeAll, Wire;
    Pings(k + 1);
    var ps := seq(k + 1, _ => CreatePing());
    assert Zeroes(3) + Zeroes(4 * k + 1) == Wire(ps);
    NothingIsNothing();
    assert Wire(ps) + [] == Wire(ps);
    OnlyDecoding(Wire(ps), ps, [], Waiting);
  }

  lemma {:induction false} Pings(k: nat)
    ensures Wire(seq(k, _ => CreatePing())) == Zeroes(4 * k)
  {
    if k == 0 {
    } else {
      Pings(k - 1);
      assert seq(k, _ => CreatePing())[1..] == seq(k - 1, _ => CreatePing());
    }
  }

  // ----- The buffer in place -----

  /** The receiving end of a connection: the bytes not yet made into packets. */
  class Reader {
    var unprocessedBytes: seq<byte>
    const capacity: nat  // the size of the buffer handed to read(2)

    constructor (capacity: nat)
      requires 1 <= capacity <= MAX_PAYLOAD
      ensures Valid() && this.capacity == capacity && unprocessedBytes == []
    {
      this.capacity := capacity;
      unprocessedBytes := [];
    }

    ghost predicate Valid()
      reads this
    {
      1 <= capacity <= MAX_PAYLOAD && Settled(unprocessedBytes)
    }

    /** get_packets, for whatever the read returned. */
    method GetPackets(r: Read) returns (status: ReadStatus, retval: seq<Frame>)
      requires Valid()
      requires r.Data? ==> 1 <= |r.chunk| <= capacity
      modifies this`unprocessedBytes
      ensures Call(status, retval, unprocessedBytes) == Receive(old(unprocessedBytes), r)
      ensures status == SocketError <==> r.Failure?
      ensures status == Closed <==> r.EndOfFile?
      ensures r.Failure? || r.EndOfFile? ==> retval == [] && unprocessedBytes == old(unprocessedBytes)
      ensures r.Data? ==>
                && (status == OkPackets <==> StoppedBy(unprocessedBytes, Waiting))
                && (status == ProtocolError <==> StoppedBy(unprocessedBytes, BadType))
                && (status == Undefined <==> StoppedBy(unprocessedBytes, TooLong))
                && (status == OkPackets ==> Wire(retval) + unprocessedBytes == old(unprocessedBytes) + r.chunk)
                && (status != OkPackets ==> retval == [])
      ensures status != Undefined ==> Valid()
    {
      ReceiveMeans(unprocessedBytes, r);
      hide Parse, Oversized, WordAt, DecodeAll, Wire, Encode, Settled, StoppedBy;
      retval := [];
      if r.EndOfFile? {
        return Closed, [];
      }
      if r.Failure? {
        return SocketError, [];
      }
      unprocessedBytes := unprocessedBytes + r.chunk;
      ghost var all := unprocessedBytes;
      ghost var c := Receive(old(unprocessedBytes), r);
      if c.status != Undefined {
        CallsSettle(old(unprocessedBytes), r);
      }
      WireNothing(all);
      while |unprocessedBytes| > 0
        invariant Wire(retval) + unprocessedBytes == all
        invariant if retval == [] then unprocessedBytes == all else |unprocessedBytes| < |r.chunk|
        decreases |unprocessedBytes|
      {
        var result := Parse(unprocessedBytes);
        VerdictStops(unprocessedBytes);
        if result.Incomplete? {
          break;
        }
        if result.InvalidType? {
          OnlyDecoding(all, retval, unprocessedBytes, BadType);
          return ProtocolError, [];
        }
        if result.PastEnd? {
          OnlyDecoding(all, retval, unprocessedBytes, TooLong);
          return Undefined, [];
        }
        if retval == [] {
          FirstPacketTakesLeftover(old(unprocessedBytes), r.chunk);
        }
        WireSnoc(retval, unprocessedBytes);
        retval := retval + [result.pkt];
        unprocessedBytes := unprocessedBytes[result.bytesConsumed..];
      }
      if unprocessedBytes == [] {
        NothingIsNothing();
      }
      OnlyDecoding(all, retval, unprocessedBytes, Waiting);
      return OkPackets, retval;
    }
  }
}
