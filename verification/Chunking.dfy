// Runs of get_packets over a stream that arrives in arbitrary chunks.

module Chunking {
  import opened Bytes
  import opened Packets
  import opened Streams
  import opened Lists
  import opened Decoders

  /** The buffer after one call per chunk, starting from an empty buffer. */
  function BufferAfter(chunks: seq<seq<byte>>): seq<byte> {
    if chunks == [] then []
    else
      var n := |chunks| - 1;
      Receive(BufferAfter(chunks[..n]), Data(chunks[n])).buffer
  }

  /** Call number i of the run. */
  function CallAt(chunks: seq<seq<byte>>, i: nat): Call
    requires i < |chunks|
  {
    Receive(BufferAfter(chunks[..i]), Data(chunks[i]))
  }

  /** All packets returned by the calls of the run. */
  function Delivered(chunks: seq<seq<byte>>): seq<Frame> {
    if chunks == [] then []
    else
      var n := |chunks| - 1;
      Delivered(chunks[..n]) + CallAt(chunks, n).packets
  }

  /** How many bytes the first i calls have read. */
  function ReadBefore(chunks: seq<seq<byte>>, i: nat): nat
    requires i <= |chunks|
  {
    |Concat(chunks[..i])|
  }

  /** However the stream was cut, the buffer is what one decode of all bytes read leaves over. */
  lemma {:induction false} BufferIsRest(chunks: seq<seq<byte>>)
    ensures BufferAfter(chunks) == DecodeAll(Concat(chunks)).rest
  {
    hide DecodeAll;
    if chunks == [] {
      NothingIsNothing();
    } else {
      var n := |chunks| - 1;
      BufferIsRest(chunks[..n]);
      ConcatNext(chunks, n);
      assert chunks[..n + 1] == chunks;
      DecodeInTwo(Concat(chunks[..n]), chunks[n]);
    }
  }

  /** A call sees exactly the difference between two decodes of prefixes of the stream. */
  lemma CallIsDifference(chunks: seq<seq<byte>>, i: nat)
    requires i < |chunks|
    ensures var before := DecodeAll(Concat(chunks[..i]));
            var after := DecodeAll(Concat(chunks[..i + 1]));
            var c := CallAt(chunks, i);
            && c.status == StatusOf(after.stop)
            && c.buffer == after.rest
            && (after.stop == Waiting ==> before.stop == Waiting && after.pkts == before.pkts + c.packets)
            && (after.stop != Waiting ==> c.packets == [])
  {
    hide DecodeAll;
    BufferIsRest(chunks[..i]);
    ConcatNext(chunks, i);
    DecodeInTwo(Concat(chunks[..i]), chunks[i]);
  }

  /** The prefix of the stream read by the first i calls, decoded. */
  lemma DecodeReadSoFar(chunks: seq<seq<byte>>, i: nat)
    requires i <= |chunks|
    ensures var stream := Concat(chunks);
            var d := DecodeAll(stream);
            var n := ReadBefore(chunks, i);
            var k := Fit(d.pkts, n);
            && |Wire(d.pkts[..k])| <= n <= |stream|
            && DecodeAll(Concat(chunks[..i])) ==
               Decoded(d.pkts[..k], stream[|Wire(d.pkts[..k])|..n], StopWithin(d, n))
  {
    hide DecodeAll, Wire, Fit;
    ConcatPrefix(chunks, i);
    DecodeFirst(Concat(chunks), ReadBefore(chunks, i));
  }

  /** Every call of every run, told from one decode of the whole stream: as long as the bytes read
      do not reach the header that ends the stream, call i succeeds and returns exactly the packets
      whose last byte it read; from the call that reads that header's deciding byte on, every call
      fails without packets and leaves the buffer starting with the header. */
  lemma EveryCall(chunks: seq<seq<byte>>, i: nat)
    requires i < |chunks|
    ensures var stream := Concat(chunks);
            var d := DecodeAll(stream);
            var n0, n1 := ReadBefore(chunks, i), ReadBefore(chunks, i + 1);
            var k0, k1 := Fit(d.pkts, n0), Fit(d.pkts, n1);
            var c := CallAt(chunks, i);
            && k0 <= k1 && |Wire(d.pkts[..k1])| <= n1 <= |stream|
            && c.buffer == stream[|Wire(d.pkts[..k1])|..n1]
            && (StopWithin(d, n1) == Waiting ==> c.status == OkPackets && c.packets == d.pkts[k0..k1])
            && (StopWithin(d, n1) != Waiting ==>
                  && c.status == StatusOf(d.stop)
                  && c.packets == []
                  && k1 == |d.pkts|
                  && StoppedBy(c.buffer, d.stop))
  {
    hide DecodeAll, Wire, Fit, StoppedBy;
    var d := DecodeAll(Concat(chunks));
    var n0, n1 := ReadBefore(chunks, i), ReadBefore(chunks, i + 1);
    ConcatNext(chunks, i);
    CallIsDifference(chunks, i);
    DecodeReadSoFar(chunks, i);
    DecodeReadSoFar(chunks, i + 1);
    var k0, k1 := Fit(d.pkts, n0), Fit(d.pkts, n1);
    FitIsLongest(d.pkts, n0, k0);
    FitIsLongest(d.pkts, n1, k0);
    if StopWithin(d, n1) == Waiting {
      assert d.pkts[..k1] == d.pkts[..k0] + CallAt(chunks, i).packets;
    } else {
      Conservation(Concat(chunks[..i + 1]));
      assert d.pkts[..|d.pkts|] == d.pkts;
      FitIsLongest(d.pkts, n1, |d.pkts|);
    }
  }

  /** While all calls succeed, the packets delivered are the longest prefix that fits the bytes read. */
  lemma {:induction false} DeliveredPrefix(chunks: seq<seq<byte>>, i: nat)
    requires i <= |chunks|
    requires forall j :: 0 <= j < i ==> CallAt(chunks, j).status == OkPackets
    ensures var d := DecodeAll(Concat(chunks));
            Delivered(chunks[..i]) == d.pkts[..Fit(d.pkts, ReadBefore(chunks, i))]
  {
    hide DecodeAll, Wire, Fit, CallAt, Delivered, StopWithin, StoppedBy;
    var d := DecodeAll(Concat(chunks));
    if i == 0 {
      FirstNeedsBytes(d.pkts);
      DeliveredNothing();
    } else {
      DeliveredPrefix(chunks, i - 1);
      EveryCall(chunks, i - 1);
      FailingStop(d, ReadBefore(chunks, i));
      DeliveredNext(chunks, i - 1);
    }
  }

  lemma FailingStop(d: Decoded, n: nat)
    ensures StopWithin(d, n) != Waiting ==> StatusOf(d.stop) != OkPackets
  {
  }

  lemma DeliveredNothing()
    ensures Delivered([]) == []
  {
  }

  /** The next call adds its packets. */
  lemma DeliveredNext(chunks: seq<seq<byte>>, i: nat)
    requires i < |chunks|
    ensures Delivered(chunks[..i + 1]) == Delivered(chunks[..i]) + CallAt(chunks, i).packets
  {
    hide Receive;
    assert chunks[..i + 1][..i] == chunks[..i];
    assert CallAt(chunks[..i + 1], i) == CallAt(chunks, i);
  }

  lemma FirstNeedsBytes(ps: seq<Frame>)
    ensures Fit(ps, 0) == 0
  {
  }

  /** Chunking invariance: any two ways of cutting the same bytes into reads end with the same
      buffer; if the stream has no bad header, every call succeeds and the same packets come out,
      those of one decode of the whole stream. */
  lemma ChunkingInvariance(chunks: seq<seq<byte>>, others: seq<seq<byte>>)
    requires Concat(chunks) == Concat(others)
    ensures BufferAfter(chunks) == BufferAfter(others) == DecodeAll(Concat(chunks)).rest
    ensures DecodeAll(Concat(chunks)).stop == Waiting ==>
              && Delivered(chunks) == Delivered(others) == DecodeAll(Concat(chunks)).pkts
              && forall i :: 0 <= i < |chunks| ==> CallAt(chunks, i).status == OkPackets
  {
    hide DecodeAll;
    BufferIsRest(chunks);
    BufferIsRest(others);
    if DecodeAll(Concat(chunks)).stop == Waiting {
      AllDelivered(chunks);
      AllDelivered(others);
    }
  }

  lemma AllDelivered(chunks: seq<seq<byte>>)
    requires DecodeAll(Concat(chunks)).stop == Waiting
    ensures forall i :: 0 <= i < |chunks| ==> CallAt(chunks, i).status == OkPackets
    ensures Delivered(chunks) == DecodeAll(Concat(chunks)).pkts
  {
    hide DecodeAll, Wire, Fit;
    var stream := Concat(chunks);
    var d := DecodeAll(stream);
    forall i | 0 <= i < |chunks| ensures CallAt(chunks, i).status == OkPackets {
      EveryCall(chunks, i);
    }
    DeliveredPrefix(chunks, |chunks|);
    assert chunks[..|chunks|] == chunks;
    AllFit(stream);
  }

  lemma AllFit(stream: seq<byte>)
    ensures var d := DecodeAll(stream); d.pkts[..Fit(d.pkts, |stream|)] == d.pkts
  {
    hide DecodeAll, Wire, Fit;
    var d := DecodeAll(stream);
    assert d.pkts[..|d.pkts|] == d.pkts;
    Conservation(stream);
    FitIsLongest(d.pkts, |stream|, |d.pkts|);
  }

  /** Frames sent one after the other and delivered in any chunks come out as that list. */
  lemma StreamRoundTrip(ps: seq<Frame>, chunks: seq<seq<byte>>)
    requires Concat(chunks) == Wire(ps)
    ensures Delivered(chunks) == ps && BufferAfter(chunks) == []
    ensures forall i :: 0 <= i < |chunks| ==> CallAt(chunks, i).status == OkPackets
  {
    hide DecodeAll, Wire;
    NothingIsNothing();
    assert Wire(ps) + [] == Wire(ps);
    OnlyDecoding(Wire(ps), ps, [], Waiting);
    ChunkingInvariance(chunks, chunks);
  }

  /** Byte conservation through a run: what was delivered, encoded again, followed by the buffer,
      is everything read, after every call up to which all calls succeeded. */
  lemma RunConserves(chunks: seq<seq<byte>>, i: nat)
    requires i <= |chunks|
    requires forall j :: 0 <= j < i ==> CallAt(chunks, j).status == OkPackets
    ensures Wire(Delivered(chunks[..i])) + BufferAfter(chunks[..i]) == Concat(chunks[..i])
    ensures i > 0 ==> StoppedBy(BufferAfter(chunks[..i]), Waiting)
  {
    hide DecodeAll, Wire, Fit, StoppedBy;
    DeliveredPrefix(chunks, i);
    BufferIsRest(chunks[..i]);
    DecodeReadSoFar(chunks, i);
    Conservation(Concat(chunks[..i]));
    if i > 0 {
      CallIsDifference(chunks, i - 1);
    }
  }

  /** A stream with an unknown type: the call that reads the fourth byte of that header is the
      first to fail, and it and all later calls fail without packets, the header at the front. */
  lemma ErrorRun(chunks: seq<seq<byte>>, i: nat)
    requires DecodeAll(Concat(chunks)).stop == BadType && i < |chunks|
    ensures var d := DecodeAll(Concat(chunks));
            var c := CallAt(chunks, i);
            && |d.rest| >= 4
            && (c.status == OkPackets <==> ReadBefore(chunks, i + 1) < |Wire(d.pkts)| + 4)
            && (c.status != OkPackets ==>
                  c.status == ProtocolError && c.packets == [] && |c.buffer| >= 4 && c.buffer[..4] == d.rest[..4])
  {
    hide DecodeAll, Wire, Fit;
    var stream := Concat(chunks);
    var d := DecodeAll(stream);
    Conservation(stream);
    EveryCall(chunks, i);
    assert stream[|Wire(d.pkts)|..] == d.rest;
    if StopWithin(d, ReadBefore(chunks, i + 1)) != Waiting {
      assert d.pkts[..|d.pkts|] == d.pkts;
    }
  }

  /** All that such a run delivers are the packets completed before the failing call; those decoded
      within it are lost. */
  lemma ErrorRunDelivers(chunks: seq<seq<byte>>, i: nat)
    requires DecodeAll(Concat(chunks)).stop == BadType && i < |chunks|
    requires CallAt(chunks, i).status != OkPackets && forall j :: 0 <= j < i ==> CallAt(chunks, j).status == OkPackets
    ensures var d := DecodeAll(Concat(chunks));
            Delivered(chunks) == d.pkts[..Fit(d.pkts, ReadBefore(chunks, i))]
  {
    hide DecodeAll, Wire, Fit, CallAt, Delivered;
    DeliveredPrefix(chunks, i);
    SilentFrom(chunks, i, |chunks|);
    assert chunks[..|chunks|] == chunks;
  }

  /** Nothing is delivered from the first failing call on. */
  lemma {:induction false} SilentFrom(chunks: seq<seq<byte>>, i: nat, n: nat)
    requires DecodeAll(Concat(chunks)).stop == BadType && i <= n <= |chunks|
    requires i < |chunks| && CallAt(chunks, i).status != OkPackets
    ensures Delivered(chunks[..n]) == Delivered(chunks[..i])
    decreases n
  {
    hide DecodeAll, Wire, Fit;
    if i == n {
    } else {
      SilentFrom(chunks, i, n - 1);
      ReadGrows(chunks, i + 1, n);
      ErrorRun(chunks, i);
      ErrorRun(chunks, n - 1);
      DeliveredNext(chunks, n - 1);
    }
  }

  lemma {:induction false} ReadGrows(chunks: seq<seq<byte>>, i: nat, n: nat)
    requires i <= n <= |chunks|
    ensures ReadBefore(chunks, i) <= ReadBefore(chunks, n)
    decreases n
  {
    if i == n {
    } else {
      ReadGrows(chunks, i, n - 1);
      ConcatNext(chunks, n - 1);
    }
  }

  /** Packet k comes out of exactly the call during which the bytes read first reach the end of its
      encoding. With reads of at most B bytes that is not before ceil(end / B) calls. */
  lemma DeliveryTime(chunks: seq<seq<byte>>, i: nat, k: nat, capacity: nat)
    requires DecodeAll(Concat(chunks)).stop == Waiting && k < |DecodeAll(Concat(chunks)).pkts|
    requires i < |chunks| && forall j :: 0 <= j < |chunks| ==> |chunks[j]| <= capacity
    ensures var pkts := DecodeAll(Concat(chunks)).pkts;
            var end := |Wire(pkts[..k + 1])|;
            var first := |Delivered(chunks[..i])|;
            && (first <= k < first + |CallAt(chunks, i).packets| <==>
                  ReadBefore(chunks, i) < end <= ReadBefore(chunks, i + 1))
            && (first <= k < first + |CallAt(chunks, i).packets| ==>
                  CallAt(chunks, i).packets[k - first] == pkts[k] && end <= (i + 1) * capacity)
  {
    hide DecodeAll, Wire, Fit;
    var d := DecodeAll(Concat(chunks));
    AllDelivered(chunks);
    DeliveredPrefix(chunks, i);
    EveryCall(chunks, i);
    FitIsLongest(d.pkts, ReadBefore(chunks, i), k + 1);
    FitIsLongest(d.pkts, ReadBefore(chunks, i + 1), k + 1);
    ReadAtMost(chunks, i + 1, capacity);
  }

  lemma {:induction false} ReadAtMost(chunks: seq<seq<byte>>, i: nat, capacity: nat)
    requires i <= |chunks| && forall j :: 0 <= j < |chunks| ==> |chunks[j]| <= capacity
    ensures ReadBefore(chunks, i) <= i * capacity
  {
    if i == 0 {
    } else {
      ReadAtMost(chunks, i - 1, capacity);
      ConcatNext(chunks, i - 1);
      assert i * capacity == (i - 1) * capacity + capacity;
    }
  }
}
