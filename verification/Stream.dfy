// Decoding a whole byte stream: the reference the incremental decoder is held to.

module Streams {
  import opened Bytes
  import opened Packets

  /** The bytes of a list of frames sent one after the other. */
  function Wire(ps: seq<Frame>): seq<byte> {
    if ps == [] then [] else Encode(ps[0]) + Wire(ps[1..])
  }

  /** Why decoding stopped: more bytes are needed, an unknown type, or a length that overflows. */
  datatype Stop = Waiting | BadType | TooLong

  datatype Decoded = Decoded(pkts: seq<Frame>, rest: seq<byte>, stop: Stop)

  /** Decode as many frames as there are at the front of a stream. */
  function DecodeAll(b: seq<byte>): Decoded
    decreases |b|
  {
    var r := Parse(b);
    if Oversized(b) then
      Decoded([], b, TooLong)
    else if r.Complete? then
      var d := DecodeAll(b[r.bytesConsumed..]);
      Decoded([r.pkt] + d.pkts, d.rest, d.stop)
    else
      Decoded([], b, if r.InvalidType? then BadType else Waiting)
  }

  /** What the front of a buffer makes the parser do, when it does not complete a frame. */
  predicate StoppedBy(b: seq<byte>, stop: Stop) {
    match stop
    case Waiting => Parse(b).Incomplete? && !Oversized(b)
    case BadType => Parse(b).InvalidType?
    case TooLong => Oversized(b)
  }

  /** Where the parser stops, decoding stops with nothing. */
  lemma StopsAtOnce(b: seq<byte>, stop: Stop)
    requires StoppedBy(b, stop)
    ensures DecodeAll(b) == Decoded([], b, stop)
  {
  }

  lemma NothingIsNothing()
    ensures StoppedBy([], Waiting) && DecodeAll([]) == Decoded([], [], Waiting) && Wire([]) == []
  {
  }

  /** A header that stops the parser for good stops it whatever follows. */
  lemma StopIsStable(b: seq<byte>, more: seq<byte>, stop: Stop)
    requires StoppedBy(b, stop) && stop != Waiting
    ensures StoppedBy(b + more, stop)
  {
  }

  // ----- Wire -----

  lemma {:induction false} WireConcat(ps: seq<Frame>, qs: seq<Frame>)
    ensures Wire(ps + qs) == Wire(ps) + Wire(qs)
  {
    hide Encode, WellFormed;
    if ps == [] {
      assert ps + qs == qs;
    } else {
      assert (ps + qs)[1..] == ps[1..] + qs;
      WireConcat(ps[1..], qs);
    }
  }

  lemma WireOne(p: Frame)
    ensures Wire([p]) == Encode(p)
  {
  }

  lemma WireLast(ps: seq<Frame>, p: Frame)
    ensures Wire(ps + [p]) == Wire(ps) + Encode(p)
  {
    hide Encode;
    WireConcat(ps, [p]);
    WireOne(p);
  }

  lemma {:induction false} WireLength(ps: seq<Frame>)
    ensures |Wire(ps)| >= 4 * |ps|
  {
    if ps == [] {
    } else {
      FrameShape(ps[0], []);
      WireLength(ps[1..]);
    }
  }

  // ----- DecodeAll says exactly what is on the stream -----

  /** No byte is lost, invented or reordered, and decoding stops only where the parser must. */
  lemma {:induction false} Conservation(b: seq<byte>)
    ensures Wire(DecodeAll(b).pkts) + DecodeAll(b).rest == b
    ensures StoppedBy(DecodeAll(b).rest, DecodeAll(b).stop)
    decreases |b|
  {
    hide Parse, Oversized, Encode, WordAt, StoppedBy, Wire, DecodeAll;
    var r := Parse(b);
    if r.Complete? && !Oversized(b) {
      var rest := b[r.bytesConsumed..];
      Canonical(b);
      DecodeStep(b);
      Conservation(rest);
      WireCons(r.pkt, DecodeAll(rest).pkts);
    } else {
      StopsHere(b);
      NothingIsNothing();
    }
  }

  lemma WireCons(p: Frame, ps: seq<Frame>)
    ensures Wire([p] + ps) == Encode(p) + Wire(ps)
  {
    hide Encode;
    assert ([p] + ps)[1..] == ps;
  }

  lemma DecodeStep(b: seq<byte>)
    requires Parse(b).Complete? && !Oversized(b)
    ensures var r := Parse(b);
            var d := DecodeAll(b[r.bytesConsumed..]);
            DecodeAll(b) == Decoded([r.pkt] + d.pkts, d.rest, d.stop)
  {
    hide Parse, Oversized, WordAt;
  }

  lemma StopsHere(b: seq<byte>)
    requires Oversized(b) || !Parse(b).Complete?
    ensures DecodeAll(b).pkts == [] && DecodeAll(b).rest == b && StoppedBy(b, DecodeAll(b).stop)
  {
  }

  /** Decoding frames that are followed by anything. */
  lemma {:induction false} DecodeWire(ps: seq<Frame>, tail: seq<byte>)
    ensures DecodeAll(Wire(ps) + tail) ==
            Decoded(ps + DecodeAll(tail).pkts, DecodeAll(tail).rest, DecodeAll(tail).stop)
  {
    hide Parse, Oversized, Encode, WordAt;
    if ps == [] {
      assert Wire(ps) + tail == tail;
    } else {
      var later := Wire(ps[1..]) + tail;
      assert Wire(ps) + tail == Encode(ps[0]) + later;
      DecodeFrame(ps[0], later);
      DecodeWire(ps[1..], tail);
    }
  }

  /** Decoding a frame and what follows it. */
  lemma DecodeFrame(p: Frame, later: seq<byte>)
    ensures var d := DecodeAll(later);
            DecodeAll(Encode(p) + later) == Decoded([p] + d.pkts, d.rest, d.stop)
  {
    hide Parse, Oversized, Encode, WordAt;
    ParseEncode(p, later);
    assert (Encode(p) + later)[|Encode(p)|..] == later;
  }

  /** Conservation and the stop condition leave no freedom: any split of the stream into frames
      and a remainder the parser stops at is the one DecodeAll finds. */
  lemma OnlyDecoding(b: seq<byte>, ps: seq<Frame>, rest: seq<byte>, stop: Stop)
    requires Wire(ps) + rest == b && StoppedBy(rest, stop)
    ensures DecodeAll(b) == Decoded(ps, rest, stop)
  {
    DecodeWire(ps, rest);
    StopsAtOnce(rest, stop);
  }

  /** Concatenated encodings are uniquely decodable. */
  lemma WireInjective(ps: seq<Frame>, qs: seq<Frame>)
    requires Wire(ps) == Wire(qs)
    ensures ps == qs
  {
    hide Parse, Oversized, Encode, WordAt;
    DecodeWire(ps, []);
    DecodeWire(qs, []);
    assert Wire(ps) + [] == Wire(qs) + [];
    NothingIsNothing();
    assert ps + [] == ps && qs + [] == qs;
  }

  /** Decoding can be resumed: the remainder of a first part, joined with a second part, yields
      exactly the frames that follow. Once stopped by a header, more bytes change nothing. */
  lemma DecodeInTwo(a: seq<byte>, b: seq<byte>)
    ensures var first := DecodeAll(a);
            var next := DecodeAll(first.rest + b);
            && DecodeAll(a + b) == Decoded(first.pkts + next.pkts, next.rest, next.stop)
            && (first.stop != Waiting ==> next == Decoded([], first.rest + b, first.stop))
  {
    hide Parse, Oversized, Encode, WordAt;
    var first := DecodeAll(a);
    Conservation(a);
    assert a + b == Wire(first.pkts) + (first.rest + b);
    DecodeWire(first.pkts, first.rest + b);
    if first.stop != Waiting {
      StopIsStable(first.rest, b, first.stop);
      StopsAtOnce(first.rest + b, first.stop);
    }
  }

  // ----- Prefixes of a stream of frames -----

  /** How many of the frames lie wholly within the first n bytes. */
  function Fit(ps: seq<Frame>, n: nat): (k: nat)
    ensures k <= |ps|
  {
    if ps == [] || n < |Encode(ps[0])| then 0 else 1 + Fit(ps[1..], n - |Encode(ps[0])|)
  }

  /** Fit is the longest prefix of the list whose encodings total at most n bytes. */
  lemma {:induction false} FitIsLongest(ps: seq<Frame>, n: nat, i: nat)
    requires i <= |ps|
    ensures i <= Fit(ps, n) <==> |Wire(ps[..i])| <= n
  {
    if i == 0 {
    } else {
      assert ps[..i][1..] == ps[1..][..i - 1];
      if n >= |Encode(ps[0])| {
        FitIsLongest(ps[1..], n - |Encode(ps[0])|, i - 1);
      }
    }
  }

  /** Splitting the wire form at a frame boundary. */
  lemma WireSplit(ps: seq<Frame>, i: nat)
    requires i <= |ps|
    ensures Wire(ps) == Wire(ps[..i]) + Wire(ps[i..])
  {
    assert ps == ps[..i] + ps[i..];
    WireConcat(ps[..i], ps[i..]);
  }

  /** The bytes left over after the frames that fit are the beginning of the next frame. */
  lemma LeftoverWaits(ps: seq<Frame>, n: nat)
    requires n <= |Wire(ps)|
    ensures var at := |Wire(ps[..Fit(ps, n)])|;
            at <= n && StoppedBy(Wire(ps)[at..n], Waiting)
  {
    hide Parse, Oversized, Encode, WordAt, Wire, Fit;
    var k := Fit(ps, n);
    FitIsLongest(ps, n, k);
    var at := |Wire(ps[..k])|;
    if k == |ps| {
      assert ps[..k] == ps;
      NothingIsNothing();
      assert Wire(ps)[at..n] == [];
    } else {
      FitIsLongest(ps, n, k + 1);
      WireSplit(ps, k + 1);
      WireLast(ps[..k], ps[k]);
      assert ps[..k + 1] == ps[..k] + [ps[k]];
      var next := Encode(ps[k]);
      assert Wire(ps)[at..n] == next[..n - at];
      ProperPrefixIsIncomplete(ps[k], n - at);
    }
  }

  /** After any prefix of n bytes, the frames decoded are the longest prefix of the list that fits,
      the remainder is the beginning of the next frame, and decoding waits. */
  lemma DecodePrefix(ps: seq<Frame>, n: nat)
    requires n <= |Wire(ps)|
    ensures var k := Fit(ps, n);
            && |Wire(ps[..k])| <= n
            && DecodeAll(Wire(ps)[..n]) == Decoded(ps[..k], Wire(ps)[|Wire(ps[..k])|..n], Waiting)
  {
    hide Parse, Oversized, Encode, WordAt;
    var k := Fit(ps, n);
    LeftoverWaits(ps, n);
    WireSplit(ps, k);
    var at := |Wire(ps[..k])|;
    assert Wire(ps)[..n] == Wire(ps[..k]) + Wire(ps)[at..n];
    OnlyDecoding(Wire(ps)[..n], ps[..k], Wire(ps)[at..n], Waiting);
  }

  // ----- Prefixes of any stream -----

  /** How many bytes of a header the parser must see before it stops for good. */
  function Reach(stop: Stop): nat {
    match stop
    case Waiting => 0
    case BadType => 4
    case TooLong => 8
  }

  /** How decoding of the first n bytes ends, when decoding of the whole stream gives d. */
  function StopWithin(d: Decoded, n: nat): Stop {
    if n < |Wire(d.pkts)| + Reach(d.stop) then Waiting else d.stop
  }

  /** A part of a remainder waits, unless it already shows the header that stops the parser. */
  lemma PartOfRest(rest: seq<byte>, stop: Stop, m: nat)
    requires StoppedBy(rest, stop) && m <= |rest|
    ensures StoppedBy(rest[..m], if m < Reach(stop) then Waiting else stop)
  {
  }

  /** Decoding the first n bytes of any stream, told from the decoding of the whole. */
  lemma DecodeFirst(b: seq<byte>, n: nat)
    requires n <= |b|
    ensures var d := DecodeAll(b);
            var k := Fit(d.pkts, n);
            && |Wire(d.pkts[..k])| <= n
            && DecodeAll(b[..n]) == Decoded(d.pkts[..k], b[|Wire(d.pkts[..k])|..n], StopWithin(d, n))
  {
    hide Parse, Oversized, Encode, WordAt, DecodeAll, Wire, Fit;
    var d := DecodeAll(b);
    var at := |Wire(d.pkts)|;
    Conservation(b);
    if n < at {
      DecodePrefix(d.pkts, n);
      assert b[..n] == Wire(d.pkts)[..n];
      var w := |Wire(d.pkts[..Fit(d.pkts, n)])|;
      assert b[w..n] == Wire(d.pkts)[w..n];
    } else {
      assert d.pkts[..|d.pkts|] == d.pkts;
      FitIsLongest(d.pkts, n, |d.pkts|);
      PartOfRest(d.rest, d.stop, n - at);
      assert b[..n] == Wire(d.pkts) + d.rest[..n - at];
      assert b[at..n] == d.rest[..n - at];
      OnlyDecoding(b[..n], d.pkts, d.rest[..n - at], StopWithin(d, n));
    }
  }
}
