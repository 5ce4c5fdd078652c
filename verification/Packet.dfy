// Packets, their wire form and the staged parser
// (sandbox/tcp-packet/posix/shared/shared.hh and shared.cc).

module Packets {
  import opened Bytes

  datatype Kind = Ping | Pong | Greeting | Invalid

  datatype Packet = Packet(hdr: Kind, datalen: uint32, msg: seq<byte>, validPacket: bool)

  const HEADER_SIZE := 4
  const LENGTH_SIZE := 4

  /** The longest payload for which header, length field and payload fit a 32-bit total. */
  const MAX_PAYLOAD := TWO_32 - 9

  function Code(k: Kind): uint32 {
    match k
    case Ping => 0
    case Pong => 1
    case Greeting => 2
    case Invalid => 3
  }

  // ----- Constructors -----

  /** packet(type): a greeting built this way has no payload and is marked invalid. */
  function OfKind(k: Kind): Packet {
    Packet(k, 0, [], k != Greeting)
  }

  /** packet(string): the length is stored in 32 bits. */
  function OfMessage(msg: seq<byte>): Packet {
    Packet(Greeting, |msg| % TWO_32, msg, true)
  }

  function CreatePing(): Packet { OfKind(Ping) }

  function CreatePong(): Packet { OfKind(Pong) }

  function CreateMsg(msg: seq<byte>): Packet { OfMessage(msg) }

  /** The packets the create functions build, within the payload bound. */
  predicate WellFormed(p: Packet) {
    || p == CreatePing()
    || p == CreatePong()
    || (p == CreateMsg(p.msg) && |p.msg| <= MAX_PAYLOAD)
  }

  type Frame = p: Packet | WellFormed(p) witness CreatePing()

  // ----- Encoding -----

  /** The copy of the payload stays inside the buffer that was sized from `datalen`. */
  predicate CanEncode(p: Packet) {
    p.validPacket && p.hdr == Greeting ==> |p.msg| <= p.datalen
  }

  /** The wire form: type word, and for a greeting the length word and `datalen` payload bytes. */
  function Encode(p: Packet): seq<byte>
    requires CanEncode(p)
  {
    if !p.validPacket then
      []
    else if p.hdr == Greeting then
      BigEndian(Code(p.hdr)) + BigEndian(p.datalen) + p.msg + Zeroes(p.datalen - |p.msg|)
    else
      BigEndian(Code(p.hdr))
  }

  function Zeroes(n: nat): (s: seq<byte>)
    ensures |s| == n
  {
    seq(n, _ => 0)
  }

  lemma ZeroesSuffix(n: nat, k: nat)
    requires k <= n
    ensures Zeroes(n)[k..] == Zeroes(n - k)
  {
  }

  /** vector::resize to a length that is not smaller. */
  function Resize(v: seq<byte>, n: nat): (r: seq<byte>)
    requires |v| <= n
    ensures |r| == n
  {
    v + Zeroes(n - |v|)
  }

  /** memcpy of `src` over `dst` from offset `at`. */
  function Memcpy(dst: seq<byte>, at: nat, src: seq<byte>): (r: seq<byte>)
    requires at + |src| <= |dst|
    ensures |r| == |dst|
  {
    dst[..at] + src + dst[at + |src|..]
  }

  /** packet::encode, filling its local buffer step by step on a host of either byte order. */
  method EncodeBuffer(p: Packet, host: Host) returns (outBuffer: seq<byte>)
    requires CanEncode(p)
    ensures outBuffer == Encode(p)
  {
    hide BigEndian, Image, Htonl;
    if !p.validPacket {
      return [];
    }
    StoreIsBigEndian(host, Code(p.hdr));
    StoreIsBigEndian(host, p.datalen);
    outBuffer := Zeroes(HEADER_SIZE);
    var networkHdr := Htonl(host, Code(p.hdr));
    outBuffer := Memcpy(outBuffer, 0, Image(host, networkHdr));
    assert outBuffer == BigEndian(Code(p.hdr));
    if p.hdr == Greeting {
      outBuffer := Resize(outBuffer, HEADER_SIZE + LENGTH_SIZE + p.datalen);
      var networkDatalen := Htonl(host, p.datalen);
      outBuffer := Memcpy(outBuffer, HEADER_SIZE, Image(host, networkDatalen));
      ZeroesSuffix(4 + p.datalen, 4);
      assert outBuffer == BigEndian(Code(p.hdr)) + BigEndian(p.datalen) + Zeroes(p.datalen);
      outBuffer := Memcpy(outBuffer, HEADER_SIZE + LENGTH_SIZE, p.msg);
      ZeroesSuffix(p.datalen, |p.msg|);
      assert outBuffer == BigEndian(Code(p.hdr)) + BigEndian(p.datalen) + p.msg + Zeroes(p.datalen - |p.msg|);
    }
  }

  // ----- Parsing -----

  /** parse_packet's verdict. `PastEnd` is not a verdict of the program: it marks the inputs on
      which the program would build the payload string from bytes beyond the buffer. */
  datatype ParseResult =
    | Complete(pkt: Packet, bytesConsumed: nat)
    | Incomplete
    | InvalidType
    | PastEnd

  /** The front of the buffer is a greeting whose declared length overflows the 32-bit total. */
  predicate Oversized(buffer: seq<byte>) {
    |buffer| >= 8 && WordAt(buffer, 0) == Code(Greeting) && WordAt(buffer, 4) > MAX_PAYLOAD
  }

  /** parse_packet: type word, then length word, then payload, stopping at the first missing part. */
  function Parse(buffer: seq<byte>): (r: ParseResult)
    ensures r.PastEnd? ==> Oversized(buffer)
    ensures r.Complete? ==> r.bytesConsumed <= |buffer|
    ensures r.Complete? && !Oversized(buffer) ==> WellFormed(r.pkt) && r.bytesConsumed >= HEADER_SIZE
  {
    if |buffer| < HEADER_SIZE then
      Incomplete
    else
      var pktType := WordAt(buffer, 0);
      if pktType == Code(Ping) then
        Complete(OfKind(Ping), HEADER_SIZE)
      else if pktType == Code(Pong) then
        Complete(OfKind(Pong), HEADER_SIZE)
      else if pktType != Code(Greeting) then
        InvalidType
      else if |buffer| < HEADER_SIZE + LENGTH_SIZE then
        Incomplete
      else
        var payloadLen := WordAt(buffer, HEADER_SIZE);
        var totalLen := (HEADER_SIZE + LENGTH_SIZE + payloadLen) % TWO_32;
        if |buffer| < totalLen then
          Incomplete
        else if |buffer| < HEADER_SIZE + LENGTH_SIZE + payloadLen then
          PastEnd
        else
          Complete(OfMessage(buffer[8..8 + payloadLen]), totalLen)
  }

  /** parse_packet step by step, on a host of either byte order: words are copied out of the buffer and
      brought into host order, and the total is a 32-bit sum. */
  method ParseBuffer(buffer: seq<byte>, host: Host) returns (r: ParseResult)
    ensures r == Parse(buffer)
  {
    hide Htonl, Load, WordAt;
    if |buffer| < HEADER_SIZE {
      return Incomplete;
    }
    var typeRaw := Load(host, buffer[0..4]);
    var pktType := Htonl(host, typeRaw);
    LoadIsBigEndian(host, buffer, 0);
    if pktType == Code(Ping) {
      return Complete(OfKind(Ping), HEADER_SIZE);
    }
    if pktType == Code(Pong) {
      return Complete(OfKind(Pong), HEADER_SIZE);
    }
    if pktType != Code(Greeting) {
      return InvalidType;
    }
    if |buffer| < HEADER_SIZE + LENGTH_SIZE {
      return Incomplete;
    }
    var rawLen := Load(host, buffer[4..8]);
    var payloadLen: int := Htonl(host, rawLen);
    LoadIsBigEndian(host, buffer, 4);
    var totalLen := (HEADER_SIZE + LENGTH_SIZE + payloadLen) % TWO_32;
    if |buffer| < totalLen {
      return Incomplete;
    }
    if |buffer| < HEADER_SIZE + LENGTH_SIZE + payloadLen {
      return PastEnd;
    }
    return Complete(OfMessage(buffer[8..8 + payloadLen]), totalLen);
  }

  // ----- The codec -----

  /** The length of a frame's wire form, and its first words. */
  lemma FrameShape(p: Frame, suffix: seq<byte>)
    ensures |Encode(p)| == if p.hdr == Greeting then 8 + |p.msg| else 4
    ensures WordAt(Encode(p) + suffix, 0) == Code(p.hdr)
    ensures p.hdr == Greeting ==>
              WordAt(Encode(p) + suffix, 4) == |p.msg| && (Encode(p) + suffix)[8..8 + |p.msg|] == p.msg
  {
    GreetingShape(p, suffix);
  }

  /** The same for any packet that encodes to something, up to the last 32-bit length. */
  lemma GreetingShape(p: Packet, suffix: seq<byte>)
    requires p.validPacket && (p.hdr == Greeting ==> p.datalen == |p.msg|)
    ensures |Encode(p)| == if p.hdr == Greeting then 8 + |p.msg| else 4
    ensures WordAt(Encode(p) + suffix, 0) == Code(p.hdr)
    ensures p.hdr == Greeting ==>
              WordAt(Encode(p) + suffix, 4) == |p.msg| && (Encode(p) + suffix)[8..8 + |p.msg|] == p.msg
  {
    hide BigEndian, WordAt;
    var head := BigEndian(Code(p.hdr));
    if p.hdr == Greeting {
      var length := BigEndian(p.datalen);
      ReadBack(Code(p.hdr), [], length + p.msg + suffix);
      assert Encode(p) + suffix == [] + head + (length + p.msg + suffix);
      ReadBack(p.datalen, head, p.msg + suffix);
      assert Encode(p) + suffix == head + length + (p.msg + suffix);
    } else {
      ReadBack(Code(p.hdr), [], suffix);
      assert Encode(p) + suffix == [] + head + suffix;
    }
  }

  /** Decoding inverts encoding, whatever follows on the stream. */
  lemma ParseEncode(p: Frame, suffix: seq<byte>)
    ensures Parse(Encode(p) + suffix) == Complete(p, |Encode(p)|)
    ensures !Oversized(Encode(p) + suffix)
  {
    hide BigEndian, WordAt;
    FrameShape(p, suffix);
  }

  /** A message survives the codec exactly when it is at most 2^32 - 9 bytes long. */
  lemma MessageRoundTripExactly(msg: seq<byte>, suffix: seq<byte>)
    ensures |msg| <= MAX_PAYLOAD <==>
            (CanEncode(CreateMsg(msg)) &&
             var wire := Encode(CreateMsg(msg));
             Parse(wire + suffix) == Complete(CreateMsg(msg), |wire|))
  {
    hide BigEndian, WordAt;
    var p := CreateMsg(msg);
    if |msg| < TWO_32 {
      GreetingShape(p, suffix);
    } else {
      assert |msg| % TWO_32 < |msg|;
    }
  }

  /** The shortest message that does not survive: its total wraps to zero, so a parse that hands
      over the whole message reports that it consumed nothing. */
  lemma ShortestLostMessage(msg: seq<byte>, suffix: seq<byte>)
    requires |msg| == MAX_PAYLOAD + 1
    ensures CanEncode(CreateMsg(msg))
    ensures Parse(Encode(CreateMsg(msg)) + suffix) == Complete(CreateMsg(msg), 0)
  {
    GreetingShape(CreateMsg(msg), suffix);
  }

  /** The packets no create function builds are not carried: an empty greeting has no wire form,
      and type `invalid` is refused by the parser. */
  lemma NotCarried(suffix: seq<byte>)
    ensures Encode(OfKind(Greeting)) == []
    ensures Parse(Encode(OfKind(Invalid)) + suffix) == InvalidType
  {
  }

  /** The wire form is canonical: what a complete parse consumed is the encoding of its packet,
      exactly when the declared length fits. */
  lemma Canonical(buffer: seq<byte>)
    requires Parse(buffer).Complete?
    ensures CanEncode(Parse(buffer).pkt)
    ensures !Oversized(buffer) <==> Encode(Parse(buffer).pkt) == buffer[..Parse(buffer).bytesConsumed]
  {
    hide BigEndian, WordAt;
    var r := Parse(buffer);
    WriteBack(buffer, 0);
    if r.pkt.hdr == Greeting {
      GreetingIsCanonical(buffer);
    }
  }

  lemma GreetingIsCanonical(buffer: seq<byte>)
    requires |buffer| >= 8 && WordAt(buffer, 0) == 2
    requires var n: int := WordAt(buffer, 4); |buffer| >= 8 + n
    ensures var n: int := WordAt(buffer, 4); Encode(OfMessage(buffer[8..8 + n])) == buffer[..8 + n]
  {
    hide *;
    var n: int := WordAt(buffer, 4);
    WriteBack(buffer, 0);
    WriteBack(buffer, 4);
    EncodeMessage(buffer[8..8 + n]);
    assert buffer[..8 + n] == buffer[0..4] + buffer[4..8] + buffer[8..8 + n];
  }

  lemma EncodeMessage(msg: seq<byte>)
    requires |msg| < TWO_32
    ensures Encode(OfMessage(msg)) == BigEndian(2) + BigEndian(|msg|) + msg
  {
    hide BigEndian;
    assert msg + Zeroes(0) == msg;
  }

  lemma CompleteMeans(buffer: seq<byte>, p: Packet, n: nat)
    requires !Oversized(buffer)
    ensures Parse(buffer) == Complete(p, n) <==> WellFormed(p) && Encode(p) <= buffer && n == |Encode(p)|
  {
    hide Parse, Oversized, WordAt, BigEndian, Encode;
    if Parse(buffer).Complete? {
      Canonical(buffer);
    }
    if WellFormed(p) && Encode(p) <= buffer {
      var rest := buffer[|Encode(p)|..];
      assert buffer == Encode(p) + rest;
      ParseEncode(p, rest);
    }
  }

  lemma InvalidMeans(buffer: seq<byte>)
    ensures Parse(buffer) == InvalidType <==> |buffer| >= 4 && WordAt(buffer, 0) > 2
  {
    hide WordAt;
  }

  /** The parser, said without its stages: it completes with `p` exactly when the encoding of
      some frame `p` starts the buffer, refuses exactly the unknown types, and otherwise waits. */
  lemma ParseMeaning(buffer: seq<byte>, p: Packet, n: nat)
    requires !Oversized(buffer)
    ensures Parse(buffer) == Complete(p, n) <==> WellFormed(p) && Encode(p) <= buffer && n == |Encode(p)|
    ensures Parse(buffer) == InvalidType <==> |buffer| >= 4 && WordAt(buffer, 0) > 2
    ensures Parse(buffer).Incomplete? <==>
            !(|buffer| >= 4 && WordAt(buffer, 0) > 2) && !exists q: Frame :: Encode(q) <= buffer
  {
    hide Parse, Oversized, WordAt, Encode;
    CompleteMeans(buffer, p, n);
    InvalidMeans(buffer);
    if Parse(buffer).Complete? {
      var q: Frame := Parse(buffer).pkt;
      CompleteMeans(buffer, q, Parse(buffer).bytesConsumed);
      assert Encode(q) <= buffer;
    }
    forall q: Frame | Encode(q) <= buffer
      ensures Parse(buffer).Complete?
    {
      CompleteMeans(buffer, q, |Encode(q)|);
    }
  }

  /** More input never changes a complete or an invalid verdict, nor a declared length. */
  lemma VerdictStable(buffer: seq<byte>, more: seq<byte>)
    ensures Parse(buffer).Complete? || Parse(buffer).InvalidType? ==> Parse(buffer + more) == Parse(buffer)
    ensures |buffer| >= 8 ==> (Oversized(buffer + more) <==> Oversized(buffer))
  {
    if |buffer| >= 4 {
      assert WordAt(buffer + more, 0) == WordAt(buffer, 0);
      if |buffer| >= 8 {
        assert WordAt(buffer + more, 4) == WordAt(buffer, 4);
        var n: int := WordAt(buffer, 4);
        if |buffer| >= 8 + n {
          assert (buffer + more)[8..8 + n] == buffer[8..8 + n];
        }
      }
    }
  }

  /** No frame's encoding starts another frame's encoding. */
  lemma PrefixFree(p: Frame, q: Frame)
    requires Encode(p) <= Encode(q)
    ensures p == q
  {
    ParseEncode(q, []);
    assert Encode(q) + [] == Encode(q);
    var rest := Encode(q)[|Encode(p)|..];
    ParseEncode(p, rest);
    assert Encode(q) == Encode(p) + rest;
  }

  /** A frame that has not fully arrived is reported incomplete. */
  lemma ProperPrefixIsIncomplete(p: Frame, n: nat)
    requires n < |Encode(p)|
    ensures Parse(Encode(p)[..n]) == Incomplete && !Oversized(Encode(p)[..n])
  {
    var part, rest := Encode(p)[..n], Encode(p)[n..];
    assert Encode(p) + [] == part + rest;
    ParseEncode(p, []);
    VerdictStable(part, rest);
    FrameShape(p, []);
  }

  /** The packets the create functions build, field by field. */
  lemma CreatedPackets(msg: seq<byte>)
    ensures CreatePing() == Packet(Ping, 0, [], true)
    ensures CreatePong() == Packet(Pong, 0, [], true)
    ensures |msg| < 0x1_0000_0000 ==> CreateMsg(msg) == Packet(Greeting, |msg|, msg, true)
    ensures OfKind(Greeting) == Packet(Greeting, 0, [], false)
  {
  }

  /** Every byte of a frame's wire form: the type as three zeroes and 0, 1 or 2, the payload's length in
      base 256 with its highest digit first, and the payload. */
  lemma WireBytes(p: Frame, i: nat)
    requires i < |Encode(p)|
    ensures i < 3 ==> Encode(p)[i] == 0
    ensures i == 3 ==> Encode(p)[i] == if p.hdr == Ping then 0 else if p.hdr == Pong then 1 else 2
    ensures 4 <= i < 8 ==> Encode(p)[i] == |p.msg| / Power256(7 - i) % 0x100
    ensures i >= 8 ==> i - 8 < |p.msg| && Encode(p)[i] == p.msg[i - 8]
  {
    hide BigEndian, Power256;
    TypeWord(p.hdr);
    if 4 <= i < 8 {
      DigitOfWord(p.datalen, i - 4);
    }
  }

  lemma TypeWord(kind: Kind)
    ensures |BigEndian(Code(kind))| == 4
    ensures kind in {Ping, Pong, Greeting} ==> BigEndian(Code(kind)) == [0, 0, 0, Code(kind)]
  {
  }

  /** The bytes on the wire, in full, for each kind of frame. */
  lemma WireImages()
    ensures Encode(CreatePing()) == [0, 0, 0, 0]
    ensures Encode(CreatePong()) == [0, 0, 0, 1]
    ensures Encode(CreateMsg([72, 105])) == [0, 0, 0, 2, 0, 0, 0, 2, 72, 105]
    ensures Encode(CreateMsg(Zeroes(528)))[..8] == [0, 0, 0, 2, 0, 0, 2, 16]
  {
  }

  // ----- What an incomplete buffer still needs -----

  /** The least length to which an incomplete buffer of at least four bytes must grow:
      length bytes not yet seen count as zero. */
  function LeastTotal(buffer: seq<byte>): nat
    requires |buffer| >= 4
  {
    if |buffer| < 8 then 8 + WordAt(buffer + Zeroes(8 - |buffer|), 4) else 8 + WordAt(buffer, 4)
  }

  /** An incomplete buffer of at least four bytes can be completed by exactly the missing bytes,
      and by nothing shorter. */
  lemma LeastCompletion(buffer: seq<byte>, more: seq<byte>)
    requires |buffer| >= 4 && Parse(buffer).Incomplete? && !Oversized(buffer)
    ensures LeastTotal(buffer) > |buffer|
    ensures var full := buffer + Zeroes(LeastTotal(buffer) - |buffer|);
            Parse(full).Complete? && Parse(full).bytesConsumed == |full|
    ensures Parse(buffer + more).Complete? ==> |buffer + more| >= LeastTotal(buffer)
  {
    if |buffer| < 8 {
      LengthUnknown(buffer, more);
    } else {
      LengthKnown(buffer, more);
    }
  }

  /** The case in which the length word has arrived. */
  lemma LengthKnown(buffer: seq<byte>, more: seq<byte>)
    requires |buffer| >= 8 && Parse(buffer).Incomplete? && !Oversized(buffer)
    ensures LeastTotal(buffer) > |buffer|
    ensures var full := buffer + Zeroes(LeastTotal(buffer) - |buffer|);
            Parse(full).Complete? && Parse(full).bytesConsumed == |full|
    ensures Parse(buffer + more).Complete? ==> |buffer + more| >= LeastTotal(buffer)
  {
    var full := buffer + Zeroes(LeastTotal(buffer) - |buffer|);
    assert WordAt(full, 0) == WordAt(buffer + more, 0) == WordAt(buffer, 0) == 2;
    assert WordAt(full, 4) == WordAt(buffer + more, 4) == WordAt(buffer, 4);
  }

  /** The case in which some of it is missing. */
  lemma LengthUnknown(buffer: seq<byte>, more: seq<byte>)
    requires 4 <= |buffer| < 8 && Parse(buffer).Incomplete?
    ensures LeastTotal(buffer) > |buffer|
    ensures var full := buffer + Zeroes(LeastTotal(buffer) - |buffer|);
            Parse(full).Complete? && Parse(full).bytesConsumed == |full|
    ensures Parse(buffer + more).Complete? ==> |buffer + more| >= LeastTotal(buffer)
  {
    var padded := buffer + Zeroes(8 - |buffer|);
    var full := buffer + Zeroes(LeastTotal(buffer) - |buffer|);
    assert WordAt(full, 0) == WordAt(buffer + more, 0) == WordAt(buffer, 0) == 2;
    assert padded[7] == 0;
    assert full[4..8] == padded[4..8];
    assert forall i :: 4 <= i < 8 ==> full[i] == full[4..8][i - 4];
    assert WordAt(full, 4) == WordAt(padded, 4);
    if |buffer + more| >= 8 {
      ZeroFillIsLeast(buffer, more, 4);
      assert padded == buffer + seq(8 - |buffer|, _ => 0);
    }
  }

  /** With fewer than four bytes the parser always waits; the wait can end in a packet exactly
      when every byte seen is zero. */
  lemma ShortBufferCompletes(buffer: seq<byte>)
    requires |buffer| < 4
    ensures Parse(buffer).Incomplete?
    ensures (exists more :: Parse(buffer + more).Complete?) <==> forall i :: 0 <= i < |buffer| ==> buffer[i] == 0
  {
    if forall i :: 0 <= i < |buffer| ==> buffer[i] == 0 {
      assert Parse(buffer + Zeroes(4 - |buffer|)).Complete?;
    }
    forall more | Parse(buffer + more).Complete?
      ensures forall i :: 0 <= i < |buffer| ==> buffer[i] == 0
    {
      assert WordAt(buffer + more, 0) <= 2;
      forall i | 0 <= i < |buffer| ensures buffer[i] == 0 {
        assert (buffer + more)[i] == buffer[i];
      }
    }
  }
}
