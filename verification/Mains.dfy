// The script that client/main.cc and server/main.cc run, as an instance of the session theorems.

module Mains {
  import opened Bytes
  import opened Packets
  import opened Streams
  import opened Lists
  import opened Decoders
  import opened Chunking
  import opened Waits
  import opened Sessions
  import opened SessionSafety
  import opened SessionLiveness

  function Ascii(s: string): (r: seq<byte>)
    ensures |r| == |s|
  {
    seq(|s|, i requires 0 <= i < |s| => s[i] as int % 0x100)
  }

  /** The texts of the two programs, byte by byte. */
  lemma Texts()
    ensures Ascii("QUIT") == [81, 85, 73, 84]
    ensures Ascii("Hello World!") == [72, 101, 108, 108, 111, 32, 87, 111, 114, 108, 100, 33]
    ensures Ascii("Hello from client!") ==
            [72, 101, 108, 108, 111, 32, 102, 114, 111, 109, 32, 99, 108, 105, 101, 110, 116, 33]
  {
  }

  /** The characters the programs count up from '0'. */
  function Digit(i: nat): byte
    requires i < 0x100 - 48
  {
    48 + i
  }

  // ----- The payloads that the mains build in loops -----

  /** 33 blocks of 16 equal characters, longer than two reads of the server. */
  function BigPayload(): (r: seq<byte>)
    ensures |r| == 528
  {
    seq(528, k requires 0 <= k < 528 => Digit(k / 16))
  }

  method BuildBigPayload() returns (builtMsg: seq<byte>)
    ensures builtMsg == BigPayload()
    ensures |builtMsg| == 528
    ensures forall k :: 0 <= k < 33 * 16 ==> builtMsg[k] == '0' as int + k / 16
  {
    builtMsg := Zeroes(33 * 16);
    for i := 0 to 33
      invariant |builtMsg| == 528
      invariant forall k :: 0 <= k < i * 16 ==> builtMsg[k] == Digit(k / 16)
    {
      var nextChar := Digit(i);
      for j := 0 to 16
        invariant |builtMsg| == 528
        invariant forall k :: 0 <= k < i * 16 + j ==> builtMsg[k] == Digit(k / 16)
      {
        builtMsg := builtMsg[i * 16 + j := nextChar];
      }
    }
  }

  /** Twice the fifty characters from '0' on. */
  function HundredPayload(): (r: seq<byte>)
    ensures |r| == 100
  {
    seq(100, k requires 0 <= k < 100 => if k < 50 then Digit(k) else Digit(k - 50))
  }

  method BuildHundredPayload() returns (msg: seq<byte>)
    ensures msg == HundredPayload()
    ensures |msg| == 100
    ensures forall k :: 0 <= k < 50 ==> msg[k] == '0' as int + k
    ensures forall k :: 50 <= k < 100 ==> msg[k] == '0' as int + k - 50
  {
    msg := Zeroes(100);
    for i := 0 to 50
      invariant |msg| == 100
      invariant forall k :: 0 <= k < i ==> msg[k] == Digit(k)
      invariant forall k :: 50 <= k < 50 + i ==> msg[k] == Digit(k - 50)
    {
      msg := msg[i := Digit(i)];
      msg := msg[50 + i := Digit(i)];
    }
  }

  /** Only the first character is ever written; the loop leaves its last value there. */
  function FiftyPayload(): (r: seq<byte>)
    ensures |r| == 50
  {
    Zeroes(50)[0 := Digit(49)]
  }

  method BuildFiftyPayload() returns (msg: seq<byte>)
    ensures msg == FiftyPayload()
    ensures |msg| == 50 && msg[0] == 'a' as int
    ensures forall k :: 1 <= k < 50 ==> msg[k] == 0
  {
    msg := Zeroes(50);
    for i := 0 to 50
      invariant msg == if i == 0 then Zeroes(50) else Zeroes(50)[0 := Digit(i - 1)]
    {
      msg := msg[0 := Digit(i)];
    }
  }

  /** The second and third fifty characters count up; of the first fifty only one is written. */
  function HundredFiftyPayload(): (r: seq<byte>)
    ensures |r| == 150
  {
    seq(150, k requires 0 <= k < 150 =>
      if k == 0 then Digit(49) else if k < 50 then 0 else if k < 100 then Digit(k - 50) else Digit(k - 100))
  }

  method BuildHundredFiftyPayload() returns (msg: seq<byte>)
    ensures msg == HundredFiftyPayload()
    ensures |msg| == 150 && msg[0] == 'a' as int
    ensures forall k :: 1 <= k < 50 ==> msg[k] == 0
    ensures forall k :: 50 <= k < 100 ==> msg[k] == '0' as int + k - 50
    ensures forall k :: 100 <= k < 150 ==> msg[k] == '0' as int + k - 100
  {
    msg := Zeroes(150);
    for i := 0 to 50
      invariant |msg| == 150
      invariant msg[0] == if i == 0 then 0 else Digit(i - 1)
      invariant forall k :: 1 <= k < 50 ==> msg[k] == 0
      invariant forall k :: 50 <= k < 50 + i ==> msg[k] == Digit(k - 50)
      invariant forall k :: 100 <= k < 100 + i ==> msg[k] == Digit(k - 100)
    {
      msg := msg[0 := Digit(i)];
      msg := msg[50 + i := Digit(i)];
      msg := msg[100 + i := Digit(i)];
    }
  }

  // ----- The script -----

  function FromClient(p: Frame, firstChecked: bool, check: Check): Phase {
    Phase([[p]], false, Expect(1, firstChecked, true, check))
  }

  /** Seven phases. The server waits for one packet each time, looks at the status of the first read
      only in its first wait, and refuses extra packets; the client waits for one, three and three,
      always looks at the status, and judges the packets only in its first wait. */
  function MainsScript(): Script {
    [ FromClient(CreatePing(), true, FirstIs(Ping)),
      Phase([[CreatePong()]], false, Expect(1, true, false, EveryIs(Pong))),
      FromClient(CreateMsg(Ascii("Hello from client!")), false, FirstIs(Greeting)),
      Phase([[CreatePong()], [CreatePing()], [CreateMsg(Ascii("Hello World!"))]], true,
            Expect(3, true, false, NoCheck)),
      FromClient(CreateMsg(BigPayload()), false, FirstIs(Greeting)),
      Phase([[CreateMsg(HundredPayload()), CreateMsg(FiftyPayload()), CreateMsg(HundredFiftyPayload())]], true,
            Expect(3, true, false, NoCheck)),
      FromClient(CreateMsg(Ascii("QUIT")), false, FirstSays(Ascii("QUIT")))
    ]
  }

  lemma SentOne(p: Frame)
    ensures Concat([[p]]) == [p]
  {
  }

  lemma SentThree(p: Frame, q: Frame, r: Frame)
    ensures Concat([[p], [q], [r]]) == [p, q, r]
    ensures Concat([[p, q, r]]) == [p, q, r]
  {
    assert [[p], [q], [r]][1..] == [[q], [r]];
    assert [[q], [r]][1..] == [[r]];
    SentOne(r);
    assert Concat([[q], [r]]) == [q] + Concat([[r]]);
    assert Concat([[p, q, r]]) == [p, q, r] + Concat([]);
  }

  /** The two programs fit each other. */
  lemma MainsMatch()
    ensures WellMatched(MainsScript())
    ensures var s := MainsScript();
            && Sent(s[0]) == [CreatePing()]
            && Sent(s[1]) == [CreatePong()]
            && Sent(s[2]) == [CreateMsg(Ascii("Hello from client!"))]
            && Sent(s[3]) == [CreatePong(), CreatePing(), CreateMsg(Ascii("Hello World!"))]
            && Sent(s[4]) == [CreateMsg(BigPayload())]
            && Sent(s[5]) == [CreateMsg(HundredPayload()), CreateMsg(FiftyPayload()), CreateMsg(HundredFiftyPayload())]
            && Sent(s[6]) == [CreateMsg(Ascii("QUIT"))]
  {
    hide Concat, Ascii, BigPayload, HundredPayload, FiftyPayload, HundredFiftyPayload;
    SentOne(CreatePing());
    SentOne(CreatePong());
    SentOne(CreateMsg(Ascii("Hello from client!")));
    SentThree(CreatePong(), CreatePing(), CreateMsg(Ascii("Hello World!")));
    SentOne(CreateMsg(BigPayload()));
    SentThree(CreateMsg(HundredPayload()), CreateMsg(FiftyPayload()), CreateMsg(HundredFiftyPayload()));
    SentOne(CreateMsg(Ascii("QUIT")));
  }

  /** How the batches are written: packet by packet, but for the server's last batch, which is one write.
      The server looks for an empty write in its last two batches. */
  lemma MainsWrites(g: nat)
    requires g < 7
    ensures MainsScript()[g].zeroFatal <==> g in {3, 5}
    ensures MainsScript()[g].writes ==
            var sent := Sent(MainsScript()[g]);
            if g == 5 then [sent] else seq(|sent|, i requires 0 <= i < |sent| => [sent[i]])
  {
    hide Concat, Ascii, BigPayload, HundredPayload, FiftyPayload, HundredFiftyPayload;
    MainsMatch();
  }

  /** How long the encodings of one and of three packets are. */
  lemma WireLengths(p: Frame, q: Frame, r: Frame)
    ensures var n := (f: Frame) => if f.hdr == Greeting then 8 + |f.msg| else 4;
            |Wire([p])| == n(p) && |Wire([p, q, r])| == n(p) + n(q) + n(r)
  {
    hide Encode, Wire;
    WireOne(p);
    WireOne(r);
    FrameShape(p, []);
    FrameShape(q, []);
    FrameShape(r, []);
    WireCons(p, [q, r]);
    WireCons(q, [r]);
    assert [p, q, r] == [p] + [q, r] && [q, r] == [q] + [r];
  }

  /** What the two programs can spend: 9 writes, 934 bytes and two steps for each of 7 waits. */
  lemma MainsBudget()
    ensures Budget(MainsScript()) == 9 + 934 + 14
  {
    hide Budget, Concat, Ascii, BigPayload, HundredPayload, FiftyPayload, HundredFiftyPayload, Wire, Encode;
    var s := MainsScript();
    MainsMatch();
    WireLengths(CreatePing(), CreatePing(), CreatePing());
    WireLengths(CreatePong(), CreatePing(), CreateMsg(Ascii("Hello World!")));
    WireLengths(CreateMsg(Ascii("Hello from client!")), CreatePing(), CreatePing());
    WireLengths(CreateMsg(BigPayload()), CreatePing(), CreatePing());
    WireLengths(CreateMsg(HundredPayload()), CreateMsg(FiftyPayload()), CreateMsg(HundredFiftyPayload()));
    WireLengths(CreateMsg(Ascii("QUIT")), CreatePing(), CreatePing());
    BudgetOfSeven(s);
  }

  lemma BudgetOfSeven(s: Script)
    requires |s| == 7
    ensures Budget(s) == 14 + |s[0].writes| + |s[1].writes| + |s[2].writes| + |s[3].writes| + |s[4].writes| +
                         |s[5].writes| + |s[6].writes| + |Wire(Sent(s[0]))| + |Wire(Sent(s[1]))| + |Wire(Sent(s[2]))| +
                         |Wire(Sent(s[3]))| + |Wire(Sent(s[4]))| + |Wire(Sent(s[5]))| + |Wire(Sent(s[6]))|
  {
    hide Budget, Wire, Sent;
    BudgetNext(s, 0);
    BudgetNext(s, 1);
    BudgetNext(s, 2);
    BudgetNext(s, 3);
    BudgetNext(s, 4);
    BudgetNext(s, 5);
    BudgetNext(s, 6);
    NothingToSpend();
    assert s[..7] == s && s[..0] == [];
  }

  lemma BudgetNext(s: Script, k: nat)
    requires k < |s|
    ensures Budget(s[..k + 1]) == Budget(s[..k]) + |s[k].writes| + |Wire(Sent(s[k]))| + 2
  {
    hide Wire, Sent;
    assert s[..k + 1][..k] == s[..k];
  }

  lemma NothingToSpend()
    ensures Budget([]) == 0
  {
  }

  /** Under every schedule the two programs never take an error exit, and when they stop the server
      holds the ping, the greeting, the big payload and QUIT, and the client the three answers. */
  lemma MainsSession(schedule: seq<Action>)
    requires Run(MainsScript(), schedule).Some?
    ensures var s := Run(MainsScript(), schedule).value;
            && !s.client.at.Stopped? && !s.server.at.Stopped?
            && |schedule| <= 957
            && (Stuck(MainsScript(), s) ==>
                  && s.client.at.Exited? && s.server.at.Exited?
                  && s.server.held == [[CreatePing()], [CreateMsg(Ascii("Hello from client!"))],
                                       [CreateMsg(BigPayload())], [CreateMsg(Ascii("QUIT"))]]
                  && s.client.held == [[CreatePong()],
                                       [CreatePong(), CreatePing(), CreateMsg(Ascii("Hello World!"))],
                                       [CreateMsg(HundredPayload()), CreateMsg(FiftyPayload()),
                                        CreateMsg(HundredFiftyPayload())]])
  {
    hide WellMatched, Run, Stuck, MainsScript;
    MainsMatch();
    NeverFails(MainsScript(), schedule, Client);
    NeverFails(MainsScript(), schedule, Server);
    AlwaysEnds(MainsScript(), schedule);
    MainsBudget();
    MainsReceipts();
  }

  lemma MainsReceipts()
    ensures |MainsScript()| == 7
    ensures Receipts(MainsScript(), Server, 7) ==
            [[CreatePing()], [CreateMsg(Ascii("Hello from client!"))],
             [CreateMsg(BigPayload())], [CreateMsg(Ascii("QUIT"))]]
    ensures Receipts(MainsScript(), Client, 7) ==
            [[CreatePong()], [CreatePong(), CreatePing(), CreateMsg(Ascii("Hello World!"))],
             [CreateMsg(HundredPayload()), CreateMsg(FiftyPayload()), CreateMsg(HundredFiftyPayload())]]
  {
    hide Concat, Ascii, BigPayload, HundredPayload, FiftyPayload, HundredFiftyPayload;
    var s := MainsScript();
    MainsMatch();
    UnrollReceipts(s, Server);
    UnrollReceipts(s, Client);
  }

  /** A phase of the client and the answer of the server add one batch to either side. */
  lemma TwoPhases(s: Script, x: Side, i: nat)
    requires i + 2 <= |s| && i % 2 == 0
    ensures Receipts(s, x, i + 2) == Receipts(s, x, i) + [Sent(s[if x == Server then i else i + 1])]
  {
    hide Sent;
    assert Receipts(s, x, i + 1) == Receipts(s, x, i) + if x == Server then [Sent(s[i])] else [];
  }

  lemma UnrollReceipts(s: Script, x: Side)
    requires |s| == 7
    ensures Receipts(s, x, 7) ==
            if x == Server then [Sent(s[0]), Sent(s[2]), Sent(s[4]), Sent(s[6])]
            else [Sent(s[1]), Sent(s[3]), Sent(s[5])]
  {
    hide Receipts, Sent;
    NoPhases(s, x);
    TwoPhases(s, x, 0);
    TwoPhases(s, x, 2);
    TwoPhases(s, x, 4);
    ReceiptsGrow(s, 6);
    var first := Sent(s[if x == Server then 0 else 1]);
    var second := Sent(s[if x == Server then 2 else 3]);
    assert Receipts(s, x, 4) == [first, second];
  }

  lemma NoPhases(s: Script, x: Side)
    ensures Receipts(s, x, 0) == []
  {
  }

  /** The big payload, 528 bytes that never fit one read of the server, arrives byte for byte, and not
      before the third read. */
  lemma BigPayloadArrives(chunks: seq<seq<byte>>)
    requires Concat(chunks) == Wire([CreateMsg(BigPayload())])
    requires forall j :: 0 <= j < |chunks| ==> |chunks[j]| <= Capacity(Server)
    ensures Delivered(chunks) == [CreateMsg(BigPayload())] && |chunks| >= 3
  {
    hide BigPayload, Encode, Wire, Concat, WordAt, Delivered;
    var p: Frame := CreateMsg(BigPayload());
    StreamRoundTrip([p], chunks);
    WireOne(p);
    FrameShape(p, []);
    ReadAtMost(chunks, |chunks|, Capacity(Server));
    assert chunks[..|chunks|] == chunks;
  }

  // ----- A peer that leaves -----

  /** The server sends the pong of its three packets and half of the ping, and is gone: the client's wait
      ends its main with -1, although the connection was closed in good order. */
  lemma ServerLeaves(later: seq<Read>)
    ensures Await(MainsScript()[3].wait, [], Disconnect([[0, 0, 0, 1, 0, 0]], later)).outcome ==
            Failed(BadStatus(Closed))
  {
    hide DecodeAll, Wire, Await, Encode, Ascii, BigPayload, HundredPayload, FiftyPayload, HundredFiftyPayload;
    var chunks: seq<seq<byte>> := [[0, 0, 0, 1, 0, 0]];
    Half();
    WireOne(CreatePong());
    WireImages();
    assert Concat(chunks) == chunks[0] + Concat([]) == chunks[0];
    assert [] + Concat(chunks) == Wire([CreatePong()]) + [0, 0];
    OnlyDecoding([] + Concat(chunks), [CreatePong()], [0, 0], Waiting);
    DisconnectExactly(MainsScript()[3].wait, [], chunks, later);
  }

  /** The client leaves after its ping: so does the server's second wait end, which does not look at the
      status of its first read. */
  lemma ClientLeaves(later: seq<Read>)
    ensures Await(MainsScript()[2].wait, [], Disconnect([], later)).outcome == Failed(BadStatus(Closed))
  {
    hide DecodeAll, Await, Ascii, BigPayload, HundredPayload, FiftyPayload, HundredFiftyPayload;
    Half();
    NothingIsNothing();
    assert [] + Concat<byte>([]) == [];
    DisconnectExactly(MainsScript()[2].wait, [], [], later);
  }

  /** Half of a header waits for the rest, and an empty buffer for everything. */
  lemma Half()
    ensures StoppedBy([0, 0], Waiting) && Settled([])
  {
  }
}
