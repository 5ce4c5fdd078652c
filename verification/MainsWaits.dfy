// The seven waits of the two mains, each told from its calls of get_packets: when it holds its packets,
// and when main returns -1 and why, for every buffer it begins with and everything its reads return.

module MainsWaits {
  import opened Bytes
  import opened Packets
  import opened Decoders
  import opened Waits
  import opened Mains

  /** The server's first wait: one ping. The status of every read counts. */
  lemma ServerPing(buffer: seq<byte>, input: seq<Read>, n: nat)
    requires Makes(1, true, buffer, input, n)
    ensures var a := Await(MainsScript()[0].wait, buffer, input);
            var got := GainedOver(buffer, input, n);
            && ComesOut(1, true, buffer, input, n, a)
            && (a.outcome == Held <==> |got| == 1 && got[0].hdr == Ping)
            && (a.outcome == Failed(TooMany) <==> |got| > 1)
            && (a.outcome == Failed(WrongContent) <==> |got| == 1 && got[0].hdr != Ping)
  {
    hide Await, LastCall, ComesOut, Ascii, BigPayload, HundredPayload, FiftyPayload, HundredFiftyPayload;
    var m := WaitComesOut(MainsScript()[0].wait, buffer, input);
    MakesOnce(1, true, buffer, input, n, m);
    ShortIsOpen(1, true, buffer, input, n, Await(MainsScript()[0].wait, buffer, input));
  }

  /** The client's first wait: at least one packet, and nothing but pongs. More than one is no error. */
  lemma ClientPong(buffer: seq<byte>, input: seq<Read>, n: nat)
    requires Makes(1, true, buffer, input, n)
    ensures var a := Await(MainsScript()[1].wait, buffer, input);
            var got := GainedOver(buffer, input, n);
            && ComesOut(1, true, buffer, input, n, a)
            && (a.outcome == Held <==> |got| >= 1 && forall i :: 0 <= i < |got| ==> got[i].hdr == Pong)
            && a.outcome != Failed(TooMany)
            && (a.outcome == Failed(WrongContent) <==> exists i :: 0 <= i < |got| && got[i].hdr != Pong)
  {
    hide Await, LastCall, ComesOut, Ascii, BigPayload, HundredPayload, FiftyPayload, HundredFiftyPayload;
    var m := WaitComesOut(MainsScript()[1].wait, buffer, input);
    MakesOnce(1, true, buffer, input, n, m);
    ShortIsOpen(1, true, buffer, input, n, Await(MainsScript()[1].wait, buffer, input));
  }

  /** The server's waits for the first greeting and for the big one: one greeting, whatever its text. The
      status of the first read does not count. */
  lemma ServerGreeting(g: nat, buffer: seq<byte>, input: seq<Read>, n: nat)
    requires g in {2, 4} && Makes(1, false, buffer, input, n)
    ensures var a := Await(MainsScript()[g].wait, buffer, input);
            var got := GainedOver(buffer, input, n);
            && ComesOut(1, false, buffer, input, n, a)
            && (a.outcome == Held <==> |got| == 1 && got[0].hdr == Greeting)
            && (a.outcome == Failed(TooMany) <==> |got| > 1)
            && (a.outcome == Failed(WrongContent) <==> |got| == 1 && got[0].hdr != Greeting)
  {
    hide Await, LastCall, ComesOut, Ascii, BigPayload, HundredPayload, FiftyPayload, HundredFiftyPayload;
    var m := WaitComesOut(MainsScript()[g].wait, buffer, input);
    MakesOnce(1, false, buffer, input, n, m);
    ShortIsOpen(1, false, buffer, input, n, Await(MainsScript()[g].wait, buffer, input));
  }

  /** The client's second and third waits: three packets or more, whatever they are. */
  lemma ClientThree(g: nat, buffer: seq<byte>, input: seq<Read>, n: nat)
    requires g in {3, 5} && Makes(3, true, buffer, input, n)
    ensures var a := Await(MainsScript()[g].wait, buffer, input);
            && ComesOut(3, true, buffer, input, n, a)
            && (a.outcome == Held <==> |GainedOver(buffer, input, n)| >= 3)
            && a.outcome != Failed(TooMany) && a.outcome != Failed(WrongContent)
  {
    hide Await, LastCall, ComesOut, Ascii, BigPayload, HundredPayload, FiftyPayload, HundredFiftyPayload;
    var m := WaitComesOut(MainsScript()[g].wait, buffer, input);
    MakesOnce(3, true, buffer, input, n, m);
    ShortIsOpen(3, true, buffer, input, n, Await(MainsScript()[g].wait, buffer, input));
  }

  /** The server's last wait: one greeting that says QUIT. The status of the first read does not count. */
  lemma ServerQuit(buffer: seq<byte>, input: seq<Read>, n: nat)
    requires Makes(1, false, buffer, input, n)
    ensures var a := Await(MainsScript()[6].wait, buffer, input);
            var got := GainedOver(buffer, input, n);
            var quit := |got| == 1 && got[0].hdr == Greeting && got[0].msg == [81, 85, 73, 84];
            && ComesOut(1, false, buffer, input, n, a)
            && (a.outcome == Held <==> quit)
            && (a.outcome == Failed(TooMany) <==> |got| > 1)
            && (a.outcome == Failed(WrongContent) <==> |got| == 1 && !quit)
  {
    hide Await, LastCall, ComesOut, Ascii, BigPayload, HundredPayload, FiftyPayload, HundredFiftyPayload;
    var m := WaitComesOut(MainsScript()[6].wait, buffer, input);
    MakesOnce(1, false, buffer, input, n, m);
    ShortIsOpen(1, false, buffer, input, n, Await(MainsScript()[6].wait, buffer, input));
    Texts();
  }

  /** With too few packets a wait has failed by a status, or is blocked. */
  lemma ShortIsOpen(want: nat, looks: bool, buffer: seq<byte>, input: seq<Read>, n: nat, a: Awaited)
    requires n <= |input| && ComesOut(want, looks, buffer, input, n, a)
    ensures a.all == GainedOver(buffer, input, n)
    ensures |a.all| < want ==> a.outcome !in {Held, Failed(TooMany), Failed(WrongContent)}
  {
    hide Receive, CallOver, BufferOver, GainedOver;
    if |a.all| < want && a.outcome != Blocked {
      assert a.outcome == Failed(BadStatus(CallOver(buffer, input, n - 1).status));
    }
  }
}
