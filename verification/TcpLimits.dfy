/** Where the promises about retransmission end: exactly when a SYN or FIN may be resent differently, and runs
    from a fresh slot that get there. */
module TcpLimits {
  import opened Basics
  import opened Wire
  import opened Segments
  import opened Tcp
  import opened TcpRuns

  // ---- Exactly when all copies are the same ----

  datatype Timed = Timed(event: Event, time: nat)

  /** The clock does not go back, from `now` on. */
  predicate OnClock(calls: seq<Timed>, now: nat) {
    calls == [] || (now <= calls[0].time && OnClock(calls[1..], calls[0].time))
  }

  /** As long as the state stays the same, each call sends nothing, or exactly `p`. */
  ghost predicate SendsOnly(p: Bytes, c: Conn, ip: Ip, calls: seq<Timed>)
    requires c.Sized()
    decreases |calls|
  {
    calls != [] ==>
      var c' := Do(c, ip, calls[0].event, calls[0].time);
      c'.state == c.state ==> (c'.sent == c.sent || c'.sent == c.sent + [p]) && SendsOnly(p, c', ip, calls[1..])
  }

  lemma {:induction false} WithPeerSendsOnly(c: Conn, ip: Ip, calls: seq<Timed>)
    requires Good(c) && InFlight(c.state) && (HasPeer(c) || c.retries == MAX_RETRIES)
    ensures SendsOnly(Handshake(c, ip), c, ip, calls)
    decreases |calls|
  {
    hide Do, Good, Handshake;
    GoodIsBounded(c);
    if calls != [] {
      var e, t := calls[0].event, calls[0].time;
      var c' := Do(c, ip, e, t);
      if c'.state == c.state {
        StepWaits(c, ip, e, t);
        DoKeepsGood(c, ip, e, t);
        GoodIsBounded(c');
        HandshakeShowsPeer(c, c', ip);
        if HasPeer(c) {
          WithPeerSendsOnly(c', ip, calls[1..]);
        } else {
          GivenUpSendsNothing(Handshake(c, ip), c', ip, calls[1..]);
        }
      }
    }
  }

  lemma GoodIsBounded(c: Conn)
    requires Good(c)
    ensures c.Sized() && c.retries <= MAX_RETRIES
  {
  }

  /** After the last retry no packet is sent any more in this state. */
  lemma {:induction false} GivenUpSendsNothing(p: Bytes, c: Conn, ip: Ip, calls: seq<Timed>)
    requires Good(c) && InFlight(c.state) && c.retries == MAX_RETRIES
    ensures SendsOnly(p, c, ip, calls)
    decreases |calls|
  {
    hide Do, Good, Handshake;
    GoodIsBounded(c);
    if calls != [] {
      var e, t := calls[0].event, calls[0].time;
      var c' := Do(c, ip, e, t);
      if c'.state == c.state {
        StepWaits(c, ip, e, t);
        DoKeepsGood(c, ip, e, t);
        GoodIsBounded(c');
        GivenUpSendsNothing(p, c', ip, calls[1..]);
      }
    }
  }

  /** A segment from a peer, without payload. */
  function Sent(srcPort: U16, dstPort: U16, ackNo: U32, flags: Byte, srcIp: Ip, ip: Ip): Bytes {
    Segment(Fields(srcPort, dstPort, 0, ackNo, flags, 0), srcIp, ip, [])
  }

  lemma SentParses(srcPort: U16, dstPort: U16, ackNo: U32, flags: Byte, srcIp: Ip, ip: Ip)
    requires flags < 0x40
    ensures var hdr := ParseTcp(Sent(srcPort, dstPort, ackNo, flags, srcIp, ip));
      && hdr.Some? && hdr.value.srcPort == srcPort && hdr.value.dstPort == dstPort && hdr.value.seqNo == 0
      && hdr.value.ackNo == ackNo && hdr.value.flags == flags && hdr.value.payload == []
  {
    hide Segment, ParseTcp;
    ParseOfSegment(Fields(srcPort, dstPort, 0, ackNo, flags, 0), srcIp, ip, []);
  }

  const PEER_IP: Ip := [10, 0, 2, 2]
  const PEER_PORT: U16 := 80

  /** A segment without flags, from the peer of a slot or, where that is missing, from some other one. */
  function Blank(c: Conn, ip: Ip): Timed {
    var srcIp := if c.remoteIp == NO_IP then PEER_IP else c.remoteIp;
    Timed(Arriving(srcIp, Sent(if c.remotePort == 0 then PEER_PORT else c.remotePort, c.localPort, 0, 0, srcIp, ip)),
      c.lastTxTime)
  }

  /** It fills in the peer, and changes nothing else. */
  lemma BlankFillsIn(c: Conn, ip: Ip)
    requires Good(c) && InFlight(c.state)
    ensures var c' := Do(c, ip, Blank(c, ip).event, c.lastTxTime);
      c' == c.(remoteIp := if c.remoteIp == NO_IP then PEER_IP else c.remoteIp,
               remotePort := if c.remotePort == 0 then PEER_PORT else c.remotePort)
  {
    hide Sent, ParseTcp, Add32, Outgoing, Overwrite;
    var srcIp := if c.remoteIp == NO_IP then PEER_IP else c.remoteIp;
    SentParses(if c.remotePort == 0 then PEER_PORT else c.remotePort, c.localPort, 0, 0, srcIp, ip);
  }

  /** A poll once the timeout has passed resends the SYN or FIN as it is then. */
  lemma PollResends(c: Conn, ip: Ip, now: nat)
    requires Good(c) && InFlight(c.state) && c.retries < MAX_RETRIES && now >= c.lastTxTime + c.rtoMs
    ensures var c' := Do(c, ip, Polling, now); c'.state == c.state && c'.sent == c.sent + [Handshake(c, ip)]
    ensures var c' := Do(c, ip, Polling, now);
      c'.retries == c.retries + 1 && c'.rtoMs == 2 * c.rtoMs && c'.lastTxTime == now && SamePeer(c, c')
        && SameButPeer(c, c')
  {
    hide IpHeader, Segment;
    assert c.lastTxPayload[..c.lastTxLen] == [];
  }

  /** The calls after which a slot without a known peer resends something else. */
  function Switch(c: Conn, ip: Ip): seq<Timed> {
    [Blank(c, ip), Timed(Polling, c.lastTxTime + c.rtoMs)]
  }

  lemma WithoutPeerSwitches(c: Conn, ip: Ip)
    requires Good(c) && InFlight(c.state) && !HasPeer(c) && c.retries < MAX_RETRIES
    ensures OnClock(Switch(c, ip), c.lastTxTime) && !SendsOnly(Handshake(c, ip), c, ip, Switch(c, ip))
  {
    hide Do, Handshake, Blank, InFlight;
    var calls, p := Switch(c, ip), Handshake(c, ip);
    var c1 := Do(c, ip, calls[0].event, calls[0].time);
    BlankTime(c, ip);
    BlankFillsIn(c, ip);
    HandshakeShowsPeer(c, c1, ip);
    assert calls[1..] == [calls[1]] && calls[1..][1..] == [];
    assert OnClock([calls[1]], calls[0].time);
    PollResends(c1, ip, calls[1].time);
    assert c1.sent + [Handshake(c1, ip)] != c1.sent + [p] by {
      LastDecides(c1.sent, Handshake(c1, ip), c1.sent, p);
    }
    assert !SendsOnly(p, c1, ip, [calls[1]]);
  }

  lemma BlankTime(c: Conn, ip: Ip)
    ensures Blank(c, ip).time == c.lastTxTime
  {
  }

  /** While a SYN or FIN waits to be acknowledged, every packet that any further calls send in that state is a
      copy of it exactly when the peer's address is known, or no retry is left. */
  lemma ResendsOnlyCopiesExactly(c: Conn, ip: Ip)
    requires Good(c) && InFlight(c.state)
    ensures (forall calls :: OnClock(calls, c.lastTxTime) ==> SendsOnly(Handshake(c, ip), c, ip, calls))
      <==> HasPeer(c) || c.retries == MAX_RETRIES
  {
    hide Handshake, SendsOnly, OnClock, Good;
    GoodIsBounded(c);
    if HasPeer(c) || c.retries == MAX_RETRIES {
      forall calls | OnClock(calls, c.lastTxTime) ensures SendsOnly(Handshake(c, ip), c, ip, calls) {
        WithPeerSendsOnly(c, ip, calls);
      }
    } else {
      WithoutPeerSwitches(c, ip);
    }
  }

  // ---- Runs from a fresh slot ----

  /** A run and one call more. */
  lemma RunExtends(run: Run, e: Event, t: nat) returns (longer: Run)
    requires run.Ok() && (run.times == [] || run.times[|run.times| - 1] <= t)
    ensures run.states[|run.states| - 1].Sized() && longer.Ok() && longer.ip == run.ip
    ensures longer.states == run.states + [Do(run.states[|run.states| - 1], run.ip, e, t)]
    ensures longer.events == run.events + [e] && longer.times == run.times + [t]
  {
    hide Do, New, Good;
    ReachableIsGood(run, |run.states| - 1);
    GoodIsBounded(run.states[|run.states| - 1]);
    longer := Run(run.ip, run.states + [Do(run.states[|run.states| - 1], run.ip, e, t)], run.events + [e],
      run.times + [t]);
    forall i | 0 <= i < |longer.events| ensures longer.StepAt(i) {
      assert i < |run.events| ==> run.StepAt(i);
    }
  }

  function Fresh(ip: Ip): Run {
    Run(ip, [New([])], [], [])
  }

  lemma FreshOk(ip: Ip)
    ensures Fresh(ip).Ok()
  {
    hide New;
  }

  /** `connect` on a closed slot. */
  lemma Connects(c: Conn, ip: Ip, port: U16, remoteIp: Ip, remotePort: U16, now: nat)
    requires Good(c) && c.state == Closed
    ensures var c' := Do(c, ip, Connecting(port, remoteIp, remotePort), now);
      && Good(c') && c'.state == SynSent && c'.localPort == port && c'.remoteIp == remoteIp
      && c'.remotePort == remotePort
      && c'.retries == 0 && c'.rtoMs == RTO_MS && c'.lastTxTime == now && c'.localSeq == Add32(now % 0x1_0000_0000, 1)
      && c'.sendLen == c.sendLen && c'.sent == c.sent + [Handshake(c', ip)]
  {
    hide IpHeader, Segment, Add32, Overwrite;
    FlagBits();
    DoKeepsGood(c, ip, Connecting(port, remoteIp, remotePort), now);
  }

  lemma FreshIsGood()
    ensures Good(New([])) && New([]).state == Closed && New([]).sendLen == 0 && New([]).sent == []
  {
  }

  /** From a fresh slot: `connect` to no address, a segment without flags from a peer, and a poll one second
      later send two different packets. */
  lemma ConnectSwitches(ip: Ip, port: U16) returns (run: Run)
    ensures run.Ok() && run.ip == ip && run.times == [0, 0, 1000]
    ensures run.events ==
      [Connecting(port, NO_IP, 0), Arriving(PEER_IP, Sent(PEER_PORT, port, 0, 0, PEER_IP, ip)), Polling]
    ensures |run.states[3].sent| == 2 && run.states[3].sent[1] != run.states[3].sent[0]
    ensures run.states[1].state == run.states[2].state == run.states[3].state == SynSent
  {
    hide Do, New, Handshake, Sent, Good;
    FreshOk(ip);
    FreshIsGood();
    run := RunExtends(Fresh(ip), Connecting(port, NO_IP, 0), 0);
    Connects(New([]), ip, port, NO_IP, 0, 0);
    var c1 := run.states[1];
    BlankFillsIn(c1, ip);
    run := RunExtends(run, Blank(c1, ip).event, 0);
    var c2 := run.states[2];
    ReachableIsGood(run, 2);
    run := RunExtends(run, Polling, 1000);
    PollResends(c2, ip, 1000);
    HandshakeShowsPeer(c1, c2, ip);
  }

  // ---- A slot that gives up on its next listener at once ----

  /** SYN+ACK with the right number establishes the connection. */
  lemma Establishes(c: Conn, ip: Ip, now: nat)
    requires Good(c) && c.state == SynSent && HasPeer(c) && c.sendLen == 0
    ensures var c' := Do(c, ip,
      Arriving(c.remoteIp, Sent(c.remotePort, c.localPort, c.localSeq, SYN_ACK, c.remoteIp, ip)), now);
      c'.state == Established && c'.sendLen == 0 && SameAddress(c, c')
  {
    hide Sent, ParseTcp, Add32, Outgoing, Overwrite;
    SentParses(c.remotePort, c.localPort, c.localSeq, SYN_ACK, c.remoteIp, ip);
  }

  predicate SameAddress(c: Conn, c': Conn) {
    c'.localPort == c.localPort && SamePeer(c, c')
  }

  lemma Closes(c: Conn, ip: Ip, now: nat)
    requires Good(c) && c.state == Established && c.sendLen == 0
    ensures var c' := Do(c, ip, Closing, now);
      c'.state == FinWait1 && c'.retries == 0 && c'.rtoMs == RTO_MS && c'.lastTxTime == now && SameAddress(c, c')
  {
    hide Outgoing, Add32, Overwrite;
    FlagBits();
  }

  /** FIN+ACK ends the wait and leaves the retry count as it is. */
  lemma Finishes(c: Conn, ip: Ip, now: nat)
    requires Good(c) && c.state == FinWait1 && HasPeer(c)
    ensures var c' := Do(c, ip, Arriving(c.remoteIp, Sent(c.remotePort, c.localPort, 0, FIN_ACK, c.remoteIp, ip)), now);
      c'.state == TimeWait && c'.retries == c.retries && c'.lastTxTime == now
  {
    hide Sent, ParseTcp, Add32, Outgoing, Overwrite;
    SentParses(c.remotePort, c.localPort, 0, FIN_ACK, c.remoteIp, ip);
  }

  lemma Expires(c: Conn, ip: Ip, now: nat)
    requires Good(c) && c.state == TimeWait && now >= c.lastTxTime + 60_000
    ensures var c' := Do(c, ip, Polling, now); c'.state == Closed && c'.retries == c.retries
  {
  }

  /** `close` after `connect`, with the FIN resent three times before it is answered. */
  lemma RunToFinWait(ip: Ip, port: U16) returns (run: Run)
    ensures run.Ok() && run.ip == ip && run.times == [0, 0, 0, 1000, 3000, 7000]
    ensures run.events == [Connecting(port, PEER_IP, PEER_PORT),
      Arriving(PEER_IP, Sent(PEER_PORT, port, 1, SYN_ACK, PEER_IP, ip)), Closing, Polling, Polling, Polling]
    ensures var c := run.states[6];
      && c.state == FinWait1 && c.retries == MAX_RETRIES && c.lastTxTime == 7000
      && c.localPort == port && c.remoteIp == PEER_IP && c.remotePort == PEER_PORT
  {
    hide Do, New, Handshake, Sent, Good, Add32;
    FreshOk(ip);
    FreshIsGood();
    run := RunExtends(Fresh(ip), Connecting(port, PEER_IP, PEER_PORT), 0);
    Connects(New([]), ip, port, PEER_IP, PEER_PORT, 0);
    AddOne();
    Establishes(run.states[1], ip, 0);
    run := RunExtends(run, Arriving(PEER_IP, Sent(PEER_PORT, port, 1, SYN_ACK, PEER_IP, ip)), 0);
    ReachableIsGood(run, 2);
    Closes(run.states[2], ip, 0);
    run := RunExtends(run, Closing, 0);
    run := ThreeResends(run, ip);
  }

  lemma AddOne()
    ensures Add32(0 % 0x1_0000_0000, 1) == 1
  {
  }

  lemma ThreeResends(run: Run, ip: Ip) returns (longer: Run)
    requires run.Ok() && run.ip == ip && |run.times| == 3 && run.times[2] == 0
    requires var c := run.states[3]; c.state == FinWait1 && c.retries == 0 && c.rtoMs == RTO_MS && c.lastTxTime == 0
    ensures longer.Ok() && longer.ip == ip && longer.times == run.times + [1000, 3000, 7000]
    ensures longer.events == run.events + [Polling, Polling, Polling]
    ensures var c, c' := run.states[3], longer.states[6];
      c'.state == FinWait1 && c'.retries == MAX_RETRIES && c'.lastTxTime == 7000 && SameAddress(c, c')
  {
    hide Do, New, Handshake, Good;
    ReachableIsGood(run, 3);
    PollResends(run.states[3], ip, 1000);
    longer := RunExtends(run, Polling, 1000);
    ReachableIsGood(longer, 4);
    PollResends(longer.states[4], ip, 3000);
    longer := RunExtends(longer, Polling, 3000);
    ReachableIsGood(longer, 5);
    PollResends(longer.states[5], ip, 7000);
    longer := RunExtends(longer, Polling, 7000);
  }

  /** A run from a fresh slot to a closed one whose count is 3: its next listener gives up on the first poll
      after a SYN. */
  lemma RunGivesUp(ip: Ip, port: U16, newPort: U16) returns (run: Run)
    ensures run.Ok() && run.ip == ip && run.times == [0, 0, 0, 1000, 3000, 7000, 7000, 67000, 67000, 67000, 67000]
    ensures run.events == [Connecting(port, PEER_IP, PEER_PORT),
      Arriving(PEER_IP, Sent(PEER_PORT, port, 1, SYN_ACK, PEER_IP, ip)), Closing, Polling, Polling, Polling,
      Arriving(PEER_IP, Sent(PEER_PORT, port, 0, FIN_ACK, PEER_IP, ip)), Polling,
      Listening(newPort), Arriving(PEER_IP, Sent(PEER_PORT, newPort, 0, SYN, PEER_IP, ip)), Polling]
    ensures run.states[8].state == Closed && run.states[8].retries == MAX_RETRIES
    ensures run.states[10].state == SynReceived && run.states[11].state == Closed
  {
    hide Do, New, Handshake, Sent, Good;
    run := RunToFinWait(ip, port);
    ReachableIsGood(run, 6);
    Finishes(run.states[6], ip, 7000);
    run := RunExtends(run, Arriving(PEER_IP, Sent(PEER_PORT, port, 0, FIN_ACK, PEER_IP, ip)), 7000);
    ReachableIsGood(run, 7);
    Expires(run.states[7], ip, 67000);
    run := RunExtends(run, Polling, 67000);
    ReachableIsGood(run, 8);
    run := NextListener(run, ip, newPort);
  }

  lemma NextListener(run: Run, ip: Ip, port: U16) returns (longer: Run)
    requires run.Ok() && run.ip == ip && |run.times| == 8 && run.times[7] == 67000
    requires Good(run.states[8]) && run.states[8].state == Closed && run.states[8].retries == MAX_RETRIES
    ensures longer.Ok() && longer.ip == ip && longer.times == run.times + [67000, 67000, 67000]
    ensures longer.events ==
      run.events + [Listening(port), Arriving(PEER_IP, Sent(PEER_PORT, port, 0, SYN, PEER_IP, ip)), Polling]
    ensures longer.states[8] == run.states[8] && longer.states[10].state == SynReceived
    ensures longer.states[11].state == Closed
  {
    hide Do, New, Handshake, Sent, Good;
    longer := RunExtends(run, Listening(port), 67000);
    longer := RunExtends(longer, Arriving(PEER_IP, Sent(PEER_PORT, port, 0, SYN, PEER_IP, ip)), 67000);
    longer := RunExtends(longer, Polling, 67000);
    HearsSyn(run.states[8], ip, port, 67000);
  }

  lemma HearsSyn(c: Conn, ip: Ip, port: U16, now: nat)
    requires Good(c) && c.state == Closed && c.retries == MAX_RETRIES
    ensures var heard := Do(Do(c, ip, Listening(port), now), ip,
      Arriving(PEER_IP, Sent(PEER_PORT, port, 0, SYN, PEER_IP, ip)), now);
      heard.state == SynReceived && Do(heard, ip, Polling, now).state == Closed
  {
    hide Sent, ParseTcp, Arrive, DoPoll, DoListen, Has;
    SentParses(PEER_PORT, port, 0, SYN, PEER_IP, ip);
    SynIsSyn();
    ListenerGivesUp(c, ip, port, PEER_IP, Sent(PEER_PORT, port, 0, SYN, PEER_IP, ip), now, now, now);
  }

  lemma SynIsSyn()
    ensures Has(SYN, SYN) && !Has(SYN, RST)
  {
  }
}
