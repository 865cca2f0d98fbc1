/** Every run of one connection slot: retransmission, and the stream of received bytes. */
module TcpRuns {
  import opened Basics
  import opened Wire
  import opened Segments
  import opened Tcp

  datatype Event =
    | Listening(port: U16)
    | Connecting(port: U16, remoteIp: Ip, remotePort: U16)
    | Sending(data: Bytes)
    | Receiving(n: nat)
    | Closing
    | Arriving(srcIp: Ip, data: Bytes)
    | Polling

  function Do(c: Conn, ip: Ip, e: Event, now: nat): (r: Conn)
    requires c.Sized()
    ensures r.Sized()
  {
    match e
    case Listening(port) => DoListen(c, port, now)
    case Connecting(port, remoteIp, remotePort) => DoConnect(c, ip, port, remoteIp, remotePort, now)
    case Sending(data) => DoSend(c, ip, data, now)
    case Receiving(n) => DoRecv(c, n)
    case Closing => DoClose(c, ip, now)
    case Arriving(srcIp, data) => Arrive(c, ip, srcIp, data, now)
    case Polling => DoPoll(c, ip, now)
  }

  datatype Run = Run(ip: Ip, states: seq<Conn>, events: seq<Event>, times: seq<nat>) {

    ghost predicate StepAt(i: nat)
      requires |states| == |events| + 1 == |times| + 1 && i < |events|
    {
      states[i].Sized() && states[i + 1] == Do(states[i], ip, events[i], times[i])
    }

    /** Any calls in any order, from a slot never used, on a clock that does not go back. */
    ghost predicate Ok() {
      && |states| == |events| + 1 == |times| + 1
      && states[0] == New([])
      && (forall i :: 0 <= i < |events| ==> StepAt(i))
      && forall i, j :: 0 <= i <= j < |times| ==> times[i] <= times[j]
    }
  }

  // ---- What every reachable state satisfies ----

  /** The retransmission timeout after `retries` retries: it doubles each time. */
  function Timeout(retries: nat): (t: nat)
    ensures t >= RTO_MS
  {
    if retries == 0 then RTO_MS else 2 * Timeout(retries - 1)
  }

  /** The states in which a SYN or FIN is on its way, and its flags. */
  predicate InFlight(s: State) {
    s == SynSent || s == SynReceived || s == FinWait1 || s == LastAck
  }

  function FlagsOf(s: State): Byte {
    if s == SynSent then SYN else if s == SynReceived then SYN_ACK else FIN_ACK
  }

  /** Whatever is to be resent is the SYN or FIN: no payload, and the present sequence number. */
  predicate ResendsHandshake(c: Conn) {
    InFlight(c.state) ==> c.lastTxSeq == c.localSeq && c.lastTxLen == 0 && c.lastTxFlags == FlagsOf(c.state)
  }

  predicate Good(c: Conn) {
    && c.Sized() && c.retries <= MAX_RETRIES && c.rtoMs == Timeout(c.retries)
    && (c.state == Established || c.state == CloseWait ==> c.retries == 0)
    && (c.state == SynReceived || c.state == Established || c.state == CloseWait || c.state == LastAck ==>
      c.localAck == c.remoteSeq)
    && ResendsHandshake(c)
  }

  lemma FlagBits()
    ensures Has(SYN, SYN) && !Has(SYN, FIN) && Has(SYN_ACK, SYN) && !Has(SYN_ACK, FIN) && !Has(FIN_ACK, SYN)
    ensures Has(FIN_ACK, FIN)
    ensures !Has(ACK, SYN) && !Has(ACK, FIN) && !Has(PSH_ACK, SYN) && !Has(PSH_ACK, FIN) && !Has(RST_ACK, SYN)
    ensures !Has(RST_ACK, FIN)
  {
  }

  lemma FlushKeepsGood(c: Conn, ip: Ip, now: nat)
    requires Good(c) && !InFlight(c.state)
    ensures Good(Flush(c, ip, now)) && Flush(c, ip, now).state == c.state
  {
  }

  lemma TakeAckKeepsGood(c: Conn, ip: Ip, ackNo: U32, now: nat)
    requires Good(c) && c.state == Established
    ensures Good(TakeAck(c, ip, ackNo, now))
  {
  }

  lemma RetransmitKeepsGood(c: Conn, ip: Ip, now: nat)
    requires Good(c) && InFlight(c.state)
    ensures Good(CheckRetransmit(c, ip, now))
  {
    hide Outgoing, Overwrite, Has;
    FlagBits();
  }

  lemma ProcessKeepsGood(c: Conn, ip: Ip, hdr: TcpHeader, now: nat)
    requires Good(c)
    ensures Good(Process(c, ip, hdr, now))
  {
    hide Outgoing, Overwrite, Add32, Sub32, Has;
    FlagBits();
    if c.state == Established && Has(hdr.flags, ACK) {
      TakeAckKeepsGood(c, ip, hdr.ackNo, now);
    }
  }

  lemma DoKeepsGood(c: Conn, ip: Ip, e: Event, now: nat)
    requires Good(c)
    ensures Good(Do(c, ip, e, now))
  {
    hide Outgoing, Overwrite, Add32, Sub32, Has, ParseTcp, Process;
    FlagBits();
    match e {
      case Arriving(srcIp, data) =>
        var hdr := ParseTcp(data);
        if hdr.Some? {
          ProcessKeepsGood(Addressed(c, srcIp, hdr.value), ip, hdr.value, now);
        }
      case Closing =>
        if c.state == Established {
          FlushKeepsGood(c, ip, now);
        }
      case Polling =>
        if InFlight(c.state) {
          RetransmitKeepsGood(c, ip, now);
        } else {
          FlushKeepsGood(c, ip, now);
        }
      case _ =>
    }
  }

  /** In every reachable state at most 3 retries have been made, the timeout is 1000 * 2^retries, and
      a resend in a state that waits for a SYN or FIN to be acknowledged carries that SYN or FIN. */
  lemma {:induction false} ReachableIsGood(run: Run, i: nat)
    requires run.Ok() && i < |run.states|
    ensures Good(run.states[i])
    decreases i
  {
    hide Do;
    if i > 0 {
      ReachableIsGood(run, i - 1);
      assert run.StepAt(i - 1);
      DoKeepsGood(run.states[i - 1], run.ip, run.events[i - 1], run.times[i - 1]);
    }
  }

  // ---- Retransmission ----

  /** The SYN or FIN that a state waits to have acknowledged. */
  function Handshake(c: Conn, ip: Ip): Bytes {
    Outgoing(c, ip, FlagsOf(c.state), [])
  }

  predicate SamePeer(c: Conn, c': Conn) {
    c'.remoteIp == c.remoteIp && c'.remotePort == c.remotePort
  }

  /** Everything that goes into the SYN or FIN is the same, but for the peer. */
  predicate SameButPeer(c: Conn, c': Conn) {
    c'.state == c.state && c'.localPort == c.localPort && c'.localSeq == c.localSeq && c'.localAck == c.localAck
  }

  lemma PeerInPacket(c: Conn, ip: Ip)
    ensures Handshake(c, ip)[16..20] == c.remoteIp
    ensures Be16(Handshake(c, ip)[22], Handshake(c, ip)[23]) == c.remotePort
  {
    hide Fold, SumWords, Hi, Lo, Hi16, Lo16, TotalLen;
    Joined16(c.remotePort);
  }

  /** The SYN or FIN is the same, byte for byte, exactly when the peer is. */
  lemma HandshakeShowsPeer(c: Conn, c': Conn, ip: Ip)
    requires SameButPeer(c, c')
    ensures Handshake(c', ip) == Handshake(c, ip) <==> SamePeer(c, c')
  {
    hide IpHeader, Segment;
    if Handshake(c', ip) == Handshake(c, ip) {
      PeerInPacket(c, ip);
      PeerInPacket(c', ip);
    }
  }

  predicate HasPeer(c: Conn) {
    c.remoteIp != NO_IP && c.remotePort != 0
  }

  function Repeat(p: Bytes, n: nat): seq<Bytes> {
    seq(n, _ => p)
  }

  /** A part of the peer's address that is known stays; one that is missing may be filled in. */
  predicate Filled(c: Conn, c': Conn) {
    (c.remoteIp != NO_IP ==> c'.remoteIp == c.remoteIp) && (c.remotePort != 0 ==> c'.remotePort == c.remotePort)
  }

  /** What one call may do while the state waits: send nothing, or one resend once the timeout has passed. */
  ghost predicate Waited(c: Conn, c': Conn, ip: Ip, now: nat) {
    && SameButPeer(c, c') && Filled(c, c')
    && ((c'.sent == c.sent && c'.retries == c.retries && c'.lastTxTime == c.lastTxTime)
        || (SamePeer(c, c') && c'.sent == c.sent + [Handshake(c, ip)] && c'.retries == c.retries + 1
            && c'.lastTxTime == now >= c.lastTxTime + Timeout(c.retries)))
  }

  lemma RetransmitWaits(c: Conn, ip: Ip, now: nat)
    requires Good(c) && InFlight(c.state) && CheckRetransmit(c, ip, now).state == c.state
    ensures Waited(c, CheckRetransmit(c, ip, now), ip, now)
  {
    hide IpHeader, Segment;
    assert c.lastTxPayload[..c.lastTxLen] == [];
  }

  lemma ArrivalWaits(c: Conn, ip: Ip, srcIp: Ip, data: Bytes, now: nat)
    requires Good(c) && InFlight(c.state) && Arrive(c, ip, srcIp, data, now).state == c.state
    ensures Waited(c, Arrive(c, ip, srcIp, data, now), ip, now)
  {
    hide Handshake, ParseTcp, Overwrite, Add32, Has, Transmit, SendRaw;
    var hdr := ParseTcp(data);
    if hdr.Some? && Matches(c, srcIp, hdr.value) && !Has(hdr.value.flags, RST) {
      ProcessIsQuiet(Addressed(c, srcIp, hdr.value), ip, hdr.value, now);
    }
  }

  lemma ProcessIsQuiet(c: Conn, ip: Ip, hdr: TcpHeader, now: nat)
    requires Good(c) && InFlight(c.state) && Process(c, ip, hdr, now).state == c.state
    ensures var c' := Process(c, ip, hdr, now);
      && SameButPeer(c, c') && SamePeer(c, c') && c'.sent == c.sent && c'.retries == c.retries
      && c'.lastTxTime == c.lastTxTime
  {
    hide Overwrite, Add32, Has, Outgoing;
  }

  lemma StepWaits(c: Conn, ip: Ip, e: Event, now: nat)
    requires Good(c) && InFlight(c.state) && Do(c, ip, e, now).state == c.state
    ensures Waited(c, Do(c, ip, e, now), ip, now)
  {
    hide Outgoing, Overwrite, Add32, Has, CheckRetransmit, Arrive;
    match e {
      case Arriving(srcIp, data) => ArrivalWaits(c, ip, srcIp, data, now);
      case Polling => RetransmitWaits(c, ip, now);
      case _ =>
    }
  }

  /** Entering such a state sends its SYN or FIN last. */
  lemma EntrySends(c: Conn, ip: Ip, e: Event, now: nat)
    requires Good(c)
    ensures var c' := Do(c, ip, e, now);
      InFlight(c'.state) && c'.state != c.state ==> c'.sent != [] && c'.sent[|c'.sent| - 1] == Handshake(c', ip)
  {
    hide Outgoing, ParseTcp, Overwrite, Add32, Sub32, Process, CheckRetransmit;
    FlagBits();
    match e {
      case Arriving(srcIp, data) =>
        var hdr := ParseTcp(data);
        if hdr.Some? {
          ProcessSends(Addressed(c, srcIp, hdr.value), ip, hdr.value, now);
        }
      case Polling =>
        if InFlight(c.state) {
          PollStays(c, ip, now);
        }
      case Connecting(port, remoteIp, remotePort) =>
        if c.state == Closed {
          TransmitSends(c.(state := SynSent, localPort := port, remoteIp := remoteIp, remotePort := remotePort,
            localSeq := now % 0x1_0000_0000, remoteSeq := 0, localAck := 0, retries := 0, rtoMs := RTO_MS),
            ip, SYN, now);
        }
      case Closing =>
        if c.state == Established {
          TransmitSends(Flush(c, ip, now).(state := FinWait1), ip, FIN_ACK, now);
        } else if c.state == CloseWait {
          TransmitSends(c.(state := LastAck), ip, FIN_ACK, now);
        }
      case _ =>
    }
  }

  lemma PollStays(c: Conn, ip: Ip, now: nat)
    requires c.Sized()
    ensures CheckRetransmit(c, ip, now).state == c.state || CheckRetransmit(c, ip, now).state == Closed
  {
    hide Outgoing, Overwrite;
  }

  lemma ProcessSends(c: Conn, ip: Ip, hdr: TcpHeader, now: nat)
    requires Good(c)
    ensures var c' := Process(c, ip, hdr, now);
      InFlight(c'.state) && c'.state != c.state ==> c'.sent != [] && c'.sent[|c'.sent| - 1] == Handshake(c', ip)
  {
    hide Outgoing, Overwrite, Add32, Sub32, Has;
    if c.state == Listen && Has(hdr.flags, SYN) {
      var up := c.(remoteSeq := Add32(hdr.seqNo, 1), localAck := Add32(hdr.seqNo, 1), state := SynReceived);
      TransmitSends(up, ip, SYN_ACK, now);
    }
  }

  lemma TransmitSends(c: Conn, ip: Ip, flags: Byte, now: nat)
    requires c.Sized()
    ensures var c' := Transmit(c, ip, flags, [], now);
      c'.state == c.state && c'.sent == c.sent + [Outgoing(c', ip, flags, [])]
  {
    hide IpHeader, Segment, Overwrite, Add32;
  }

  /** The states from `i` to `j` wait for the same SYN or FIN to be acknowledged. */
  ghost predicate Waits(run: Run, i: nat, j: nat) {
    && run.Ok() && i <= j < |run.states| && InFlight(run.states[i].state)
    && forall k :: i <= k <= j ==> run.states[k].state == run.states[i].state
  }

  ghost predicate Resent(run: Run, k: nat)
    requires k + 1 < |run.states|
  {
    run.states[k + 1].retries > run.states[k].retries
  }

  /** Whatever is resent goes to the peer of state `i`. */
  ghost predicate Steady(run: Run, i: nat, j: nat)
    requires i <= j < |run.states|
  {
    forall k :: i <= k < j && Resent(run, k) ==> SamePeer(run.states[i], run.states[k])
  }

  /** All that was sent between the two states is copies of one SYN or FIN. */
  ghost predicate Copies(run: Run, i: nat, j: nat)
    requires i <= j < |run.states|
  {
    var a, b := run.states[i], run.states[j];
    a.retries <= b.retries && b.sent == a.sent + Repeat(Handshake(a, run.ip), b.retries - a.retries)
  }

  lemma {:induction false} ResendsSoFar(run: Run, i: nat, j: nat)
    requires Waits(run, i, j)
    ensures var a, b := run.states[i], run.states[j];
      && a.retries <= b.retries <= MAX_RETRIES && |b.sent| == |a.sent| + b.retries - a.retries
      && b.lastTxTime >= a.lastTxTime + Timeout(b.retries) - Timeout(a.retries)
      && SameButPeer(a, b) && Filled(a, b) && (Copies(run, i, j) <==> Steady(run, i, j))
    decreases j
  {
    hide Handshake, Timeout, New, Do, Good, InFlight, Copies, Steady, Resent;
    GoodBounds(run, j);
    NothingResent(run, i);
    if i < j {
      ResendsSoFar(run, i, j - 1);
      ReachableIsGood(run, j - 1);
      assert run.StepAt(j - 1);
      StepWaits(run.states[j - 1], run.ip, run.events[j - 1], run.times[j - 1]);
      TimeoutDoubles(run.states[j - 1].retries);
      SteadyStep(run, i, j);
      CopiesStep(run, i, j);
    }
  }

  lemma NothingResent(run: Run, i: nat)
    requires i < |run.states|
    ensures Copies(run, i, i) && Steady(run, i, i)
  {
    hide Handshake;
  }

  lemma GoodBounds(run: Run, j: nat)
    requires run.Ok() && j < |run.states|
    ensures run.states[j].retries <= MAX_RETRIES
  {
    hide Do;
    ReachableIsGood(run, j);
  }

  lemma SteadyStep(run: Run, i: nat, j: nat)
    requires i < j < |run.states|
    ensures Steady(run, i, j) <==>
      Steady(run, i, j - 1) && (Resent(run, j - 1) ==> SamePeer(run.states[i], run.states[j - 1]))
  {
  }

  lemma CopiesStep(run: Run, i: nat, j: nat)
    requires i < j < |run.states| && |run.times| >= j && run.states[i].retries <= run.states[j - 1].retries
    requires |run.states[j - 1].sent| == |run.states[i].sent| + run.states[j - 1].retries - run.states[i].retries
    requires SameButPeer(run.states[i], run.states[j - 1])
    requires Waited(run.states[j - 1], run.states[j], run.ip, run.times[j - 1])
    ensures Copies(run, i, j) <==>
      Copies(run, i, j - 1) && (Resent(run, j - 1) ==> SamePeer(run.states[i], run.states[j - 1]))
  {
    hide Handshake, Timeout;
    var a, c, b := run.states[i], run.states[j - 1], run.states[j];
    HandshakeShowsPeer(a, c, run.ip);
    if Resent(run, j - 1) {
      OneMore(a.sent, Handshake(a, run.ip), c.retries - a.retries);
      LastDecides(c.sent, Handshake(c, run.ip), a.sent + Repeat(Handshake(a, run.ip), c.retries - a.retries),
        Handshake(a, run.ip));
    }
  }

  lemma LastDecides(s: seq<Bytes>, x: Bytes, t: seq<Bytes>, y: Bytes)
    requires |s| == |t|
    ensures s + [x] == t + [y] <==> s == t && x == y
  {
    if s + [x] == t + [y] {
      assert (s + [x])[..|s|] == s && (t + [y])[..|t|] == t;
      assert (s + [x])[|s|] == x && (t + [y])[|t|] == y;
    }
  }

  lemma TimeoutDoubles(retries: nat)
    ensures Timeout(retries + 1) == 2 * Timeout(retries)
  {
  }

  lemma OneMore(sent: seq<Bytes>, p: Bytes, n: nat)
    ensures sent + Repeat(p, n) + [p] == sent + Repeat(p, n + 1)
  {
  }

  /** From the moment a SYN or FIN is first sent until the state changes, at most 3 packets are sent, and copy
      k leaves no sooner than 1000 * (2^k - 1) ms after the first when no retry is left over from before. All
      of them are copies of the first, byte for byte, exactly when none is resent after an arrival filled in a
      missing part of the peer's address; with a known peer they always are. */
  lemma ResendsAreIdentical(run: Run, i: nat, j: nat)
    requires Waits(run, i, j) && i > 0 && run.states[i - 1].state != run.states[i].state
    ensures var a, b := run.states[i], run.states[j];
      && a.sent != [] && a.retries <= b.retries <= MAX_RETRIES && |b.sent| == |a.sent| + b.retries - a.retries
      && b.lastTxTime >= a.lastTxTime + Timeout(b.retries) - Timeout(a.retries)
      && (b.sent == a.sent + Repeat(a.sent[|a.sent| - 1], b.retries - a.retries) <==> Steady(run, i, j))
      && (HasPeer(a) ==> Steady(run, i, j))
  {
    hide Do, Outgoing, Timeout, New;
    ReachableIsGood(run, i - 1);
    assert run.StepAt(i - 1);
    EntrySends(run.states[i - 1], run.ip, run.events[i - 1], run.times[i - 1]);
    ResendsSoFar(run, i, j);
    if HasPeer(run.states[i]) {
      forall k | i <= k < j ensures SamePeer(run.states[i], run.states[k]) {
        ResendsSoFar(run, i, k);
      }
    }
  }

  /** A slot with no peer yet takes the peer of the first segment that arrives; that is the one way in
      which an arrival changes what will be resent. */
  lemma ArrivalKeepsHandshake(c: Conn, ip: Ip, srcIp: Ip, hdr: TcpHeader)
    requires Matches(c, srcIp, hdr)
    ensures Handshake(Addressed(c, srcIp, hdr), ip) == Handshake(c, ip) <==>
      (c.remoteIp == NO_IP ==> srcIp == NO_IP) && (c.remotePort == 0 ==> hdr.srcPort == 0)
  {
    hide Handshake;
    HandshakeShowsPeer(c, Addressed(c, srcIp, hdr), ip);
  }

  /** `listen` keeps the slot's old retry count, so the first poll after a SYN may already give up. */
  lemma ListenerGivesUp(c: Conn, ip: Ip, port: U16, srcIp: Ip, data: Bytes, t0: nat, t1: nat, t2: nat)
    requires Good(c) && c.state == Closed && ParseTcp(data).Some? && ParseTcp(data).value.dstPort == port
    requires Has(ParseTcp(data).value.flags, SYN) && !Has(ParseTcp(data).value.flags, RST)
    ensures var heard := Arrive(DoListen(c, port, t0), ip, srcIp, data, t1);
      heard.state == SynReceived && (DoPoll(heard, ip, t2).state == Closed <==> c.retries == MAX_RETRIES)
  {
    hide Outgoing, Overwrite, Add32, Has, ParseTcp;
  }

  // ---- The received stream ----

  /** The payload that a call takes as the next piece of the stream. */
  function Piece(c: Conn, e: Event): Bytes {
    match e
    case Arriving(srcIp, data) =>
      (match ParseTcp(data)
       case Some(hdr) => if Matches(c, srcIp, hdr) && hdr.seqNo == c.remoteSeq then hdr.payload else []
       case None => [])
    case _ => []
  }

  /** What a call hands to the reader. */
  function Handed(c: Conn, e: Event): Bytes
    requires c.Sized()
  {
    match e
    case Receiving(n) => Read(c, n)
    case _ => []
  }

  /** A segment for this slot is cut from the peer's stream, which starts at sequence number `base`;
      it may be lost, repeated or out of order, but bears no FIN. */
  ghost predicate CutFrom(c: Conn, e: Event, stream: Bytes, base: U32) {
    e.Arriving? ==>
      var hdr := ParseTcp(e.data);
      hdr.Some? && Matches(c, e.srcIp, hdr.value) ==>
        && !Has(hdr.value.flags, FIN)
        && exists off: nat :: Slice(stream, base, hdr.value, off)
  }

  ghost predicate Slice(stream: Bytes, base: U32, hdr: TcpHeader, off: nat) {
    && off + |hdr.payload| <= |stream| && hdr.seqNo == Add32(base, off)
    && hdr.payload == stream[off..off + |hdr.payload|]
  }

  /** From state `i` to state `j` the connection is established, and all it hears is cut from `stream`. */
  ghost predicate Streams(run: Run, i: nat, j: nat, stream: Bytes) {
    && run.Ok() && i <= j < |run.states| && |stream| < 0x1_0000_0000
    && (forall k :: i <= k <= j ==> run.states[k].state == Established)
    && forall k :: i <= k < j ==> CutFrom(run.states[k], run.events[k], stream, run.states[i].remoteSeq)
  }

  ghost function Got(run: Run, i: nat, j: nat): Bytes
    requires run.Ok() && i <= j < |run.states|
    decreases j
  {
    if i == j then [] else assert run.StepAt(j - 1); Got(run, i, j - 1) + Handed(run.states[j - 1], run.events[j - 1])
  }

  ghost function Taken(run: Run, i: nat, j: nat): nat
    requires run.Ok() && i <= j < |run.states|
    decreases j
  {
    if i == j then 0 else Taken(run, i, j - 1) + |Piece(run.states[j - 1], run.events[j - 1])|
  }

  /** Bytes of a piece for which the buffer had no room. */
  function Cut(c: Conn, e: Event): nat
    requires c.Sized()
  {
    |Piece(c, e)| - Room(c, Piece(c, e))
  }

  ghost function Lost(run: Run, i: nat, j: nat): nat
    requires run.Ok() && i <= j < |run.states|
    decreases j
  {
    if i == j then 0 else assert run.StepAt(j - 1); Lost(run, i, j - 1) + Cut(run.states[j - 1], run.events[j - 1])
  }

  /** What one call does to the stream. */
  ghost predicate Streamed(c: Conn, c': Conn, e: Event)
    requires c.Sized() && c'.Sized()
  {
    var piece := Piece(c, e);
    && c'.remoteSeq == Add32(c.remoteSeq, |piece|)
    && Handed(c, e) + c'.Unread() == c.Unread() + piece[..Room(c, piece)]
  }

  lemma Delivers(c: Conn, payload: Bytes)
    requires c.Sized()
    ensures Deliver(c, payload).Unread() == c.Unread() + payload[..Room(c, payload)]
  {
  }

  /** Acknowledging and sending leave the receiving side alone. */
  lemma HearingKeepsBuffer(c: Conn, ip: Ip, hdr: TcpHeader, now: nat)
    requires c.Sized()
    ensures var heard := if Has(hdr.flags, ACK) then TakeAck(c, ip, hdr.ackNo, now) else c;
      heard.recvBuf == c.recvBuf && heard.recvLen == c.recvLen && heard.remoteSeq == c.remoteSeq
        && heard.state == c.state
  {
    hide Outgoing, Has, Overwrite, MovedDown, Sub32, Add32;
  }

  lemma EstablishedStreams(c: Conn, ip: Ip, hdr: TcpHeader, now: nat)
    requires c.Sized() && c.state == Established && OnEstablished(c, ip, hdr, now).state == Established
    ensures var p, r := if hdr.seqNo == c.remoteSeq then hdr.payload else [], OnEstablished(c, ip, hdr, now);
      r.remoteSeq == Add32(c.remoteSeq, |p|) && r.Unread() == c.Unread() + p[..Room(c, p)]
  {
    hide Outgoing, Has, Overwrite, TakeAck, Add32, InFlight;
    HearingKeepsBuffer(c, ip, hdr, now);
    AddNothing(c.remoteSeq);
    Delivers(if Has(hdr.flags, ACK) then TakeAck(c, ip, hdr.ackNo, now) else c, hdr.payload);
    FlagBits();
  }

  lemma AddNothing(a: U32)
    ensures Add32(a, 0) == a
  {
  }

  lemma ArrivalStreams(c: Conn, ip: Ip, srcIp: Ip, data: Bytes, now: nat)
    requires Good(c) && c.state == Established && Arrive(c, ip, srcIp, data, now).state == Established
    ensures Streamed(c, Arrive(c, ip, srcIp, data, now), Arriving(srcIp, data))
  {
    hide Outgoing, ParseTcp, Has, OnEstablished, Add32;
    var hdr := ParseTcp(data);
    AddNothing(c.remoteSeq);
    if hdr.Some? && Matches(c, srcIp, hdr.value) && !Has(hdr.value.flags, RST) {
      EstablishedStreams(Addressed(c, srcIp, hdr.value), ip, hdr.value, now);
    }
  }

  lemma CallStreams(c: Conn, ip: Ip, e: Event, now: nat)
    requires Good(c) && c.state == Established && Do(c, ip, e, now).state == Established
    ensures Streamed(c, Do(c, ip, e, now), e)
  {
    hide Outgoing, Sub32, Arrive;
    assert Add32(c.remoteSeq, 0) == c.remoteSeq;
    match e {
      case Arriving(srcIp, data) => ArrivalStreams(c, ip, srcIp, data, now);
      case Receiving(n) => ReadsFront(c, n);
      case _ =>
    }
  }

  lemma ReadsFront(c: Conn, n: nat)
    requires c.Sized()
    ensures Read(c, n) + DoRecv(c, n).Unread() == c.Unread()
  {
  }

  /** Sequence numbers tell positions in a stream shorter than 2^32 apart. */
  lemma SameOffset(base: U32, a: nat, b: nat)
    requires a < 0x1_0000_0000 && b < 0x1_0000_0000 && Add32(base, a) == Add32(base, b)
    ensures a == b
  {
    WrapsOnce(base + a);
    WrapsOnce(base + b);
  }

  lemma WrapsOnce(x: nat)
    requires x < 0x2_0000_0000
    ensures Wrapped(x) == if x < 0x1_0000_0000 then x else x - 0x1_0000_0000
  {
  }

  lemma PieceIsNext(c: Conn, e: Event, stream: Bytes, base: U32, taken: nat)
    requires taken <= |stream| < 0x1_0000_0000 && c.remoteSeq == Add32(base, taken) && CutFrom(c, e, stream, base)
    ensures var piece := Piece(c, e); taken + |piece| <= |stream| && piece == stream[taken..taken + |piece|]
  {
    hide ParseTcp, Has, Add32;
    if Piece(c, e) != [] {
      var hdr := ParseTcp(e.data).value;
      var off: nat :| Slice(stream, base, hdr, off);
      SameOffset(base, off, taken);
    }
  }

  lemma AddTwice(base: U32, a: nat, b: nat)
    ensures Add32(Add32(base, a), b) == Add32(base, a + b)
  {
    WrappedTwice(base + a, b);
  }

  lemma {:induction false} WrappedTwice(x: nat, b: nat)
    ensures Wrapped(Wrapped(x) + b) == Wrapped(x + b)
  {
    if x >= 0x1_0000_0000 {
      WrappedTwice(x - 0x1_0000_0000, b);
    }
  }

  /** The reader's view of the stream: `before` waited at the start, `got` was read since, `unread` waits. */
  ghost predicate InStream(before: Bytes, got: Bytes, unread: Bytes, base: U32, remoteSeq: U32, stream: Bytes,
      taken: nat, lost: nat)
  {
    && taken <= |stream| && remoteSeq == Add32(base, taken)
    && |got + unread| + lost == |before| + taken
    && (lost == 0 ==> got + unread == before + stream[..taken])
  }

  lemma StaysInStream(c: Conn, c': Conn, e: Event, before: Bytes, got: Bytes, base: U32, stream: Bytes, taken: nat,
      lost: nat)
    requires c.Sized() && c'.Sized() && |stream| < 0x1_0000_0000
    requires InStream(before, got, c.Unread(), base, c.remoteSeq, stream, taken, lost)
    requires Streamed(c, c', e) && CutFrom(c, e, stream, base)
    ensures InStream(before, got + Handed(c, e), c'.Unread(), base, c'.remoteSeq, stream, taken + |Piece(c, e)|,
      lost + Cut(c, e))
  {
    hide Piece, Handed, CutFrom, Room, Add32;
    PieceIsNext(c, e, stream, base, taken);
    AddTwice(base, taken, |Piece(c, e)|);
    OnePieceMore(before, got, c.Unread(), c'.Unread(), Handed(c, e), Piece(c, e), Room(c, Piece(c, e)), stream,
      taken, lost);
  }

  ghost predicate InStreamAt(run: Run, i: nat, j: nat, stream: Bytes)
    requires run.Ok() && i <= j < |run.states| && run.states[i].Sized() && run.states[j].Sized()
  {
    var a, b := run.states[i], run.states[j];
    InStream(a.Unread(), Got(run, i, j), b.Unread(), a.remoteSeq, b.remoteSeq, stream, Taken(run, i, j),
      Lost(run, i, j))
  }

  lemma {:induction false} StreamSoFar(run: Run, i: nat, j: nat, stream: Bytes)
    requires Streams(run, i, j, stream)
    ensures run.states[i].Sized() && run.states[j].Sized() && InStreamAt(run, i, j, stream)
    decreases j
  {
    hide Do, CutFrom, InStreamAt;
    ReachableIsGood(run, i);
    ReachableIsGood(run, j);
    if i == j {
      StreamStarts(run, i, stream);
    } else {
      StreamSoFar(run, i, j - 1, stream);
      ReachableIsGood(run, j - 1);
      StreamGoesOn(run, i, j, stream);
    }
  }

  lemma StreamGoesOn(run: Run, i: nat, j: nat, stream: Bytes)
    requires Streams(run, i, j, stream) && i < j && Good(run.states[i]) && Good(run.states[j - 1])
    requires Good(run.states[j])
    requires InStreamAt(run, i, j - 1, stream)
    ensures InStreamAt(run, i, j, stream)
  {
    hide Do, InStream, Piece, Handed, Cut, CutFrom, Streamed, Timeout;
    assert run.StepAt(j - 1);
    var a, b, c, e := run.states[i], run.states[j], run.states[j - 1], run.events[j - 1];
    CallStreams(c, run.ip, e, run.times[j - 1]);
    assert CutFrom(c, e, stream, a.remoteSeq);
    StaysInStream(c, b, e, a.Unread(), Got(run, i, j - 1), a.remoteSeq, stream, Taken(run, i, j - 1),
      Lost(run, i, j - 1));
  }

  lemma StreamStarts(run: Run, i: nat, stream: Bytes)
    requires run.Ok() && i < |run.states| && run.states[i].Sized()
    ensures InStreamAt(run, i, i, stream)
  {
    assert Add32(run.states[i].remoteSeq, 0) == run.states[i].remoteSeq;
  }

  lemma OnePieceMore(before: Bytes, got: Bytes, unread: Bytes, unread': Bytes, handed: Bytes, piece: Bytes, room: nat,
                     stream: Bytes, taken: nat, lost: nat)
    requires room <= |piece| && handed + unread' == unread + piece[..room]
    requires taken + |piece| <= |stream| && piece == stream[taken..taken + |piece|]
    requires |got + unread| + lost == |before| + taken
    requires lost == 0 ==> got + unread == before + stream[..taken]
    ensures |got + handed + unread'| + lost + |piece| - room == |before| + taken + |piece|
    ensures lost == 0 && room == |piece| ==> got + handed + unread' == before + stream[..taken + |piece|]
  {
    assert got + handed + unread' == got + (handed + unread');
    assert got + (unread + piece[..room]) == (got + unread) + piece[..room];
    assert |handed + unread'| == |handed| + |unread'|;
    if lost == 0 && room == |piece| {
      assert piece[..room] == piece;
      assert before + stream[..taken] + piece == before + stream[..taken + |piece|];
    }
  }

  /** However the network loses, repeats and reorders segments: what the reader got, followed by what
      waits in the buffer, is what waited at the start followed by the peer's stream up to the sequence
      number acknowledged, if and only if every piece taken fitted the buffer. */
  lemma ReaderSeesStream(run: Run, i: nat, j: nat, stream: Bytes)
    requires Streams(run, i, j, stream)
    ensures run.states[i].Sized() && run.states[j].Sized()
    ensures var a, b, taken := run.states[i], run.states[j], Taken(run, i, j);
      && taken <= |stream| && b.localAck == b.remoteSeq == Add32(a.remoteSeq, taken)
      && (Got(run, i, j) + b.Unread() == a.Unread() + stream[..taken] <==> Lost(run, i, j) == 0)
  {
    StreamSoFar(run, i, j, stream);
    ReachableIsGood(run, j);
    var a, b, taken := run.states[i], run.states[j], Taken(run, i, j);
    if Got(run, i, j) + b.Unread() == a.Unread() + stream[..taken] {
      assert |a.Unread() + stream[..taken]| == |a.Unread()| + taken;
    }
  }

  /** In particular, nothing waiting at the start and no overflow: the peer's stream, exactly. */
  lemma ReaderSeesStreamFromStart(run: Run, i: nat, j: nat, stream: Bytes)
    requires Streams(run, i, j, stream) && run.states[i].recvLen == 0 && Lost(run, i, j) == 0
    ensures run.states[j].Sized() && Taken(run, i, j) <= |stream|
    ensures Got(run, i, j) + run.states[j].Unread() == stream[..Taken(run, i, j)]
  {
    ReaderSeesStream(run, i, j, stream);
    assert run.states[i].Unread() == [];
  }
}
