/** One slot of the TCP connection table, as a value that every call turns into the next. */
module Tcp {
  import opened Basics
  import opened Wire
  import opened Segments

  const WINDOW: U16 := 8192
  const RTO_MS: nat := 1000
  const MAX_RETRIES: nat := 3
  const SEND_CAPACITY: nat := 1024
  const RECV_CAPACITY: nat := 4096

  const FIN: Byte := 0x01
  const SYN: Byte := 0x02
  const RST: Byte := 0x04
  const ACK: Byte := 0x10
  const SYN_ACK: Byte := 0x12
  const FIN_ACK: Byte := 0x11
  const PSH_ACK: Byte := 0x18
  const RST_ACK: Byte := 0x14

  const NO_IP: Ip := [0, 0, 0, 0]

  datatype State =
    | Closed | Listen | SynSent | SynReceived | Established
    | FinWait1 | FinWait2 | CloseWait | LastAck | TimeWait

  /** The fields of `TcpConn`. `sent` is everything handed to the network so far for this slot. */
  datatype Conn = Conn(
    state: State, localPort: U16, remoteIp: Ip, remotePort: U16,
    localSeq: U32, remoteSeq: U32, localAck: U32,
    sendBuf: Bytes, sendLen: nat, sendAcked: U32,
    recvBuf: Bytes, recvLen: nat,
    lastTxTime: nat, lastTxSeq: U32, lastTxLen: nat, lastTxFlags: Byte, lastTxPayload: Bytes,
    retries: nat, rtoMs: nat,
    sent: seq<Bytes>)
  {
    predicate Sized() {
      && |sendBuf| == SEND_CAPACITY && sendLen <= SEND_CAPACITY
      && |recvBuf| == RECV_CAPACITY && recvLen <= RECV_CAPACITY
      && |lastTxPayload| == MSS && lastTxLen <= MSS
    }

    /** Bytes received and not yet read. */
    function Unread(): Bytes
      requires Sized()
    {
      recvBuf[..recvLen]
    }
  }

  /** `TcpConn::new`. */
  function New(sent: seq<Bytes>): (c: Conn)
    ensures c.Sized()
  {
    Conn(Closed, 0, NO_IP, 0, 0, 0, 0, Zeros(SEND_CAPACITY), 0, 0, Zeros(RECV_CAPACITY), 0, 0, 0, 0, 0, Zeros(MSS), 0,
      RTO_MS, sent)
  }

  // ---- Words and flags ----

  /** What is left of a number in 32 bits; `WrappedIsRemainder` says that it is the remainder. */
  function Wrapped(x: nat): U32 {
    if x < 0x1_0000_0000 then x else Wrapped(x - 0x1_0000_0000)
  }

  lemma {:induction false} WrappedIsRemainder(x: nat)
    ensures Wrapped(x) == x % 0x1_0000_0000
  {
    if x >= 0x1_0000_0000 {
      WrappedIsRemainder(x - 0x1_0000_0000);
    }
  }

  function Add32(a: U32, n: nat): U32 {
    Wrapped(a + n)
  }

  function Sub32(a: U32, n: nat): U32 {
    (a - n) % 0x1_0000_0000
  }

  /** `seq_lt`: true of equal arguments as well. */
  predicate SeqLt(a: U32, b: U32) {
    Sub32(b, a) < 0x8000_0000
  }

  predicate Has(flags: Byte, bit: Byte)
    requires bit > 0
  {
    flags / bit % 2 == 1
  }

  function Min(a: nat, b: nat): nat {
    if a <= b then a else b
  }

  /** `copy_from_slice` into the front of a buffer. */
  function Overwrite(buf: Bytes, at: nat, data: Bytes): (r: Bytes)
    requires at + |data| <= |buf|
    ensures |r| == |buf|
  {
    buf[..at] + data + buf[at + |data|..]
  }

  /** `copy_within(from..to, 0)`. */
  function MovedDown(buf: Bytes, from: nat, to: nat): (r: Bytes)
    requires from <= to <= |buf|
    ensures |r| == |buf|
  {
    Overwrite(buf, 0, buf[from..to])
  }

  // ---- Sending ----

  const TCP_PROTO: Byte := 6

  /** The packet the connection sends in its present state; `ip` is the configured address. */
  function Outgoing(c: Conn, ip: Ip, flags: Byte, payload: Bytes): Bytes
    requires |payload| <= MSS
  {
    IpHeader(ip, c.remoteIp, TCP_PROTO, HEADER + |payload|)
      + Segment(Fields(c.localPort, c.remotePort, c.localSeq, c.localAck, flags, WINDOW), ip, c.remoteIp, payload)
  }

  function SendRaw(c: Conn, ip: Ip, flags: Byte, payload: Bytes, now: nat): (r: Conn)
    requires c.Sized() && |payload| <= MSS
    ensures r.Sized()
  {
    var noted :=
      if Has(flags, SYN) || Has(flags, FIN) || payload != [] then
        c.(lastTxTime := now, lastTxSeq := c.localSeq, lastTxLen := |payload|, lastTxFlags := flags,
           lastTxPayload := Overwrite(c.lastTxPayload, 0, payload))
      else c;
    noted.(sent := c.sent + [Outgoing(c, ip, flags, payload)])
  }

  function Consumed(flags: Byte, payload: Bytes): nat {
    (if Has(flags, SYN) then 1 else 0) + (if Has(flags, FIN) then 1 else 0) + |payload|
  }

  function Transmit(c: Conn, ip: Ip, flags: Byte, payload: Bytes, now: nat): (r: Conn)
    requires c.Sized() && |payload| <= MSS
    ensures r.Sized()
  {
    SendRaw(c.(localSeq := Add32(c.localSeq, Consumed(flags, payload))), ip, flags, payload, now)
  }

  function Flush(c: Conn, ip: Ip, now: nat): (r: Conn)
    requires c.Sized()
    ensures r.Sized()
  {
    if c.sendLen == 0 then c else Transmit(c, ip, PSH_ACK, c.sendBuf[..Min(c.sendLen, MSS)], now)
  }

  function CheckRetransmit(c: Conn, ip: Ip, now: nat): (r: Conn)
    requires c.Sized()
    ensures r.Sized()
  {
    if c.retries >= MAX_RETRIES then New(SendRaw(c, ip, RST_ACK, [], now).sent)
    else if now - c.lastTxTime >= c.rtoMs then
      SendRaw(c, ip, c.lastTxFlags, c.lastTxPayload[..c.lastTxLen], now).(retries := c.retries + 1,
        rtoMs := c.rtoMs * 2, lastTxTime := now)
    else c
  }

  // ---- Segment handlers ----

  function OnListen(c: Conn, ip: Ip, hdr: TcpHeader, now: nat): (r: Conn)
    requires c.Sized()
    ensures r.Sized()
  {
    if !Has(hdr.flags, SYN) then c
    else Transmit(c.(remoteSeq := Add32(hdr.seqNo, 1), localAck := Add32(hdr.seqNo, 1), state := SynReceived), ip,
      SYN_ACK, [], now)
  }

  function OnSynSent(c: Conn, ip: Ip, hdr: TcpHeader, now: nat): (r: Conn)
    requires c.Sized()
    ensures r.Sized()
  {
    if !Has(hdr.flags, SYN) || !Has(hdr.flags, ACK) || hdr.ackNo != c.localSeq then c
    else
      var up := c.(remoteSeq := Add32(hdr.seqNo, 1), localAck := Add32(hdr.seqNo, 1), state := Established,
        retries := 0, rtoMs := RTO_MS);
      Flush(SendRaw(up, ip, ACK, [], now), ip, now)
  }

  function OnSynReceived(c: Conn, hdr: TcpHeader): (r: Conn)
    requires c.Sized()
    ensures r.Sized()
  {
    if !Has(hdr.flags, ACK) || hdr.ackNo != c.localSeq then c
    else c.(state := Established, retries := 0, rtoMs := RTO_MS)
  }

  /** The acknowledgment part of `handle_established`. */
  function TakeAck(c: Conn, ip: Ip, ackNo: U32, now: nat): (r: Conn)
    requires c.Sized()
    ensures r.Sized()
  {
    var ackedStart := Sub32(c.localSeq, c.sendLen);
    if SeqLt(ackedStart, ackNo) || ackNo == c.localSeq then
      var acked := Min(Sub32(ackNo, ackedStart), c.sendLen);
      var kept := c.(retries := 0, rtoMs := RTO_MS, sendBuf := MovedDown(c.sendBuf, acked, c.sendLen),
                     sendLen := c.sendLen - acked, sendAcked := ackNo);
      Flush(kept, ip, now)
    else c
  }

  /** How much of a payload still fits. */
  function Room(c: Conn, payload: Bytes): (n: nat)
    requires c.Sized()
    ensures n <= |payload|
  {
    Min(|payload|, RECV_CAPACITY - c.recvLen)
  }

  /** Store what fits, and count all of it. */
  function Deliver(c: Conn, payload: Bytes): (r: Conn)
    requires c.Sized()
    ensures r.Sized()
  {
    c.(recvBuf := Overwrite(c.recvBuf, c.recvLen, payload[..Room(c, payload)]), recvLen := c.recvLen + Room(c, payload),
       remoteSeq := Add32(c.remoteSeq, |payload|))
  }

  /** Count the peer's FIN, and acknowledge it. */
  function CountFin(c: Conn, ip: Ip, now: nat): (r: Conn)
    requires c.Sized()
    ensures r.Sized()
  {
    var next := Add32(c.remoteSeq, 1);
    SendRaw(c.(remoteSeq := next, localAck := next), ip, ACK, [], now)
  }

  /** Deliver a payload that is next in the stream, and acknowledge it. */
  function DeliverAndAck(c: Conn, ip: Ip, payload: Bytes, now: nat): (r: Conn)
    requires c.Sized()
    ensures r.Sized()
  {
    var got := Deliver(c, payload);
    SendRaw(got.(localAck := got.remoteSeq), ip, ACK, [], now)
  }

  function OnEstablished(c: Conn, ip: Ip, hdr: TcpHeader, now: nat): (r: Conn)
    requires c.Sized()
    ensures r.Sized()
  {
    var heard := if Has(hdr.flags, ACK) then TakeAck(c, ip, hdr.ackNo, now) else c;
    if hdr.payload != [] && hdr.seqNo != heard.remoteSeq then SendRaw(heard, ip, ACK, [], now)
    else
      var got := if hdr.payload == [] then heard else DeliverAndAck(heard, ip, hdr.payload, now);
      if Has(hdr.flags, FIN) then CountFin(got, ip, now).(state := CloseWait) else got
  }

  /** Data that arrives while closing is stored, but not acknowledged. */
  function LateData(c: Conn, hdr: TcpHeader): (r: Conn)
    requires c.Sized()
    ensures r.Sized()
  {
    if hdr.payload != [] && hdr.seqNo == c.remoteSeq then Deliver(c, hdr.payload) else c
  }

  function OnFinWait1(c: Conn, ip: Ip, hdr: TcpHeader, now: nat): (r: Conn)
    requires c.Sized()
    ensures r.Sized()
  {
    var heard :=
      if !Has(hdr.flags, ACK) then c
      else if Has(hdr.flags, FIN) then CountFin(c, ip, now).(state := TimeWait, lastTxTime := now)
      else c.(state := FinWait2);
    LateData(heard, hdr)
  }

  function OnFinWait2(c: Conn, ip: Ip, hdr: TcpHeader, now: nat): (r: Conn)
    requires c.Sized()
    ensures r.Sized()
  {
    LateData(if Has(hdr.flags, FIN) then CountFin(c, ip, now).(state := TimeWait, lastTxTime := now) else c, hdr)
  }

  function OnCloseWait(c: Conn, ip: Ip, hdr: TcpHeader, now: nat): (r: Conn)
    requires c.Sized()
    ensures r.Sized()
  {
    var got := if hdr.payload != [] && hdr.seqNo == c.remoteSeq then DeliverAndAck(c, ip, hdr.payload, now) else c;
    if Has(hdr.flags, FIN) then SendRaw(got.(localAck := got.remoteSeq), ip, ACK, [], now) else got
  }

  function OnLastAck(c: Conn, hdr: TcpHeader): (r: Conn)
    requires c.Sized()
    ensures r.Sized()
  {
    if Has(hdr.flags, ACK) then c.(state := Closed) else c
  }

  function Process(c: Conn, ip: Ip, hdr: TcpHeader, now: nat): (r: Conn)
    requires c.Sized()
    ensures r.Sized()
  {
    match c.state
    case Listen => OnListen(c, ip, hdr, now)
    case SynSent => OnSynSent(c, ip, hdr, now)
    case SynReceived => OnSynReceived(c, hdr)
    case Established => OnEstablished(c, ip, hdr, now)
    case FinWait1 => OnFinWait1(c, ip, hdr, now)
    case FinWait2 => OnFinWait2(c, ip, hdr, now)
    case CloseWait => OnCloseWait(c, ip, hdr, now)
    case LastAck => OnLastAck(c, hdr)
    case _ => c
  }

  /** `receive` takes a segment to this slot. */
  predicate Matches(c: Conn, srcIp: Ip, hdr: TcpHeader) {
    && c.state != Closed && c.state != TimeWait && c.localPort == hdr.dstPort
    && (c.remoteIp == NO_IP || c.remoteIp == srcIp)
    && (c.remotePort == 0 || c.remotePort == hdr.srcPort)
  }

  function Addressed(c: Conn, srcIp: Ip, hdr: TcpHeader): (r: Conn)
    ensures c.Sized() ==> r.Sized()
  {
    c.(remoteIp := if c.remoteIp == NO_IP then srcIp else c.remoteIp,
       remotePort := if c.remotePort == 0 then hdr.srcPort else c.remotePort)
  }

  function Arrive(c: Conn, ip: Ip, srcIp: Ip, data: Bytes, now: nat): (r: Conn)
    requires c.Sized()
    ensures r.Sized()
  {
    match ParseTcp(data)
    case None => c
    case Some(hdr) =>
      if !Matches(c, srcIp, hdr) then c
      else if Has(hdr.flags, RST) then New(c.sent)
      else Process(Addressed(c, srcIp, hdr), ip, hdr, now)
  }

  // ---- Calls ----

  function DoListen(c: Conn, port: U16, now: nat): (r: Conn)
    requires c.Sized()
    ensures r.Sized()
  {
    if c.state != Closed then c
    else c.(state := Listen, localPort := port, remoteIp := NO_IP, remotePort := 0,
            localSeq := now % 0x1_0000_0000, remoteSeq := 0, localAck := 0)
  }

  function DoConnect(c: Conn, ip: Ip, port: U16, remoteIp: Ip, remotePort: U16, now: nat): (r: Conn)
    requires c.Sized()
    ensures r.Sized()
  {
    if c.state != Closed then c
    else
      Transmit(c.(state := SynSent, localPort := port, remoteIp := remoteIp, remotePort := remotePort,
                  localSeq := now % 0x1_0000_0000, remoteSeq := 0, localAck := 0, retries := 0, rtoMs := RTO_MS),
               ip, SYN, [], now)
  }

  predicate CanSend(c: Conn, data: Bytes) {
    (c.state == Established || c.state == CloseWait) && data != [] && c.sendLen < SEND_CAPACITY
  }

  function DoSend(c: Conn, ip: Ip, data: Bytes, now: nat): (r: Conn)
    requires c.Sized()
    ensures r.Sized()
  {
    if !CanSend(c, data) then c
    else
      var n := Min(|data|, SEND_CAPACITY - c.sendLen);
      Flush(c.(sendBuf := Overwrite(c.sendBuf, c.sendLen, data[..n]), sendLen := c.sendLen + n), ip, now)
  }

  /** What `recv` with room for `n` bytes returns. */
  function Read(c: Conn, n: nat): Bytes
    requires c.Sized()
  {
    c.recvBuf[..Min(c.recvLen, n)]
  }

  function DoRecv(c: Conn, n: nat): (r: Conn)
    requires c.Sized()
    ensures r.Sized()
  {
    var k := Min(c.recvLen, n);
    c.(recvBuf := MovedDown(c.recvBuf, k, c.recvLen), recvLen := c.recvLen - k)
  }

  function DoClose(c: Conn, ip: Ip, now: nat): (r: Conn)
    requires c.Sized()
    ensures r.Sized()
  {
    if c.state == Established then Transmit(Flush(c, ip, now).(state := FinWait1), ip, FIN_ACK, [], now)
    else if c.state == CloseWait then Transmit(c.(state := LastAck), ip, FIN_ACK, [], now)
    else c
  }

  function DoPoll(c: Conn, ip: Ip, now: nat): (r: Conn)
    requires c.Sized()
    ensures r.Sized()
  {
    match c.state
    case SynSent => CheckRetransmit(c, ip, now)
    case SynReceived => CheckRetransmit(c, ip, now)
    case FinWait1 => CheckRetransmit(c, ip, now)
    case LastAck => CheckRetransmit(c, ip, now)
    case Established => Flush(c, ip, now)
    case CloseWait => Flush(c, ip, now)
    case TimeWait => if now - c.lastTxTime >= 60_000 then c.(state := Closed) else c
    case _ => c
  }
}
