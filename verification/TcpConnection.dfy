/** The connection as the kernel keeps it: fields and fixed buffers changed in place. */
module TcpConnection {
  import opened Basics
  import opened Wire
  import opened Segments
  import Tcp

  /** `copy_from_slice` into `a[at..]`. */
  method Store(a: array<Byte>, at: nat, data: Bytes)
    requires at + |data| <= a.Length
    modifies a
    ensures a[..] == Tcp.Overwrite(old(a[..]), at, data)
  {
    Put(a, at, data);
  }

  /** `copy_within(from..to, 0)`. */
  method MoveDown(a: array<Byte>, from: nat, to: nat)
    requires from <= to <= a.Length
    modifies a
    ensures a[..] == Tcp.MovedDown(old(a[..]), from, to)
  {
    for i := 0 to to - from
      invariant forall k :: 0 <= k < i ==> a[k] == old(a[from + k])
      invariant forall k :: i <= k < a.Length ==> a[k] == old(a[k])
    {
      a[i] := a[from + i];
    }
  }

  method Clear(a: array<Byte>)
    modifies a
    ensures a[..] == Zeros(a.Length)
  {
    for i := 0 to a.Length
      invariant forall k :: 0 <= k < i ==> a[k] == 0
    {
      a[i] := 0;
    }
  }

  lemma MovedNowhere(buf: Bytes, to: nat)
    requires to <= |buf|
    ensures Tcp.MovedDown(buf, 0, to) == buf == Tcp.MovedDown(buf, to, to)
  {
  }

  class TcpConn {
    var state: Tcp.State
    var localPort: U16
    var remoteIp: Ip
    var remotePort: U16
    var localSeq: U32
    var remoteSeq: U32
    var localAck: U32
    const sendBuf: array<Byte>
    var sendLen: nat
    var sendAcked: U32
    const recvBuf: array<Byte>
    var recvLen: nat
    var lastTxTime: nat
    var lastTxSeq: U32
    var lastTxLen: nat
    var lastTxFlags: Byte
    const lastTxPayload: array<Byte>
    var retries: nat
    var rtoMs: nat
    ghost var sent: seq<Bytes>

    ghost predicate Valid()
      reads this
    {
      && sendBuf.Length == Tcp.SEND_CAPACITY && recvBuf.Length == Tcp.RECV_CAPACITY && lastTxPayload.Length == MSS
      && sendLen <= Tcp.SEND_CAPACITY && recvLen <= Tcp.RECV_CAPACITY && lastTxLen <= MSS
    }

    ghost function View(): (c: Tcp.Conn)
      requires Valid()
      reads this, sendBuf, recvBuf, lastTxPayload
      ensures c.Sized()
    {
      Tcp.Conn(state, localPort, remoteIp, remotePort, localSeq, remoteSeq, localAck, sendBuf[..], sendLen, sendAcked,
        recvBuf[..], recvLen, lastTxTime, lastTxSeq, lastTxLen, lastTxFlags, lastTxPayload[..], retries, rtoMs, sent)
    }

    /** `TcpConn::new`. */
    constructor ()
      ensures Valid() && View() == Tcp.New([]) && fresh(sendBuf) && fresh(recvBuf) && fresh(lastTxPayload)
    {
      state, localPort, remoteIp, remotePort, localSeq, remoteSeq, localAck := Tcp.Closed, 0, Tcp.NO_IP, 0, 0, 0, 0;
      sendBuf, sendLen, sendAcked := new Byte[Tcp.SEND_CAPACITY](_ => 0), 0, 0;
      recvBuf, recvLen := new Byte[Tcp.RECV_CAPACITY](_ => 0), 0;
      lastTxTime, lastTxSeq, lastTxLen, lastTxFlags := 0, 0, 0, 0;
      lastTxPayload, retries, rtoMs, sent := new Byte[MSS](_ => 0), 0, Tcp.RTO_MS, [];
    }

    /** Assignment of a new connection to the slot. */
    method Reset()
      requires Valid()
      modifies this, sendBuf, recvBuf, lastTxPayload
      ensures Valid() && View() == Tcp.New(old(sent))
    {
      hide Zeros;
      ResetBuffers();
      ResetPeer();
      ResetProgress();
    }

    method ResetPeer()
      modifies this`state, this`localPort, this`remoteIp, this`remotePort, this`localSeq, this`remoteSeq, this`localAck
      ensures state == Tcp.Closed && localPort == 0 && remoteIp == Tcp.NO_IP && remotePort == 0
      ensures localSeq == 0 && remoteSeq == 0 && localAck == 0
    {
      state, localPort, remoteIp, remotePort, localSeq, remoteSeq, localAck := Tcp.Closed, 0, Tcp.NO_IP, 0, 0, 0, 0;
    }

    method ResetProgress()
      modifies this`sendLen, this`sendAcked, this`recvLen, this`lastTxTime, this`lastTxSeq, this`lastTxLen,
        this`lastTxFlags, this`retries, this`rtoMs
      ensures sendLen == 0 && sendAcked == 0 && recvLen == 0
      ensures lastTxTime == 0 && lastTxSeq == 0 && lastTxLen == 0 && lastTxFlags == 0 && retries == 0
      ensures rtoMs == Tcp.RTO_MS
    {
      sendLen, sendAcked, recvLen := 0, 0, 0;
      lastTxTime, lastTxSeq, lastTxLen, lastTxFlags, retries, rtoMs := 0, 0, 0, 0, 0, Tcp.RTO_MS;
    }

    method ResetBuffers()
      requires Valid()
      modifies sendBuf, recvBuf, lastTxPayload
      ensures sendBuf[..] == Zeros(Tcp.SEND_CAPACITY) && recvBuf[..] == Zeros(Tcp.RECV_CAPACITY)
      ensures lastTxPayload[..] == Zeros(MSS)
    {
      hide Zeros;
      Clear(sendBuf);
      Clear(recvBuf);
      Clear(lastTxPayload);
    }

    // ---- Sending ----

    /** `send_segment_raw`: the segment is built, noted for a resend if it may need one, wrapped in an IPv4
        packet and handed to the network. */
    method SendRaw(ip: Ip, flags: Byte, payload: Bytes, now: nat)
      requires Valid() && |payload| <= MSS
      modifies this`lastTxTime, this`lastTxSeq, this`lastTxLen, this`lastTxFlags, this`sent, lastTxPayload
      ensures Valid() && View() == Tcp.SendRaw(old(View()), ip, flags, payload, now)
    {
      hide Tcp.Outgoing, Tcp.Has, Tcp.Overwrite;
      var packet := BuildPacket(ip, flags, payload);
      if Tcp.Has(flags, Tcp.SYN) || Tcp.Has(flags, Tcp.FIN) || payload != [] {
        NoteForResend(flags, payload, now);
      }
      sent := sent + [packet];
    }

    /** What `send_segment_raw` remembers of a segment that it may have to send again. */
    method NoteForResend(flags: Byte, payload: Bytes, now: nat)
      requires Valid() && |payload| <= MSS
      modifies this`lastTxTime, this`lastTxSeq, this`lastTxLen, this`lastTxFlags, lastTxPayload
      ensures Valid() && View() == old(View()).(lastTxTime := now, lastTxSeq := localSeq, lastTxLen := |payload|,
        lastTxFlags := flags, lastTxPayload := Tcp.Overwrite(old(lastTxPayload[..]), 0, payload))
    {
      hide Tcp.Overwrite;
      lastTxTime, lastTxSeq, lastTxLen, lastTxFlags := now, localSeq, |payload|, flags;
      Store(lastTxPayload, 0, payload);
    }

    method BuildPacket(ip: Ip, flags: Byte, payload: Bytes) returns (packet: Bytes)
      requires Valid() && |payload| <= MSS
      ensures packet == Tcp.Outgoing(View(), ip, flags, payload)
    {
      hide Segment, IpHeader;
      var tcpBuf := new Byte[HEADER + MSS];
      var tcpLen :=
        BuildTcp(Fields(localPort, remotePort, localSeq, localAck, flags, Tcp.WINDOW), ip, remoteIp, payload, tcpBuf);
      var ipBuf := new Byte[HEADER + HEADER + MSS];
      var ipLen := BuildIp(ip, remoteIp, Tcp.TCP_PROTO, tcpLen.value, ipBuf);
      ghost var head := ipBuf[..HEADER];
      Put(ipBuf, ipLen.value, tcpBuf[..tcpLen.value]);
      assert ipBuf[..HEADER] == head;
      return ipBuf[..ipLen.value + tcpLen.value];
    }

    /** `send_segment`. */
    method SendSegment(ip: Ip, flags: Byte, payload: Bytes, now: nat)
      requires Valid() && |payload| <= MSS
      modifies this`localSeq, this`lastTxTime, this`lastTxSeq, this`lastTxLen, this`lastTxFlags, this`sent,
        lastTxPayload
      ensures Valid() && View() == Tcp.Transmit(old(View()), ip, flags, payload, now)
    {
      hide Tcp.SendRaw, Tcp.Add32, Tcp.Consumed;
      localSeq := Tcp.Add32(localSeq, Tcp.Consumed(flags, payload));
      SendRaw(ip, flags, payload, now);
    }

    /** `flush_send`. */
    method FlushSend(ip: Ip, now: nat)
      requires Valid()
      modifies this`localSeq, this`lastTxTime, this`lastTxSeq, this`lastTxLen, this`lastTxFlags, this`sent,
        lastTxPayload
      ensures Valid() && View() == Tcp.Flush(old(View()), ip, now)
    {
      hide Tcp.Transmit;
      if sendLen > 0 {
        var toSend := Tcp.Min(sendLen, MSS);
        SendSegment(ip, Tcp.PSH_ACK, sendBuf[..toSend], now);
      }
    }

    /** `check_retransmit`. */
    method CheckRetransmit(ip: Ip, now: nat)
      requires Valid()
      modifies this, sendBuf, recvBuf, lastTxPayload
      ensures Valid() && View() == Tcp.CheckRetransmit(old(View()), ip, now)
    {
      hide Tcp.SendRaw, Tcp.New;
      if retries >= Tcp.MAX_RETRIES {
        SendRaw(ip, Tcp.RST_ACK, [], now);
        Reset();
        return;
      }
      if now - lastTxTime >= rtoMs {
        SendRaw(ip, lastTxFlags, lastTxPayload[..lastTxLen], now);
        retries := retries + 1;
        rtoMs := rtoMs * 2;
        lastTxTime := now;
      }
    }

    // ---- Segment handlers ----

    method HandleListen(ip: Ip, hdr: TcpHeader, now: nat)
      requires Valid()
      modifies this, lastTxPayload
      ensures Valid() && View() == Tcp.OnListen(old(View()), ip, hdr, now)
    {
      hide Tcp.Transmit, Tcp.Has, Tcp.Add32;
      if !Tcp.Has(hdr.flags, Tcp.SYN) {
        return;
      }
      remoteSeq := Tcp.Add32(hdr.seqNo, 1);
      localAck := Tcp.Add32(hdr.seqNo, 1);
      state := Tcp.SynReceived;
      SendSegment(ip, Tcp.SYN_ACK, [], now);
    }

    method HandleSynSent(ip: Ip, hdr: TcpHeader, now: nat)
      requires Valid()
      modifies this, lastTxPayload
      ensures Valid() && View() == Tcp.OnSynSent(old(View()), ip, hdr, now)
    {
      hide Tcp.SendRaw, Tcp.Flush, Tcp.Has, Tcp.Add32;
      if !Tcp.Has(hdr.flags, Tcp.SYN) || !Tcp.Has(hdr.flags, Tcp.ACK) {
        return;
      }
      if hdr.ackNo != localSeq {
        return;
      }
      remoteSeq := Tcp.Add32(hdr.seqNo, 1);
      localAck := Tcp.Add32(hdr.seqNo, 1);
      state := Tcp.Established;
      retries := 0;
      rtoMs := Tcp.RTO_MS;
      ghost var up := View();
      assert up ==
        old(View()).(remoteSeq := up.remoteSeq, localAck := up.localAck, state := Tcp.Established, retries := 0,
          rtoMs := Tcp.RTO_MS);
      Greet(ip, now);
    }

    /** Acknowledge the peer's SYN, and send what has been waiting. */
    method Greet(ip: Ip, now: nat)
      requires Valid()
      modifies this, lastTxPayload
      ensures Valid() && View() == Tcp.Flush(Tcp.SendRaw(old(View()), ip, Tcp.ACK, [], now), ip, now)
    {
      hide Tcp.SendRaw, Tcp.Flush;
      SendRaw(ip, Tcp.ACK, [], now);
      FlushSend(ip, now);
    }

    method HandleSynReceived(hdr: TcpHeader)
      requires Valid()
      modifies this
      ensures Valid() && View() == Tcp.OnSynReceived(old(View()), hdr)
    {
      if !Tcp.Has(hdr.flags, Tcp.ACK) || hdr.ackNo != localSeq {
        return;
      }
      state := Tcp.Established;
      retries := 0;
      rtoMs := Tcp.RTO_MS;
    }

    /** The acknowledgment part of `handle_established`. */
    method TakeAck(ip: Ip, ackNo: U32, now: nat)
      requires Valid()
      modifies this, sendBuf, lastTxPayload
      ensures Valid() && View() == Tcp.TakeAck(old(View()), ip, ackNo, now)
    {
      hide Tcp.Flush, Tcp.Sub32, Tcp.MovedDown;
      var ackedStart := Tcp.Sub32(localSeq, sendLen);
      if Tcp.SeqLt(ackedStart, ackNo) || ackNo == localSeq {
        DropAcked(Tcp.Sub32(ackNo, ackedStart), ackNo);
        FlushSend(ip, now);
      }
    }

    /** Restart the retry count, and move the acknowledged bytes out of the send buffer. */
    method DropAcked(count: U32, ackNo: U32)
      requires Valid()
      modifies this`retries, this`rtoMs, this`sendLen, this`sendAcked, sendBuf
      ensures Valid()
      ensures var acked := Tcp.Min(count, old(sendLen));
        View() == old(View()).(retries := 0, rtoMs := Tcp.RTO_MS, sendAcked := ackNo,
          sendBuf := Tcp.MovedDown(old(sendBuf[..]), acked, old(sendLen)), sendLen := old(sendLen) - acked)
    {
      hide Tcp.MovedDown;
      retries := 0;
      rtoMs := Tcp.RTO_MS;
      var acked := count;
      if acked > sendLen {
        acked := sendLen;
      }
      if acked > 0 {
        MoveDown(sendBuf, acked, sendLen);
        sendLen := sendLen - acked;
      }
      MovedNowhere(old(sendBuf[..]), old(sendLen));
      sendAcked := ackNo;
    }

    /** Store what fits of a payload, and count all of it. */
    method Deliver(payload: Bytes)
      requires Valid()
      modifies this`recvLen, this`remoteSeq, recvBuf
      ensures Valid() && View() == Tcp.Deliver(old(View()), payload)
    {
      hide Tcp.Add32;
      var copyLen := Tcp.Min(|payload|, recvBuf.Length - recvLen);
      Store(recvBuf, recvLen, payload[..copyLen]);
      recvLen := recvLen + copyLen;
      remoteSeq := Tcp.Add32(remoteSeq, |payload|);
    }

    /** Deliver a payload that is next in the stream, and acknowledge it. */
    method DeliverAndAck(ip: Ip, payload: Bytes, now: nat)
      requires Valid()
      modifies this, recvBuf, lastTxPayload
      ensures Valid() && View() == Tcp.DeliverAndAck(old(View()), ip, payload, now)
    {
      hide Tcp.SendRaw, Tcp.Deliver;
      Deliver(payload);
      localAck := remoteSeq;
      SendRaw(ip, Tcp.ACK, [], now);
    }

    /** Count the peer's FIN, and acknowledge it. */
    method CountFin(ip: Ip, now: nat)
      requires Valid()
      modifies this, lastTxPayload
      ensures Valid() && View() == Tcp.CountFin(old(View()), ip, now)
    {
      hide Tcp.SendRaw, Tcp.Add32;
      remoteSeq := Tcp.Add32(remoteSeq, 1);
      localAck := remoteSeq;
      SendRaw(ip, Tcp.ACK, [], now);
    }

    method HandleEstablished(ip: Ip, hdr: TcpHeader, now: nat)
      requires Valid()
      modifies this, sendBuf, recvBuf, lastTxPayload
      ensures Valid() && View() == Tcp.OnEstablished(old(View()), ip, hdr, now)
    {
      hide Tcp.SendRaw, Tcp.TakeAck, Tcp.DeliverAndAck, Tcp.CountFin, Tcp.Has;
      if Tcp.Has(hdr.flags, Tcp.ACK) {
        TakeAck(ip, hdr.ackNo, now);
      }
      if hdr.payload != [] {
        if hdr.seqNo != remoteSeq {
          SendRaw(ip, Tcp.ACK, [], now);
          return;
        }
        DeliverAndAck(ip, hdr.payload, now);
      }
      if Tcp.Has(hdr.flags, Tcp.FIN) {
        CountFin(ip, now);
        state := Tcp.CloseWait;
      }
    }

    method HandleFinWait1(ip: Ip, hdr: TcpHeader, now: nat)
      requires Valid()
      modifies this, recvBuf, lastTxPayload
      ensures Valid() && View() == Tcp.OnFinWait1(old(View()), ip, hdr, now)
    {
      hide Tcp.Deliver, Tcp.CountFin, Tcp.Has;
      if Tcp.Has(hdr.flags, Tcp.ACK) {
        if Tcp.Has(hdr.flags, Tcp.FIN) {
          CountFin(ip, now);
          state := Tcp.TimeWait;
          lastTxTime := now;
        } else {
          state := Tcp.FinWait2;
        }
      }
      if hdr.payload != [] && hdr.seqNo == remoteSeq {
        Deliver(hdr.payload);
      }
    }

    method HandleFinWait2(ip: Ip, hdr: TcpHeader, now: nat)
      requires Valid()
      modifies this, recvBuf, lastTxPayload
      ensures Valid() && View() == Tcp.OnFinWait2(old(View()), ip, hdr, now)
    {
      hide Tcp.Deliver, Tcp.CountFin, Tcp.Has;
      if Tcp.Has(hdr.flags, Tcp.FIN) {
        CountFin(ip, now);
        state := Tcp.TimeWait;
        lastTxTime := now;
      }
      if hdr.payload != [] && hdr.seqNo == remoteSeq {
        Deliver(hdr.payload);
      }
    }

    method HandleCloseWait(ip: Ip, hdr: TcpHeader, now: nat)
      requires Valid()
      modifies this, recvBuf, lastTxPayload
      ensures Valid() && View() == Tcp.OnCloseWait(old(View()), ip, hdr, now)
    {
      hide Tcp.SendRaw, Tcp.DeliverAndAck, Tcp.Has;
      if hdr.payload != [] && hdr.seqNo == remoteSeq {
        DeliverAndAck(ip, hdr.payload, now);
      }
      if Tcp.Has(hdr.flags, Tcp.FIN) {
        localAck := remoteSeq;
        SendRaw(ip, Tcp.ACK, [], now);
      }
    }

    method HandleLastAck(hdr: TcpHeader)
      requires Valid()
      modifies this
      ensures Valid() && View() == Tcp.OnLastAck(old(View()), hdr)
    {
      if Tcp.Has(hdr.flags, Tcp.ACK) {
        state := Tcp.Closed;
      }
    }

    /** `process_segment`. */
    method Process(ip: Ip, hdr: TcpHeader, now: nat)
      requires Valid()
      modifies this, sendBuf, recvBuf, lastTxPayload
      ensures Valid() && View() == Tcp.Process(old(View()), ip, hdr, now)
    {
      hide Tcp.OnListen, Tcp.OnSynSent, Tcp.OnSynReceived, Tcp.OnEstablished, Tcp.OnFinWait1, Tcp.OnFinWait2;
      hide Tcp.OnCloseWait, Tcp.OnLastAck;
      match state {
        case Listen => HandleListen(ip, hdr, now);
        case SynSent => HandleSynSent(ip, hdr, now);
        case SynReceived => HandleSynReceived(hdr);
        case Established => HandleEstablished(ip, hdr, now);
        case FinWait1 => HandleFinWait1(ip, hdr, now);
        case FinWait2 => HandleFinWait2(ip, hdr, now);
        case CloseWait => HandleCloseWait(ip, hdr, now);
        case LastAck => HandleLastAck(hdr);
        case _ =>
      }
    }

    /** `receive`, for this slot. */
    method Receive(ip: Ip, srcIp: Ip, data: Bytes, now: nat)
      requires Valid()
      modifies this, sendBuf, recvBuf, lastTxPayload
      ensures Valid() && View() == Tcp.Arrive(old(View()), ip, srcIp, data, now)
    {
      hide ParseTcp, Tcp.Process, Tcp.Has, Tcp.New;
      var parsed := ParseTcp(data);
      if parsed == None {
        return;
      }
      var hdr := parsed.value;
      if state == Tcp.Closed || state == Tcp.TimeWait || localPort != hdr.dstPort
        || !(remoteIp == Tcp.NO_IP || remoteIp == srcIp) || !(remotePort == 0 || remotePort == hdr.srcPort) {
        return;
      }
      if Tcp.Has(hdr.flags, Tcp.RST) {
        Reset();
        return;
      }
      if remoteIp == Tcp.NO_IP {
        remoteIp := srcIp;
      }
      if remotePort == 0 {
        remotePort := hdr.srcPort;
      }
      Process(ip, hdr, now);
    }

    // ---- Calls ----

    method Listen(port: U16, now: nat)
      requires Valid()
      modifies this
      ensures Valid() && View() == Tcp.DoListen(old(View()), port, now)
    {
      if state == Tcp.Closed {
        state := Tcp.Listen;
        localPort, remoteIp, remotePort := port, Tcp.NO_IP, 0;
        localSeq, remoteSeq, localAck := now % 0x1_0000_0000, 0, 0;
      }
    }

    method Connect(ip: Ip, port: U16, peer: Ip, peerPort: U16, now: nat)
      requires Valid()
      modifies this, lastTxPayload
      ensures Valid() && View() == Tcp.DoConnect(old(View()), ip, port, peer, peerPort, now)
    {
      hide Tcp.Transmit;
      if state == Tcp.Closed {
        Aim(port, peer, peerPort, now);
        SendSegment(ip, Tcp.SYN, [], now);
      }
    }

    /** Fill in a slot for an active open. */
    method Aim(port: U16, peer: Ip, peerPort: U16, now: nat)
      requires Valid()
      modifies this`state, this`localPort, this`remoteIp, this`remotePort, this`localSeq, this`remoteSeq,
        this`localAck, this`retries, this`rtoMs
      ensures state == Tcp.SynSent && localPort == port && remoteIp == peer && remotePort == peerPort
      ensures localSeq == now % 0x1_0000_0000 && remoteSeq == 0 && localAck == 0 && retries == 0 && rtoMs == Tcp.RTO_MS
    {
      state := Tcp.SynSent;
      localPort, remoteIp, remotePort := port, peer, peerPort;
      localSeq, remoteSeq, localAck := now % 0x1_0000_0000, 0, 0;
      retries := 0;
      rtoMs := Tcp.RTO_MS;
    }

    method Send(ip: Ip, data: Bytes, now: nat) returns (n: Option<nat>)
      requires Valid()
      modifies this, sendBuf, lastTxPayload
      ensures Valid() && View() == Tcp.DoSend(old(View()), ip, data, now)
      ensures n ==
        if Tcp.CanSend(old(View()), data) then Some(Tcp.Min(|data|, Tcp.SEND_CAPACITY - old(sendLen))) else None
    {
      hide Tcp.Flush;
      if state != Tcp.Established && state != Tcp.CloseWait {
        return None;
      }
      var toCopy := Tcp.Min(|data|, sendBuf.Length - sendLen);
      if toCopy == 0 {
        return None;
      }
      Store(sendBuf, sendLen, data[..toCopy]);
      sendLen := sendLen + toCopy;
      FlushSend(ip, now);
      return Some(toCopy);
    }

    /** `recv` into `buf`. */
    method Recv(buf: array<Byte>) returns (n: nat)
      requires Valid() && buf != recvBuf && buf != sendBuf && buf != lastTxPayload
      modifies this, recvBuf, buf
      ensures Valid() && View() == Tcp.DoRecv(old(View()), buf.Length)
      ensures n <= buf.Length && buf[..n] == Tcp.Read(old(View()), buf.Length)
    {
      hide Tcp.MovedDown;
      MovedNowhere(recvBuf[..], recvLen);
      if recvLen == 0 {
        return 0;
      }
      n := Tcp.Min(recvLen, buf.Length);
      Put(buf, 0, recvBuf[..n]);
      if n < recvLen {
        MoveDown(recvBuf, n, recvLen);
      }
      recvLen := recvLen - n;
    }

    method Close(ip: Ip, now: nat) returns (ok: bool)
      requires Valid()
      modifies this, lastTxPayload
      ensures Valid() && View() == Tcp.DoClose(old(View()), ip, now)
      ensures ok == (old(state) == Tcp.Established || old(state) == Tcp.CloseWait)
    {
      hide Tcp.Flush, Tcp.Transmit;
      if state == Tcp.Established {
        FlushSend(ip, now);
        state := Tcp.FinWait1;
        SendSegment(ip, Tcp.FIN_ACK, [], now);
        return true;
      }
      if state == Tcp.CloseWait {
        state := Tcp.LastAck;
        SendSegment(ip, Tcp.FIN_ACK, [], now);
        return true;
      }
      return false;
    }

    method Poll(ip: Ip, now: nat)
      requires Valid()
      modifies this, sendBuf, recvBuf, lastTxPayload
      ensures Valid() && View() == Tcp.DoPoll(old(View()), ip, now)
    {
      hide Tcp.Flush, Tcp.Transmit, Tcp.CheckRetransmit;
      match state {
        case SynSent => CheckRetransmit(ip, now);
        case SynReceived => CheckRetransmit(ip, now);
        case Established => FlushSend(ip, now);
        case CloseWait => FlushSend(ip, now);
        case FinWait1 => CheckRetransmit(ip, now);
        case LastAck => CheckRetransmit(ip, now);
        case TimeWait =>
          if now - lastTxTime >= 60_000 {
            state := Tcp.Closed;
          }
        case _ =>
      }
    }
  }
}
