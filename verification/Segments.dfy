/** TCP segments (section 3.1 of RFC 9293) and IPv4 headers (section 3.1 of RFC 791): building and parsing. */
module Segments {
  import opened Basics
  import opened Wire

  const HEADER: nat := 20
  const MSS: nat := 536

  // ---- TCP ----

  datatype TcpHeader = TcpHeader(
    srcPort: U16, dstPort: U16, seqNo: U32, ackNo: U32, dataOffset: Byte, flags: Byte,
    window: U16, checksum: U16, urgent: U16, payload: Bytes)

  function ParseTcp(data: Bytes): Option<TcpHeader> {
    if |data| < HEADER then None
    else
      var offset := data[12] / 0x10 * 4;
      if offset < HEADER || offset > |data| then None
      else Some(TcpHeader(
        Be16(data[0], data[1]), Be16(data[2], data[3]),
        Be32(data[4], data[5], data[6], data[7]), Be32(data[8], data[9], data[10], data[11]),
        offset, data[13] % 0x40, Be16(data[14], data[15]), Be16(data[16], data[17]), Be16(data[18], data[19]),
        data[offset..]))
  }

  /** What the sender puts into a segment. */
  datatype Fields = Fields(srcPort: U16, dstPort: U16, seqNo: U32, ackNo: U32, flags: Byte, window: U16)

  function TcpHead(f: Fields, checksum: U16): (s: Bytes)
    ensures |s| == HEADER
  {
    [ Hi(f.srcPort), Lo(f.srcPort), Hi(f.dstPort), Lo(f.dstPort),
      Hi(Hi16(f.seqNo)), Lo(Hi16(f.seqNo)), Hi(Lo16(f.seqNo)), Lo(Lo16(f.seqNo)),
      Hi(Hi16(f.ackNo)), Lo(Hi16(f.ackNo)), Hi(Lo16(f.ackNo)), Lo(Lo16(f.ackNo)),
      HEADER / 4 * 0x10, f.flags, Hi(f.window), Lo(f.window), Hi(checksum), Lo(checksum), 0, 0 ]
  }

  function TcpBytes(f: Fields, checksum: U16, payload: Bytes): (s: Bytes)
    ensures |s| == HEADER + |payload|
  {
    TcpHead(f, checksum) + payload
  }

  /** The sum of the pseudo header that the TCP checksum covers too. */
  function Pseudo(src: Ip, dst: Ip, length: nat): nat {
    SumWords(src) + SumWords(dst) + 6 + length
  }

  function TcpChecksumOf(f: Fields, src: Ip, dst: Ip, payload: Bytes): U16 {
    0xFFFF - Fold(Pseudo(src, dst, HEADER + |payload|) + SumWords(TcpBytes(f, 0, payload)))
  }

  /** The segment `TcpHeader::build` makes. */
  function Segment(f: Fields, src: Ip, dst: Ip, payload: Bytes): (s: Bytes)
    ensures |s| == HEADER + |payload|
  {
    TcpBytes(f, TcpChecksumOf(f, src, dst, payload), payload)
  }

  lemma SumOfIp(ip: Ip)
    ensures SumWords(ip) == Be16(ip[0], ip[1]) + Be16(ip[2], ip[3])
  {
    assert SumWords(ip[2..]) == Be16(ip[2], ip[3]) by {
      assert ip[2..][2..] == [];
    }
  }

  /** `tcp_checksum`. */
  method TcpChecksum(src: Ip, dst: Ip, segment: Bytes) returns (c: U16)
    requires |segment| <= 0xFFFF
    ensures c == 0xFFFF - Fold(Pseudo(src, dst, |segment|) + SumWords(segment))
  {
    var sum: U32 := Be16(src[0], src[1]);
    sum := sum + Be16(src[2], src[3]);
    sum := sum + Be16(dst[0], dst[1]);
    sum := sum + Be16(dst[2], dst[3]);
    sum := sum + 6;
    sum := sum + |segment|;
    SumOfIp(src);
    SumOfIp(dst);
    c := Checksum(sum, segment);
  }

  /** `TcpHeader::build`: None, and nothing written, when the buffer is too small. */
  method BuildTcp(f: Fields, src: Ip, dst: Ip, payload: Bytes, out: array<Byte>) returns (total: Option<nat>)
    requires HEADER + |payload| <= 0xFFFF
    modifies out
    ensures total.Some? <==> HEADER + |payload| <= out.Length
    ensures total.None? ==> out[..] == old(out[..])
    ensures total.Some? ==>
      && total.value == HEADER + |payload| && out[..total.value] == Segment(f, src, dst, payload)
      && forall k :: total.value <= k < out.Length ==> out[k] == old(out[k])
  {
    hide Fold, SumWords, TcpHead, Hi, Lo, Be16, WithWord;
    var n := HEADER + |payload|;
    if out.Length < n {
      return None;
    }
    BuildHead(f, out);
    Put(out, 20, payload);
    assert out[..n] == TcpBytes(f, 0, payload);
    var checksum := TcpChecksum(src, dst, out[..n]);
    PutWord(out, n, 16, checksum);
    BytesWithChecksum(f, checksum, payload);
    return Some(n);
  }

  lemma ZeroBytes()
    ensures Hi(0) == 0 && Lo(0) == 0
  {
  }

  lemma BytesWithChecksum(f: Fields, checksum: U16, payload: Bytes)
    ensures TcpBytes(f, checksum, payload) == WithWord(TcpBytes(f, 0, payload), 16, checksum)
  {
    hide Hi, Lo, Hi16, Lo16;
  }

  /** The fields of the header, with 0 for the checksum. */
  method BuildHead(f: Fields, out: array<Byte>)
    requires out.Length >= HEADER
    modifies out
    ensures forall k :: 0 <= k < HEADER ==> out[k] == TcpHead(f, 0)[k]
    ensures forall k :: HEADER <= k < out.Length ==> out[k] == old(out[k])
  {
    hide Hi, Lo, Hi16, Lo16, Be16, Be32;
    Put(out, 0, Bytes16(f.srcPort));
    Put(out, 2, Bytes16(f.dstPort));
    Put(out, 4, Bytes32(f.seqNo));
    Put(out, 8, Bytes32(f.ackNo));
    out[12] := HEADER / 4 * 0x10;
    out[13] := f.flags;
    Put(out, 14, Bytes16(f.window));
    Put(out, 16, [0, 0]);
    Put(out, 18, [0, 0]);
    ZeroBytes();
  }

  /** The finished segment passes its own checksum. */
  lemma SegmentIsAccepted(f: Fields, src: Ip, dst: Ip, payload: Bytes)
    ensures Accepts(Pseudo(src, dst, HEADER + |payload|), Segment(f, src, dst, payload))
  {
    hide Fold, SumWords, Hi, Lo, Hi16, Lo16, Be16;
    ZeroBytes();
    var blank := TcpBytes(f, 0, payload);
    StoredChecksumIsAccepted(Pseudo(src, dst, HEADER + |payload|), blank, 16);
    BytesWithChecksum(f, TcpChecksumOf(f, src, dst, payload), payload);
  }

  /** So `tcp_checksum` of a finished segment is 0. */
  lemma SegmentChecksumIsZero(f: Fields, src: Ip, dst: Ip, payload: Bytes)
    ensures 0xFFFF - Fold(Pseudo(src, dst, HEADER + |payload|) + SumWords(Segment(f, src, dst, payload))) == 0
  {
    hide Fold, SumWords, Segment;
    SegmentIsAccepted(f, src, dst, payload);
  }

  /** Parsing a built segment gives back everything that went in; flags only if they fit 6 bits. */
  lemma ParseOfSegment(f: Fields, src: Ip, dst: Ip, payload: Bytes)
    ensures ParseTcp(Segment(f, src, dst, payload)) == Some(TcpHeader(
      f.srcPort, f.dstPort, f.seqNo, f.ackNo, HEADER, f.flags % 0x40,
      f.window, TcpChecksumOf(f, src, dst, payload), 0, payload))
  {
    hide Fold, SumWords, Hi, Lo, Hi16, Lo16, Be16, Be32;
    var s := Segment(f, src, dst, payload);
    assert s[HEADER..] == payload;
    assert s[12] == 0x50 && s[13] == f.flags && s[18] == s[19] == 0;
    ZeroBytes();
    Joined16(0);
    Joined16(f.srcPort);
    Joined16(f.dstPort);
    Joined32(f.seqNo);
    Joined32(f.ackNo);
    Joined16(f.window);
    Joined16(TcpChecksumOf(f, src, dst, payload));
  }

  lemma Joined16(v: U16)
    ensures Be16(Hi(v), Lo(v)) == v
  {
  }

  lemma Joined32(v: U32)
    ensures Be32(Hi(Hi16(v)), Lo(Hi16(v)), Hi(Lo16(v)), Lo(Lo16(v))) == v
  {
  }

  /** A receiver that sums the segment notices every change to one 16-bit word, except between 0 and 0xFFFF. */
  lemma SegmentChangeIsNoticed(f: Fields, src: Ip, dst: Ip, payload: Bytes, k: nat, now: U16)
    requires k % 2 == 0 && k + 2 <= HEADER + |payload|
    ensures var s := Segment(f, src, dst, payload); var was := Be16(s[k], s[k + 1]);
      Accepts(Pseudo(src, dst, |s|), WithWord(s, k, now)) <==>
        now == was || (now == 0 && was == 0xFFFF) || (now == 0xFFFF && was == 0)
  {
    SegmentIsAccepted(f, src, dst, payload);
    OneWordChange(Pseudo(src, dst, HEADER + |payload|), Segment(f, src, dst, payload), k, now);
  }

  // ---- IPv4 ----

  datatype Ipv4Packet = Ipv4Packet(version: Byte, headerLen: Byte, totalLen: U16, protocol: Byte, src: Ip, dst: Ip,
      payload: Bytes)

  function ParseIp(data: Bytes): Option<Ipv4Packet> {
    if |data| < HEADER then None
    else
      var headerLen := data[0] % 0x10 * 4;
      if |data| < headerLen then None
      else Some(Ipv4Packet(data[0] / 0x10, headerLen, Be16(data[2], data[3]), data[9], data[12..16], data[16..20],
        data[headerLen..]))
  }

  function TotalLen(payloadLen: U16): U16 {
    (HEADER + payloadLen) % 0x1_0000
  }

  function IpBytes(src: Ip, dst: Ip, protocol: Byte, payloadLen: U16, checksum: U16): (s: Bytes)
    ensures |s| == HEADER
  {
    [ 0x45, 0, Hi(TotalLen(payloadLen)), Lo(TotalLen(payloadLen)), 0, 0, 0, 0, 64, protocol, Hi(checksum), Lo(checksum),
      src[0], src[1], src[2], src[3], dst[0], dst[1], dst[2], dst[3] ]
  }

  /** The header `Ipv4Packet::build` makes. */
  function IpHeader(src: Ip, dst: Ip, protocol: Byte, payloadLen: U16): (s: Bytes)
    ensures |s| == HEADER
  {
    IpBytes(src, dst, protocol, payloadLen, 0xFFFF - Fold(SumWords(IpBytes(src, dst, protocol, payloadLen, 0))))
  }

  /** `Ipv4Packet::build`. */
  method BuildIp(src: Ip, dst: Ip, protocol: Byte, payloadLen: U16, out: array<Byte>) returns (n: Option<nat>)
    modifies out
    ensures if out.Length < HEADER then n == None && out[..] == old(out[..])
      else n == Some(HEADER) && out[..HEADER] == IpHeader(src, dst, protocol, payloadLen)
    ensures forall k :: HEADER <= k < out.Length ==> out[k] == old(out[k])
  {
    if out.Length < HEADER {
      return None;
    }
    WriteIp(src, dst, protocol, payloadLen, out);
    return Some(HEADER);
  }

  method WriteIp(src: Ip, dst: Ip, protocol: Byte, payloadLen: U16, out: array<Byte>)
    requires out.Length >= HEADER
    modifies out
    ensures out[..HEADER] == IpHeader(src, dst, protocol, payloadLen)
    ensures forall k :: HEADER <= k < out.Length ==> out[k] == old(out[k])
  {
    hide Fold, SumWords, Hi, Lo, Be16, TotalLen, IpBytes, WithWord, IpHeader;
    BuildIpFields(src, dst, protocol, payloadLen, out);
    ghost var blank := IpBytes(src, dst, protocol, payloadLen, 0);
    assert out[..HEADER] == blank;
    var checksum := Checksum(0, out[..HEADER]);
    PutWord(out, HEADER, 10, checksum);
    HeaderIs(src, dst, protocol, payloadLen);
  }

  lemma HeaderIs(src: Ip, dst: Ip, protocol: Byte, payloadLen: U16)
    ensures var blank := IpBytes(src, dst, protocol, payloadLen, 0);
      IpHeader(src, dst, protocol, payloadLen) == WithWord(blank, 10, 0xFFFF - Fold(SumWords(blank)))
  {
    hide Fold, SumWords, IpBytes, WithWord;
    IpWithChecksum(src, dst, protocol, payloadLen, 0xFFFF - Fold(SumWords(IpBytes(src, dst, protocol, payloadLen, 0))));
  }

  lemma IpWithChecksum(src: Ip, dst: Ip, protocol: Byte, payloadLen: U16, checksum: U16)
    ensures IpBytes(src, dst, protocol, payloadLen, checksum) ==
      WithWord(IpBytes(src, dst, protocol, payloadLen, 0), 10, checksum)
  {
    hide Hi, Lo, TotalLen;
  }

  method BuildIpFields(src: Ip, dst: Ip, protocol: Byte, payloadLen: U16, out: array<Byte>)
    requires out.Length >= HEADER
    modifies out
    ensures forall k :: 0 <= k < HEADER ==> out[k] == IpBytes(src, dst, protocol, payloadLen, 0)[k]
    ensures forall k :: HEADER <= k < out.Length ==> out[k] == old(out[k])
  {
    hide Hi, Lo, Be16, TotalLen;
    ZeroBytes();
    out[0] := 0x45;
    out[1] := 0;
    Put(out, 2, Bytes16(TotalLen(payloadLen)));
    Put(out, 4, [0, 0, 0, 0]);
    out[8] := 64;
    out[9] := protocol;
    Put(out, 10, [0, 0]);
    Put(out, 12, src);
    Put(out, 16, dst);
  }

  /** A built header passes its own checksum, and parses back to what went in; a packet too long for 16
      bits is the one case in which the total length is not the packet's length. */
  lemma IpRoundTrip(src: Ip, dst: Ip, protocol: Byte, payloadLen: U16, payload: Bytes)
    requires |payload| == payloadLen
    ensures Accepts(0, IpHeader(src, dst, protocol, payloadLen))
    ensures ParseIp(IpHeader(src, dst, protocol, payloadLen) + payload) ==
      Some(Ipv4Packet(4, HEADER, TotalLen(payloadLen), protocol, src, dst, payload))
    ensures TotalLen(payloadLen) == HEADER + |payload| <==> payloadLen <= 0xFFFF - HEADER
  {
    hide Fold, SumWords, Be16, Hi, Lo, ParseIp;
    ZeroBytes();
    var blank := IpBytes(src, dst, protocol, payloadLen, 0);
    var checksum: U16 := 0xFFFF - Fold(SumWords(blank));
    StoredChecksumIsAccepted(0, blank, 10);
    IpWithChecksum(src, dst, protocol, payloadLen, checksum);
    IpFieldsAt(src, dst, protocol, payloadLen, checksum, payload);
  }

  lemma IpFieldsAt(src: Ip, dst: Ip, protocol: Byte, payloadLen: U16, checksum: U16, payload: Bytes)
    ensures ParseIp(IpBytes(src, dst, protocol, payloadLen, checksum) + payload) ==
      Some(Ipv4Packet(4, HEADER, TotalLen(payloadLen), protocol, src, dst, payload))
  {
    hide Hi, Lo, Be16, TotalLen;
    var data := IpBytes(src, dst, protocol, payloadLen, checksum) + payload;
    assert data[12..16] == src && data[16..20] == dst && data[HEADER..] == payload;
    Joined16(TotalLen(payloadLen));
  }
}
