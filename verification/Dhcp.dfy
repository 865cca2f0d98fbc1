/** DHCP messages: the builder (section 2 of RFC 2131) and the scanner of options (section 2 of RFC 2132). */
module Dhcp {
  import opened Basics
  import opened Wire

  const OP_BOOTREPLY: Byte := 2
  const MAGIC_COOKIE: Bytes := [0x63, 0x82, 0x53, 0x63]
  const DHCP_MSG_SIZE: nat := 240

  const PAD: Byte := 0
  const END: Byte := 255
  const SUBNET: Byte := 1
  const ROUTER: Byte := 3
  const DNS: Byte := 6
  const HOST_NAME: Byte := 12
  const REQUESTED_IP: Byte := 50
  const MESSAGE_TYPE: Byte := 53
  const SERVER_ID: Byte := 54
  const PARAMETERS: Byte := 55

  // ---- Scanning options ----

  datatype Found = Found(msgType: Byte, subnet: Option<Ip>, gateway: Option<Ip>, dns: Option<Ip>, serverId: Option<Ip>)

  const NOTHING: Found := Found(0, None, None, None, None)

  /** One complete option. */
  function Take(f: Found, tag: Byte, value: Bytes): Found {
    if tag == MESSAGE_TYPE && |value| == 1 then f.(msgType := value[0])
    else if tag == SERVER_ID && |value| == 4 then f.(serverId := Some(value))
    else if tag == SUBNET && |value| == 4 then f.(subnet := Some(value))
    else if tag == ROUTER && |value| == 4 then f.(gateway := Some(value))
    else if tag == DNS && |value| >= 4 then f.(dns := Some(value[..4]))
    else f
  }

  function Scan(opts: Bytes, f: Found): Found
    decreases |opts|
  {
    if opts == [] then f
    else if opts[0] == PAD then Scan(opts[1..], f)
    else if Stops(opts) then f
    else Scan(opts[2 + opts[1]..], Take(f, opts[0], opts[2..2 + opts[1]]))
  }

  /** An end tag, or an option cut short. */
  predicate Stops(opts: Bytes)
    requires opts != []
  {
    opts[0] == END || |opts| < 2 || 2 + opts[1] > |opts|
  }

  /** The arms of `parse_dhcp_options` for a complete option at `i`. */
  method TakeOption(f0: Found, opts: Bytes, i: nat, len: nat) returns (f: Found)
    requires i + 2 + len <= |opts|
    ensures f == Take(f0, opts[i], opts[i + 2..i + 2 + len])
  {
    f := f0;
    var tag := opts[i];
    if tag == MESSAGE_TYPE && len == 1 {
      f := f.(msgType := opts[i + 2]);
    } else if tag == SERVER_ID && len == 4 {
      f := f.(serverId := Some(opts[i + 2..i + 6]));
    } else if tag == SUBNET && len == 4 {
      f := f.(subnet := Some(opts[i + 2..i + 6]));
    } else if tag == ROUTER && len == 4 {
      f := f.(gateway := Some(opts[i + 2..i + 6]));
    } else if tag == DNS && len >= 4 {
      assert opts[i + 2..i + 2 + len][..4] == opts[i + 2..i + 6];
      f := f.(dns := Some(opts[i + 2..i + 6]));
    }
  }

  /** `parse_dhcp_options`: every read is in bounds, and the loop ends, on every byte string. */
  method ParseOptions(opts: Bytes) returns (f: Found)
    ensures f == Scan(opts, NOTHING)
  {
    hide Take;
    f := NOTHING;
    var i := 0;
    while i < |opts|
      invariant i <= |opts| && Scan(opts, NOTHING) == Scan(opts[i..], f)
    {
      var tag := opts[i];
      if tag == PAD {
        assert opts[i..][1..] == opts[i + 1..];
        i := i + 1;
      } else if tag == END {
        break;
      } else {
        if i + 1 >= |opts| {
          break;
        }
        var len := opts[i + 1];
        if i + 2 + len > |opts| {
          break;
        }
        assert opts[i..][2 + len..] == opts[i + 2 + len..] && opts[i..][2..2 + len] == opts[i + 2..i + 2 + len];
        f := TakeOption(f, opts, i, len);
        i := i + 2 + len;
      }
    }
  }

  // ---- Serialised options ----

  datatype Item = Pad | Opt(tag: Byte, value: Bytes)

  predicate WellFormed(item: Item) {
    item.Opt? ==> item.tag != PAD && item.tag != END && |item.value| < 0x100
  }

  function Encoded(item: Item): Bytes
    requires WellFormed(item)
  {
    match item
    case Pad => [PAD]
    case Opt(tag, value) => [tag, |value|] + value
  }

  ghost predicate AllWellFormed(items: seq<Item>) {
    forall k :: 0 <= k < |items| ==> WellFormed(items[k])
  }

  function Serialize(items: seq<Item>): Bytes
    requires AllWellFormed(items)
  {
    if items == [] then [] else Encoded(items[0]) + Serialize(items[1..])
  }

  /** The value of the last option with this tag and a length in range. */
  function LastValue(items: seq<Item>, tag: Byte, least: nat, most: nat): Option<Bytes> {
    if items == [] then None
    else
      var item := items[|items| - 1];
      if item.Opt? && item.tag == tag && least <= |item.value| <= most then Some(item.value)
      else LastValue(items[..|items| - 1], tag, least, most)
  }

  /** Is `f` what a list of options says: for each recognised tag its last well-sized value? */
  ghost predicate Says(items: seq<Item>, f: Found) {
    var msgType, dns := LastValue(items, MESSAGE_TYPE, 1, 1), LastValue(items, DNS, 4, 0xFF);
    && f.serverId == LastValue(items, SERVER_ID, 4, 4)
    && f.subnet == LastValue(items, SUBNET, 4, 4)
    && f.gateway == LastValue(items, ROUTER, 4, 4)
    && f.msgType == (if msgType.Some? && msgType.value != [] then msgType.value[0] else 0)
    && f.dns == (if dns.Some? && |dns.value| >= 4 then Some(dns.value[..4]) else None)
  }

  /** A tail at which scanning stops. */
  predicate Tail(tail: Bytes) {
    tail == [] || (tail[0] != PAD && Stops(tail))
  }

  lemma ScanItem(item: Item, rest: Bytes, f: Found)
    requires WellFormed(item)
    ensures Scan(Encoded(item) + rest, f) == Scan(rest, if item.Opt? then Take(f, item.tag, item.value) else f)
  {
    var s := Encoded(item) + rest;
    match item {
      case Pad => assert s[1..] == rest;
      case Opt(tag, value) => assert s[2 + |value|..] == rest && s[2..2 + |value|] == value;
    }
  }

  lemma SaysOneMore(items: seq<Item>, item: Item, f: Found)
    requires Says(items, f) && WellFormed(item)
    ensures Says(items + [item], if item.Opt? then Take(f, item.tag, item.value) else f)
  {
    assert (items + [item])[..|items|] == items;
  }

  lemma {:induction false} ScanItems(done: seq<Item>, items: seq<Item>, tail: Bytes, f: Found)
    requires AllWellFormed(items) && Tail(tail) && Says(done, f)
    ensures Says(done + items, Scan(Serialize(items) + tail, f))
    decreases |items|
  {
    hide Says, Take, Encoded;
    if items == [] {
      assert Serialize(items) + tail == tail && done + items == done;
    } else {
      var item, rest := items[0], items[1..];
      var f' := if item.Opt? then Take(f, item.tag, item.value) else f;
      assert Serialize(items) + tail == Encoded(item) + (Serialize(rest) + tail);
      ScanItem(item, Serialize(rest) + tail, f);
      SaysOneMore(done, item, f);
      ScanItems(done + [item], rest, tail, f');
      assert done + [item] + rest == done + items;
    }
  }

  /** Scanning a serialised list, pads and all, up to an end tag, the end of the data or a truncated
      option gives the last well-sized value of each recognised tag. */
  lemma ScanIsLastValues(items: seq<Item>, tail: Bytes)
    requires AllWellFormed(items) && Tail(tail)
    ensures Says(items, Scan(Serialize(items) + tail, NOTHING))
  {
    ScanItems([], items, tail, NOTHING);
    assert [] + items == items;
  }

  /** And every byte string is such a list and such a tail. */
  lemma {:induction false} EveryStringIsAList(opts: Bytes) returns (items: seq<Item>, tail: Bytes)
    ensures AllWellFormed(items) && Tail(tail) && opts == Serialize(items) + tail
    decreases |opts|
  {
    if opts == [] || (opts[0] != PAD && Stops(opts)) {
      items, tail := [], opts;
    } else {
      var item := if opts[0] == PAD then Pad else Opt(opts[0], opts[2..2 + opts[1]]);
      var n := |Encoded(item)|;
      assert opts == Encoded(item) + opts[n..];
      var rest;
      rest, tail := EveryStringIsAList(opts[n..]);
      items := [item] + rest;
      assert items[1..] == rest;
    }
  }

  // ---- Messages ----

  predicate IsMac(mac: Bytes) {
    |mac| == 6
  }

  type Mac = mac: Bytes | IsMac(mac) witness [0, 0, 0, 0, 0, 0]

  function Fixed(op: Byte, xid: U32, mac: Mac): (s: Bytes)
    ensures |s| == 236
  {
    [op, 1, 6, 0] + Bytes32(xid) + [0, 0, 0x80, 0] + Zeros(16) + mac + Zeros(202)
  }

  function Options(msgType: Byte, reqIp: Option<Ip>, serverId: Option<Ip>): (items: seq<Item>)
    ensures AllWellFormed(items)
  {
    [Opt(MESSAGE_TYPE, [msgType])]
      + (if reqIp.Some? then [Opt(REQUESTED_IP, reqIp.value)] else [])
      + (if serverId.Some? then [Opt(SERVER_ID, serverId.value)] else [])
      + [Opt(PARAMETERS, [SUBNET, ROUTER, DNS]), Opt(HOST_NAME, [0x6F, 0x73])]
  }

  function Message(op: Byte, xid: U32, mac: Mac, msgType: Byte, reqIp: Option<Ip>, serverId: Option<Ip>): Bytes {
    Fixed(op, xid, mac) + MAGIC_COOKIE + Serialize(Options(msgType, reqIp, serverId)) + [END]
  }

  lemma {:induction false} SerializeAppend(a: seq<Item>, b: seq<Item>)
    requires AllWellFormed(a) && AllWellFormed(b)
    ensures AllWellFormed(a + b) && Serialize(a + b) == Serialize(a) + Serialize(b)
    decreases |a|
  {
    if a == [] {
      assert a + b == b;
    } else {
      assert (a + b)[1..] == a[1..] + b;
      SerializeAppend(a[1..], b);
    }
  }

  lemma SerializeMore(items: seq<Item>, item: Item)
    requires AllWellFormed(items) && WellFormed(item)
    ensures AllWellFormed(items + [item]) && Serialize(items + [item]) == Serialize(items) + Encoded(item)
  {
    SerializeAppend(items, [item]);
    assert [item][1..] == [];
  }

  /** `build_dhcp_msg`: the buffer grows by appending. */
  method BuildMessage(op: Byte, xid: U32, mac: Mac, msgType: Byte, reqIp: Option<Ip>, serverId: Option<Ip>)
    returns (buf: Bytes)
    ensures buf == Message(op, xid, mac, msgType, reqIp, serverId)
  {
    buf := [op];
    buf := buf + [1];
    buf := buf + [6];
    buf := buf + [0];
    buf := buf + Bytes32(xid);
    buf := buf + [0, 0];
    buf := buf + [0x80, 0];
    buf := buf + Zeros(4);
    buf := buf + Zeros(4);
    buf := buf + Zeros(4);
    buf := buf + Zeros(4);
    buf := buf + mac;
    buf := buf + Zeros(10);
    buf := buf + Zeros(64);
    buf := buf + Zeros(128);
    assert buf == Fixed(op, xid, mac);
    buf := buf + MAGIC_COOKIE;
    ghost var head := buf;
    var opts := BuildOptions(msgType, reqIp, serverId);
    buf := buf + opts;
    buf := buf + [END];
    buf := PadTo(buf, DHCP_MSG_SIZE);
  }

  /** The last loop of `build_dhcp_msg`; the options already make the message long enough. */
  method PadTo(buf: Bytes, n: nat) returns (padded: Bytes)
    ensures padded == if |buf| < n then buf + Zeros(n - |buf|) else buf
  {
    padded := buf;
    while |padded| < n
      invariant |buf| <= |padded| && (|padded| == |buf| || |padded| <= n) && padded == buf + Zeros(|padded| - |buf|)
    {
      padded := padded + [0];
    }
  }

  method BuildOptions(msgType: Byte, reqIp: Option<Ip>, serverId: Option<Ip>) returns (opts: Bytes)
    ensures opts == Serialize(Options(msgType, reqIp, serverId))
  {
    hide Serialize;
    ghost var items := [Opt(MESSAGE_TYPE, [msgType])];
    FirstOption(msgType);
    opts := [MESSAGE_TYPE, 1, msgType];
    if reqIp.Some? {
      SerializeMore(items, Opt(REQUESTED_IP, reqIp.value));
      items := items + [Opt(REQUESTED_IP, reqIp.value)];
      opts := opts + ([REQUESTED_IP, 4] + reqIp.value);
    }
    if serverId.Some? {
      SerializeMore(items, Opt(SERVER_ID, serverId.value));
      items := items + [Opt(SERVER_ID, serverId.value)];
      opts := opts + ([SERVER_ID, 4] + serverId.value);
    }
    ghost var d, e := Opt(PARAMETERS, [SUBNET, ROUTER, DNS]), Opt(HOST_NAME, [0x6F, 0x73]);
    SerializeMore(items, d);
    SerializeMore(items + [d], e);
    assert items + [d] + [e] == Options(msgType, reqIp, serverId);
    opts := opts + [PARAMETERS, 3, SUBNET, ROUTER, DNS];
    opts := opts + [HOST_NAME, 2, 0x6F, 0x73];
  }

  lemma FirstOption(msgType: Byte)
    ensures Serialize([Opt(MESSAGE_TYPE, [msgType])]) == [MESSAGE_TYPE, 1, msgType]
  {
    assert [Opt(MESSAGE_TYPE, [msgType])][1..] == [];
  }

  datatype Reply = Reply(msgType: Byte, yiaddr: Option<Ip>, found: Found)

  function ParseReply(data: Bytes, xid: U32, mac: Mac): Option<Reply> {
    if |data| < DHCP_MSG_SIZE || data[0] != OP_BOOTREPLY then None
    else if Be32(data[4], data[5], data[6], data[7]) != xid then None
    else if data[28..34] != mac then None
    else if data[236..240] != MAGIC_COOKIE then None
    else
      var found := Scan(data[240..], NOTHING);
      Some(Reply(found.msgType, if data[16..20] == [0, 0, 0, 0] then None else Some(data[16..20]), found))
  }

  lemma FixedFields(op: Byte, xid: U32, mac: Mac, rest: Bytes)
    ensures var s := Fixed(op, xid, mac) + rest;
      && s[0] == op && Be32(s[4], s[5], s[6], s[7]) == xid && s[28..34] == mac && s[16..20] == Zeros(4)
      && s[236..] == rest
  {
    var s, id := Fixed(op, xid, mac) + rest, Bytes32(xid);
    assert s[4] == id[0] && s[5] == id[1] && s[6] == id[2] && s[7] == id[3];
  }

  lemma SaysNothing()
    ensures Says([], NOTHING)
  {
  }

  lemma SaysOneThing(items: seq<Item>, f: Found, g: Found)
    requires Says(items, f) && Says(items, g)
    ensures f == g
  {
  }

  lemma OptionsSay(msgType: Byte, reqIp: Option<Ip>, serverId: Option<Ip>, f: Found)
    requires Says(Options(msgType, reqIp, serverId), f)
    ensures f == Found(msgType, None, None, None, serverId)
  {
    hide Says;
    var a := [Opt(MESSAGE_TYPE, [msgType])];
    var b := if reqIp.Some? then a + [Opt(REQUESTED_IP, reqIp.value)] else a;
    var c := if serverId.Some? then b + [Opt(SERVER_ID, serverId.value)] else b;
    var d := c + [Opt(PARAMETERS, [SUBNET, ROUTER, DNS])];
    var e := d + [Opt(HOST_NAME, [0x6F, 0x73])];
    assert e == Options(msgType, reqIp, serverId);
    SaysNothing();
    SaysOneMore([], a[0], NOTHING);
    assert [] + [a[0]] == a;
    var got := NOTHING.(msgType := msgType);
    if reqIp.Some? {
      SaysOneMore(a, Opt(REQUESTED_IP, reqIp.value), got);
    }
    if serverId.Some? {
      SaysOneMore(b, Opt(SERVER_ID, serverId.value), got);
    }
    SaysOneMore(c, Opt(PARAMETERS, [SUBNET, ROUTER, DNS]), got.(serverId := serverId));
    SaysOneMore(d, Opt(HOST_NAME, [0x6F, 0x73]), got.(serverId := serverId));
    SaysOneThing(e, f, got.(serverId := serverId));
  }

  /** A built message is read back, with its type and server, exactly by a receiver that expects a reply
      with its transaction id and hardware address. */
  lemma ReplyOfMessage(op: Byte, xid: U32, mac: Mac, msgType: Byte, reqIp: Option<Ip>, serverId: Option<Ip>, xid': U32,
      mac': Mac)
    ensures ParseReply(Message(op, xid, mac, msgType, reqIp, serverId), xid', mac') ==
      if op == OP_BOOTREPLY && xid' == xid && mac' == mac
      then Some(Reply(msgType, None, Found(msgType, None, None, None, serverId)))
      else None
  {
    hide Says, Scan, Serialize, Options, Fixed, Be32;
    var items := Options(msgType, reqIp, serverId);
    var rest := MAGIC_COOKIE + Serialize(items) + [END];
    var data := Message(op, xid, mac, msgType, reqIp, serverId);
    assert data == Fixed(op, xid, mac) + rest;
    FixedFields(op, xid, mac, rest);
    assert rest[..4] == MAGIC_COOKIE && rest[4..] == Serialize(items) + [END];
    assert data[236..][..4] == data[236..240] && data[236..][4..] == data[240..];
    assert Zeros(4) == [0, 0, 0, 0];
    ScanIsLastValues(items, [END]);
    OptionsSay(msgType, reqIp, serverId, Scan(Serialize(items) + [END], NOTHING));
  }
}
