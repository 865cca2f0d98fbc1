/** Directory contents: chains of records in a byte string. */
module Ext3Dirs {
  import opened Basics
  import opened Wire
  import opened Ext3Layout
  import opened Ext3Disk

  datatype Entry = Entry(name: Bytes, ino: U32, fileType: Byte)

  const HEAD: nat := 8

  /** The fixed part of a record. */
  datatype Head = Head(ino: U32, recLen: U16, nameLen: Byte, fileType: Byte)

  function HeadAt(raw: Bytes, at: nat): Head
    requires at + HEAD <= |raw|
  {
    Head(WordAt(raw, at), Word16At(raw, at + 4), raw[at + 6], raw[at + 7])
  }

  function HeadBytes(h: Head): (s: Bytes)
    ensures |s| == HEAD
  {
    [ByteOf(h.ino, 0), ByteOf(h.ino, 1), ByteOf(h.ino, 2), ByteOf(h.ino, 3), Lo(h.recLen), Hi(h.recLen), h.nameLen,
      h.fileType]
  }

  // ---- Listing ----

  function EntryAt(raw: Bytes, at: nat): seq<Entry>
    requires at + HEAD <= |raw|
  {
    var h := HeadAt(raw, at);
    if at + HEAD + h.nameLen <= |raw| then [Entry(raw[at + HEAD..at + HEAD + h.nameLen], h.ino, h.fileType)] else []
  }

  /** All records up to the first unused one; a record that ends beyond the data is the last. */
  function Walk(raw: Bytes, at: nat): seq<Entry>
    decreases |raw| - at
  {
    if at + HEAD > |raw| then []
    else
      var h := HeadAt(raw, at);
      if h.ino == 0 || h.recLen == 0 then []
      else EntryAt(raw, at) + Walk(raw, at + h.recLen)
  }

  const DOT: Bytes := [0x2E]
  const DOT_DOT: Bytes := [0x2E, 0x2E]

  function Visible(entries: seq<Entry>): (r: seq<Entry>)
    ensures forall e :: e in r ==> e in entries
  {
    if entries == [] then []
    else (if entries[0].name != DOT && entries[0].name != DOT_DOT then [entries[0]] else []) + Visible(entries[1..])
  }

  lemma {:induction false} VisibleAppend(a: seq<Entry>, b: seq<Entry>)
    ensures Visible(a + b) == Visible(a) + Visible(b)
  {
    if a == [] {
      assert a + b == b;
    } else {
      assert (a + b)[1..] == a[1..] + b;
      VisibleAppend(a[1..], b);
    }
  }

  /** `read_dir_inode`. */
  function ReadDir(d: Disk, x: Inode): Result<seq<Entry>, Error> {
    match ReadFile(d, x)
    case Err(e) => Err(e)
    case Ok(raw) => Ok(Visible(Walk(raw, 0)))
  }

  // ---- Adding ----

  function RecordLength(name: Bytes): nat {
    (HEAD + |name| + 3) / 4 * 4
  }

  function NewRecord(name: Bytes, ino: U32, fileType: Byte): (s: Bytes)
    ensures |s| == RecordLength(name)
  {
    HeadBytes(Head(ino, RecordLength(name) % 0x1_0000, |name| % 0x100, fileType)) + name +
      Zeros(RecordLength(name) - HEAD - |name|)
  }

  /** The walk that adjusts the record before the new one. */
  function Relinked(raw: Bytes, at: nat, newOffset: nat): Bytes
    requires at < newOffset && newOffset + HEAD <= |raw|
    decreases newOffset - at
  {
    var h := HeadAt(raw, at);
    var next := at + h.recLen;
    if h.recLen == 0 || next > newOffset then raw
    else if next == newOffset then
      var len: U16 := newOffset - at;
      Patched(raw, at + 4, Bytes16Le(len))
    else Relinked(raw, next, newOffset)
  }

  function Bytes16Le(v: U16): (s: Bytes)
    ensures |s| == 2
  {
    [Lo(v), Hi(v)]
  }

  /** The walk finds a record that already has the length it stores: it never changes anything. */
  lemma {:induction false} RelinkingIsIdle(raw: Bytes, at: nat, newOffset: nat)
    requires at < newOffset && newOffset + HEAD <= |raw|
    ensures Relinked(raw, at, newOffset) == raw
    decreases newOffset - at
  {
    var h := HeadAt(raw, at);
    var next := at + h.recLen;
    if h.recLen == 0 || next > newOffset {
    } else if next == newOffset {
      LeBytes(raw[at + 4], raw[at + 5]);
    } else {
      RelinkingIsIdle(raw, next, newOffset);
    }
  }

  lemma LeBytes(a: Byte, b: Byte)
    ensures Lo(Le16(a, b)) == a && Hi(Le16(a, b)) == b
  {
    Le16Is(a, b);
  }

  /** What `dir_add_entry` writes back. */
  function WithEntry(raw: Bytes, name: Bytes, ino: U32, fileType: Byte): Result<Bytes, Error> {
    if RecordLength(name) % 0x1_0000 < 12 then Err(EntryTooSmall)
    else
      var longer := raw + NewRecord(name, ino, fileType);
      Ok(if |raw| > 0 then Relinked(longer, 0, |raw|) else longer)
  }

  lemma WithEntryAppends(raw: Bytes, name: Bytes, ino: U32, fileType: Byte)
    requires 0 < |name| < 0x100
    ensures WithEntry(raw, name, ino, fileType) == Ok(raw + NewRecord(name, ino, fileType))
  {
    if |raw| > 0 {
      RelinkingIsIdle(raw + NewRecord(name, ino, fileType), 0, |raw|);
    }
  }

  // ---- Removing ----

  function FindRecord(raw: Bytes, at: nat, name: Bytes): Option<nat>
    decreases |raw| - at
  {
    if at + HEAD > |raw| then None
    else
      var h := HeadAt(raw, at);
      if h.ino == 0 || h.recLen == 0 then None
      else if at + HEAD + h.nameLen <= |raw| && raw[at + HEAD..at + HEAD + h.nameLen] == name then Some(at)
      else FindRecord(raw, at + h.recLen, name)
  }

  /** Lengthen the record that leads to `found` by `extra`. */
  function Absorbed(raw: Bytes, at: nat, found: nat, extra: U16): Bytes
    requires at <= found && found + HEAD <= |raw|
    decreases found - at
  {
    var h := HeadAt(raw, at);
    var next := at + h.recLen;
    if h.recLen == 0 || next > found then raw
    else if next == found then Patched(raw, at + 4, Bytes16Le((h.recLen + extra) % 0x1_0000))
    else Absorbed(raw, next, found, extra)
  }

  lemma {:induction false} FoundInside(raw: Bytes, at: nat, name: Bytes)
    ensures var f := FindRecord(raw, at, name); f.Some? ==> at <= f.value && f.value + HEAD <= |raw|
    decreases |raw| - at
  {
    if at + HEAD <= |raw| && HeadAt(raw, at).recLen > 0 {
      FoundInside(raw, at + HeadAt(raw, at).recLen, name);
    }
  }

  /** What `dir_remove_entry` writes back, and the inode it returns. */
  function WithoutEntry(raw: Bytes, name: Bytes): Result<(Bytes, U32), Error> {
    FoundInside(raw, 0, name);
    match FindRecord(raw, 0, name)
    case None => Err(NotInDirectory)
    case Some(found) =>
      var h := HeadAt(raw, found);
      var merged := if found + h.recLen < |raw| then Absorbed(raw, 0, found, h.recLen) else raw;
      AbsorbedLength(raw, 0, found, h.recLen);
      Ok((Patched(merged, found, [0, 0, 0, 0]), h.ino))
  }

  lemma {:induction false} AbsorbedLength(raw: Bytes, at: nat, found: nat, extra: U16)
    requires at <= found && found + HEAD <= |raw|
    ensures |Absorbed(raw, at, found, extra)| == |raw|
    decreases found - at
  {
    var h := HeadAt(raw, at);
    if h.recLen > 0 && at + h.recLen < found {
      AbsorbedLength(raw, at + h.recLen, found, extra);
    }
  }

  // ---- Records that tile the data ----

  datatype Record = Record(entry: Entry, recLen: nat)

  predicate RecordOk(raw: Bytes, r: Record) {
    && 0 < |r.entry.name| < 0x100 && HEAD + |r.entry.name| <= r.recLen <= |raw| && r.recLen < 0x1_0000
    && r.entry.ino != 0
    && HeadAt(raw, 0) == Head(r.entry.ino, r.recLen, |r.entry.name|, r.entry.fileType)
    && raw[HEAD..HEAD + |r.entry.name|] == r.entry.name
  }

  predicate Tiles(raw: Bytes, records: seq<Record>)
    decreases |records|
  {
    if records == [] then raw == []
    else RecordOk(raw, records[0]) && Tiles(raw[records[0].recLen..], records[1..])
  }

  function Entries(records: seq<Record>): (r: seq<Entry>)
    ensures |r| == |records|
    ensures forall k :: 0 <= k < |records| ==> r[k] == records[k].entry
  {
    seq(|records|, k requires 0 <= k < |records| => records[k].entry)
  }

  predicate DistinctNames(records: seq<Record>) {
    forall j, k :: 0 <= j < k < |records| ==> records[j].entry.name != records[k].entry.name
  }

  /** A longer string has the same record at the front. */
  lemma RecordInFront(raw: Bytes, r: Record, rest: Bytes)
    requires RecordOk(raw, r)
    ensures RecordOk(raw + rest, r)
  {
    hide Le32, Le16;
    assert (raw + rest)[HEAD..HEAD + |r.entry.name|] == raw[HEAD..HEAD + |r.entry.name|];
  }

  lemma {:induction false} TilesConcat(a: Bytes, ra: seq<Record>, b: Bytes, rb: seq<Record>)
    requires Tiles(a, ra) && Tiles(b, rb)
    ensures Tiles(a + b, ra + rb)
    decreases |ra|
  {
    hide RecordOk;
    if ra == [] {
      assert a + b == b && ra + rb == rb;
    } else {
      RecordLengthFits(a, ra[0]);
      RecordInFront(a, ra[0], b);
      assert (a + b)[ra[0].recLen..] == a[ra[0].recLen..] + b;
      assert (ra + rb)[1..] == ra[1..] + rb;
      TilesConcat(a[ra[0].recLen..], ra[1..], b, rb);
    }
  }

  lemma RecordLengthFits(a: Bytes, r: Record)
    requires RecordOk(a, r)
    ensures HEAD < r.recLen <= |a|
  {
  }

  lemma TileOne(raw: Bytes, r: Record)
    requires RecordOk(raw, r) && r.recLen == |raw|
    ensures Tiles(raw, [r])
  {
    assert [r][1..] == [];
  }

  /** What follows the tiles is dead when its first record is unused. */
  predicate Dead(tail: Bytes) {
    |tail| >= HEAD && WordAt(tail, 0) == 0
  }

  /** Offsets are relative to where a walk starts. */
  lemma HeadShift(raw: Bytes, n: nat, at: nat)
    requires n + at + HEAD <= |raw|
    ensures HeadAt(raw[n..], at) == HeadAt(raw, n + at) && EntryAt(raw[n..], at) == EntryAt(raw, n + at)
  {
    hide Le32, Le16;
    var tail, h := raw[n..], HeadAt(raw, n + at);
    if at + HEAD + h.nameLen <= |tail| {
      assert tail[at + HEAD..at + HEAD + h.nameLen] == raw[n + at + HEAD..n + at + HEAD + h.nameLen];
    }
  }

  lemma {:induction false} WalkShift(raw: Bytes, n: nat, at: nat)
    requires n <= |raw|
    ensures Walk(raw, n + at) == Walk(raw[n..], at)
    decreases |raw| - at
  {
    hide HeadAt, EntryAt;
    if n + at + HEAD <= |raw| {
      HeadShift(raw, n, at);
      var h := HeadAt(raw, n + at);
      if h.ino != 0 && h.recLen != 0 {
        WalkShift(raw, n, at + h.recLen);
      }
    }
  }

  lemma WalkFirst(raw: Bytes, r: Record)
    requires RecordOk(raw, r)
    ensures Walk(raw, 0) == [r.entry] + Walk(raw[r.recLen..], 0)
  {
    hide Le32, Le16;
    WalkShift(raw, r.recLen, 0);
    assert EntryAt(raw, 0) == [r.entry];
  }

  /** A walk over tiles, with nothing or something dead behind them, lists the tiles. */
  lemma {:induction false} WalkLists(raw: Bytes, records: seq<Record>, tail: Bytes)
    requires Tiles(raw, records) && (tail == [] || Dead(tail))
    ensures Walk(raw + tail, 0) == Entries(records)
    decreases |records|
  {
    hide RecordOk, Le32, Le16, EntryAt;
    var all := raw + tail;
    if records == [] {
      assert all == tail;
    } else {
      var r := records[0];
      RecordLengthFits(raw, r);
      RecordInFront(raw, r, tail);
      assert all[r.recLen..] == raw[r.recLen..] + tail;
      WalkLists(raw[r.recLen..], records[1..], tail);
      WalkFirst(all, r);
      assert Entries(records) == [r.entry] + Entries(records[1..]);
    }
  }

  // ---- Adding to tiles ----

  lemma NewRecordOk(name: Bytes, ino: U32, fileType: Byte)
    requires 0 < |name| < 0x100 && ino != 0
    ensures Tiles(NewRecord(name, ino, fileType), [Record(Entry(name, ino, fileType), RecordLength(name))])
  {
    hide ByteOf, Hi, Lo;
    var raw, h := NewRecord(name, ino, fileType), Head(ino, RecordLength(name), |name|, fileType);
    HeadRoundTrip(h, raw);
    assert raw[HEAD..HEAD + |name|] == name;
    TileOne(raw, Record(Entry(name, ino, fileType), RecordLength(name)));
  }

  lemma HeadRoundTrip(h: Head, raw: Bytes)
    requires |raw| >= HEAD && raw[..HEAD] == HeadBytes(h)
    ensures HeadAt(raw, 0) == h
  {
    hide ByteOf, Le32, Hi, Lo;
    WordOfBytes(h.ino);
    LeWord(h.recLen);
    forall k | 0 <= k < HEAD ensures raw[k] == HeadBytes(h)[k] {
      assert raw[k] == raw[..HEAD][k];
    }
  }

  lemma LeWord(v: U16)
    ensures Le16(Lo(v), Hi(v)) == v
  {
    Le16Is(Lo(v), Hi(v));
  }

  /** Adding an entry to a well-formed directory appends one record. */
  lemma AddingAppends(raw: Bytes, records: seq<Record>, name: Bytes, ino: U32, fileType: Byte)
    requires Tiles(raw, records) && 0 < |name| < 0x100 && ino != 0
    ensures var r := Record(Entry(name, ino, fileType), RecordLength(name));
      var raw' := WithEntry(raw, name, ino, fileType);
      && raw' == Ok(raw + NewRecord(name, ino, fileType)) && Tiles(raw'.value, records + [r])
      && Walk(raw'.value, 0) == Walk(raw, 0) + [r.entry]
  {
    var r := Record(Entry(name, ino, fileType), RecordLength(name));
    WithEntryAppends(raw, name, ino, fileType);
    NewRecordOk(name, ino, fileType);
    TilesConcat(raw, records, NewRecord(name, ino, fileType), [r]);
    WalkLists(raw, records, []);
    WalkLists(raw + NewRecord(name, ino, fileType), records + [r], []);
    assert raw + [] == raw;
    assert raw + NewRecord(name, ino, fileType) + [] == raw + NewRecord(name, ino, fileType);
  }

  /** Behind tiles and an unused record, which removing the last record leaves, a new entry is listed exactly
      when there is no such record. */
  lemma AddingListsExactly(raw: Bytes, records: seq<Record>, tail: Bytes, name: Bytes, ino: U32, fileType: Byte)
    requires Tiles(raw, records) && (tail == [] || Dead(tail)) && 0 < |name| < 0x100 && ino != 0
    ensures WithEntry(raw + tail, name, ino, fileType).Ok?
    ensures var before, after := Walk(raw + tail, 0), Walk(WithEntry(raw + tail, name, ino, fileType).value, 0);
      && after == (if tail == [] then before + [Entry(name, ino, fileType)] else before)
      && (after == before + [Entry(name, ino, fileType)] <==> tail == [])
  {
    hide Walk, Tiles, NewRecord, WithEntry;
    WalkLists(raw, records, tail);
    WithEntryAppends(raw + tail, name, ino, fileType);
    if tail == [] {
      assert raw + tail == raw;
      AddingAppends(raw, records, name, ino, fileType);
    } else {
      var new_ := NewRecord(name, ino, fileType);
      assert raw + tail + new_ == raw + (tail + new_);
      DeadLonger(tail, new_);
      WalkLists(raw, records, tail + new_);
    }
  }

  lemma DeadLonger(tail: Bytes, more: Bytes)
    requires Dead(tail)
    ensures Dead(tail + more)
  {
    hide Le32;
  }

  // ---- Removing from tiles ----

  /** Where record `k` starts. */
  function Offset(records: seq<Record>, k: nat): nat
    requires k <= |records|
  {
    if k == 0 then 0 else records[0].recLen + Offset(records[1..], k - 1)
  }

  lemma {:induction false} OffsetInside(raw: Bytes, records: seq<Record>, k: nat)
    requires Tiles(raw, records) && k < |records|
    ensures Offset(records, k) + records[k].recLen <= |raw| && HEAD < records[k].recLen
    ensures HeadAt(raw, Offset(records, k)).recLen == records[k].recLen
    ensures HeadAt(raw, Offset(records, k)).ino == records[k].entry.ino
    ensures Offset(records, k) + records[k].recLen == |raw| <==> k == |records| - 1
    decreases k
  {
    hide HeadAt;
    if k > 0 {
      var n := records[0].recLen;
      RecordLengthFits(raw, records[0]);
      OffsetInside(raw[n..], records[1..], k - 1);
      HeadShift(raw, n, Offset(records[1..], k - 1));
    } else if |records| > 1 {
      RecordLengthFits(raw[records[0].recLen..], records[1..][0]);
    }
  }

  lemma {:induction false} FindShift(raw: Bytes, n: nat, at: nat, name: Bytes)
    requires n <= |raw|
    ensures var f := FindRecord(raw[n..], at, name);
      FindRecord(raw, n + at, name) == if f.None? then None else Some(n + f.value)
    decreases |raw| - at
  {
    hide HeadAt;
    if n + at + HEAD <= |raw| {
      HeadShift(raw, n, at);
      var h := HeadAt(raw, n + at);
      if at + HEAD + h.nameLen <= |raw[n..]| {
        assert raw[n..][at + HEAD..at + HEAD + h.nameLen] == raw[n + at + HEAD..n + at + HEAD + h.nameLen];
      }
      if h.ino != 0 && h.recLen != 0 {
        FindShift(raw, n, at + h.recLen, name);
      }
    }
  }

  lemma FindFirst(raw: Bytes, r: Record, name: Bytes)
    requires RecordOk(raw, r)
    ensures var f := FindRecord(raw[r.recLen..], 0, name);
      FindRecord(raw, 0, name) ==
        if r.entry.name == name then Some(0) else if f.None? then None else Some(r.recLen + f.value)
  {
    hide Le32, Le16;
    FindShift(raw, r.recLen, 0, name);
  }

  lemma {:induction false} FindsRecord(raw: Bytes, records: seq<Record>, k: nat)
    requires Tiles(raw, records) && k < |records|
    requires forall j :: 0 <= j < k ==> records[j].entry.name != records[k].entry.name
    ensures FindRecord(raw, 0, records[k].entry.name) == Some(Offset(records, k))
    decreases k
  {
    hide RecordOk, FindRecord;
    RecordLengthFits(raw, records[0]);
    FindFirst(raw, records[0], records[k].entry.name);
    if k > 0 {
      FindsRecord(raw[records[0].recLen..], records[1..], k - 1);
    }
  }

  lemma {:induction false} FindsNone(raw: Bytes, records: seq<Record>, name: Bytes)
    requires Tiles(raw, records) && forall k :: 0 <= k < |records| ==> records[k].entry.name != name
    ensures FindRecord(raw, 0, name) == None
    decreases |records|
  {
    if records != [] {
      RecordLengthFits(raw, records[0]);
      FindFirst(raw, records[0], name);
      FindsNone(raw[records[0].recLen..], records[1..], name);
    }
  }

  /** The record at `found` is taken out of the chain. */
  function RemovedAt(raw: Bytes, found: nat): (r: Bytes)
    requires found + HEAD <= |raw|
  {
    var h := HeadAt(raw, found);
    var merged := if found + h.recLen < |raw| then Absorbed(raw, 0, found, h.recLen) else raw;
    AbsorbedLength(raw, 0, found, h.recLen);
    Patched(merged, found, [0, 0, 0, 0])
  }

  lemma {:induction false} AbsorbedShift(raw: Bytes, n: nat, at: nat, found: nat, extra: U16)
    requires at <= found && n + found + HEAD <= |raw|
    ensures Absorbed(raw, n + at, n + found, extra) == raw[..n] + Absorbed(raw[n..], at, found, extra)
    decreases found - at
  {
    hide HeadAt;
    HeadShift(raw, n, at);
    var h := HeadAt(raw, n + at);
    if h.recLen > 0 && at + h.recLen < found {
      AbsorbedShift(raw, n, at + h.recLen, found, extra);
    } else {
      assert raw == raw[..n] + raw[n..];
    }
  }

  lemma RemovedShift(raw: Bytes, n: nat, f: nat)
    requires 0 < n && 0 < f && n + f + HEAD <= |raw| && HeadAt(raw, 0).recLen == n
    ensures RemovedAt(raw, n + f) == raw[..n] + RemovedAt(raw[n..], f)
  {
    hide HeadAt, Patched, Absorbed, EntryAt;
    HeadShift(raw, n, f);
    var h := HeadAt(raw, n + f);
    FirstStep(raw, n, n + f, h.recLen);
    AbsorbedShift(raw, n, 0, f, h.recLen);
    AbsorbedLength(raw[n..], 0, f, h.recLen);
    var merged := if f + h.recLen < |raw| - n then Absorbed(raw[n..], 0, f, h.recLen) else raw[n..];
    assert raw == raw[..n] + raw[n..];
    PatchedShift(raw[..n], merged, f, [0, 0, 0, 0]);
  }

  lemma FirstStep(raw: Bytes, n: nat, found: nat, extra: U16)
    requires 0 < n < found && found + HEAD <= |raw| && HeadAt(raw, 0).recLen == n
    ensures Absorbed(raw, 0, found, extra) == Absorbed(raw, n, found, extra)
  {
    hide HeadAt, Patched;
  }

  lemma PatchedShift(a: Bytes, b: Bytes, at: nat, data: Bytes)
    requires at + |data| <= |b|
    ensures Patched(a + b, |a| + at, data) == a + Patched(b, at, data)
  {
    hide Patched;
  }

  /** The chain without record `k`, whose space the record before it takes over. */
  function Without(records: seq<Record>, k: nat): seq<Record>
    requires 0 < k < |records|
  {
    records[..k - 1] + [records[k - 1].(recLen := records[k - 1].recLen + records[k].recLen)] + records[k + 1..]
  }

  lemma GrownHead(raw: Bytes, r: Record, more: nat, at: nat)
    requires RecordOk(raw, r) && r.recLen + more < 0x1_0000 && r.recLen + more <= |raw| && r.recLen <= at
    requires at + 4 <= |raw|
    ensures RecordOk(Patched(Patched(raw, 4, Bytes16Le(r.recLen + more)), at, [0, 0, 0, 0]),
      r.(recLen := r.recLen + more))
  {
    hide Le32, Le16, Hi, Lo;
    var r' := Patched(Patched(raw, 4, Bytes16Le(r.recLen + more)), at, [0, 0, 0, 0]);
    LeWord(r.recLen + more);
    assert r'[HEAD..HEAD + |r.entry.name|] == raw[HEAD..HEAD + |r.entry.name|];
  }

  lemma SecondRemoved(raw: Bytes, n: nat, len: nat)
    requires 0 < n && n + HEAD <= |raw| && HeadAt(raw, 0).recLen == n && HeadAt(raw, n).recLen == len
    requires n + len < |raw| < 0x1_0000
    ensures RemovedAt(raw, n) == Patched(Patched(raw, 4, Bytes16Le(n + len)), n, [0, 0, 0, 0])
  {
    hide HeadAt, Patched, Bytes16Le, Absorbed;
    AbsorbedByFirst(raw, n, len);
  }

  lemma AbsorbedByFirst(raw: Bytes, n: nat, len: U16)
    requires 0 < n && n + HEAD <= |raw| && HeadAt(raw, 0).recLen == n && n + len < 0x1_0000
    ensures Absorbed(raw, 0, n, len) == Patched(raw, 4, Bytes16Le(n + len))
  {
    hide HeadAt, Patched, Bytes16Le;
  }

  lemma FirstOk(raw: Bytes, records: seq<Record>)
    requires Tiles(raw, records) && records != []
    ensures RecordOk(raw, records[0])
  {
  }

  /** Removing the second record: the first one grows over it. */
  lemma RemoveSecond(raw: Bytes, records: seq<Record>)
    requires Tiles(raw, records) && |records| > 2 && |raw| < 0x1_0000
    ensures Offset(records, 1) + HEAD <= |raw| && Tiles(RemovedAt(raw, Offset(records, 1)), Without(records, 1))
  {
    hide RecordOk, HeadAt, Patched, RemovedAt, Tiles, Without;
    var r, s, n := records[0], records[1], records[0].recLen;
    FirstOk(raw, records);
    RecordLengthFits(raw, r);
    OffsetInside(raw, records, 0);
    OffsetInside(raw, records, 1);
    assert Offset(records, 0) == 0 && Offset(records, 1) == n;
    var r' := RemovedAt(raw, n);
    SecondRemoved(raw, n, s.recLen);
    GrownHead(raw, r, s.recLen, n);
    TailKept(raw, n, s.recLen);
    TilesFromTwo(r', r.(recLen := n + s.recLen), raw, records);
  }

  lemma TailKept(raw: Bytes, n: nat, len: nat)
    requires HEAD < n && HEAD < len && n + len <= |raw| < 0x1_0000
    ensures Patched(Patched(raw, 4, Bytes16Le(n + len)), n, [0, 0, 0, 0])[n + len..] == raw[n..][len..]
  {
    hide Hi, Lo, Patched;
  }

  lemma TilesFromTwo(raw': Bytes, grown: Record, raw: Bytes, records: seq<Record>)
    requires Tiles(raw, records) && |records| > 2 && records[0].recLen <= |raw|
    requires records[1].recLen <= |raw[records[0].recLen..]|
    requires RecordOk(raw', grown) && grown == records[0].(recLen := records[0].recLen + records[1].recLen)
    requires grown.recLen <= |raw'|
    requires raw'[grown.recLen..] == raw[records[0].recLen..][records[1].recLen..]
    ensures Tiles(raw', Without(records, 1))
  {
    hide RecordOk;
    assert records[1..][0] == records[1];
    assert Without(records, 1)[0] == grown && Without(records, 1)[1..] == records[1..][1..];
  }

  lemma {:induction false} RemoveInner(raw: Bytes, records: seq<Record>, k: nat)
    requires Tiles(raw, records) && 0 < k < |records| - 1 && |raw| < 0x1_0000
    ensures Offset(records, k) + HEAD <= |raw| && Tiles(RemovedAt(raw, Offset(records, k)), Without(records, k))
    decreases k
  {
    hide HeadAt, RemovedAt, RecordOk;
    OffsetInside(raw, records, k);
    if k == 1 {
      RemoveSecond(raw, records);
    } else {
      RecordLengthFits(raw, records[0]);
      RemoveInner(raw[records[0].recLen..], records[1..], k - 1);
      RemoveFurtherOn(raw, records, k);
    }
  }

  lemma RemoveFurtherOn(raw: Bytes, records: seq<Record>, k: nat)
    requires Tiles(raw, records) && 1 < k < |records| - 1 && HEAD < records[0].recLen <= |raw|
    requires var rest := raw[records[0].recLen..];
      Offset(records[1..], k - 1) + HEAD <= |rest|
        && Tiles(RemovedAt(rest, Offset(records[1..], k - 1)), Without(records[1..], k - 1))
    ensures Offset(records, k) + HEAD <= |raw| && Tiles(RemovedAt(raw, Offset(records, k)), Without(records, k))
  {
    hide HeadAt, RemovedAt, RecordOk;
    var n, rest := records[0].recLen, records[1..];
    var f := Offset(rest, k - 1);
    OffsetInside(raw, records, 0);
    OffsetPositive(raw[n..], rest, k - 1);
    assert Offset(records, 0) == 0;
    RemovedShift(raw, n, f);
    FrontAlone(raw, records);
    assert Without(records, k) == [records[0]] + Without(rest, k - 1);
    TilesConcat(raw[..n], [records[0]], RemovedAt(raw[n..], f), Without(rest, k - 1));
  }

  lemma OffsetPositive(raw: Bytes, records: seq<Record>, k: nat)
    requires Tiles(raw, records) && 0 < k < |records|
    ensures Offset(records, k) > 0
  {
    RecordLengthFits(raw, records[0]);
  }

  lemma FrontAlone(raw: Bytes, records: seq<Record>)
    requires Tiles(raw, records) && records != []
    ensures Tiles(raw[..records[0].recLen], [records[0]])
  {
    hide Le32, Le16;
    var r := records[0];
    RecordLengthFits(raw, r);
    var front := raw[..r.recLen];
    assert front[HEAD..HEAD + |r.entry.name|] == raw[HEAD..HEAD + |r.entry.name|];
    TileOne(front, r);
  }

  lemma {:induction false} TilesTake(raw: Bytes, records: seq<Record>, k: nat)
    requires Tiles(raw, records) && k <= |records|
    ensures Offset(records, k) <= |raw| && Tiles(raw[..Offset(records, k)], records[..k])
    decreases k
  {
    hide HeadAt, RecordOk;
    if k > 0 {
      var n, rest := records[0].recLen, records[1..];
      RecordLengthFits(raw, records[0]);
      TilesTake(raw[n..], rest, k - 1);
      FrontAlone(raw, records);
      TilesConcat(raw[..n], [records[0]], raw[n..][..Offset(rest, k - 1)], rest[..k - 1]);
      assert raw[..n] + raw[n..][..Offset(rest, k - 1)] == raw[..Offset(records, k)];
      assert [records[0]] + rest[..k - 1] == records[..k];
    }
  }

  /** What removing record `k` leaves: records that tile, then perhaps an unused one. */
  datatype Rest = Rest(body: Bytes, records: seq<Record>, tail: Bytes)

  ghost predicate RestOf(raw: Bytes, r: Rest) {
    raw == r.body + r.tail && Tiles(r.body, r.records) && (r.tail == [] || Dead(r.tail))
  }

  /** A zeroed last record is dead: what is before it still tiles. */
  lemma RemoveLast(raw: Bytes, records: seq<Record>, k: nat) returns (rest: Rest)
    requires Tiles(raw, records) && k == |records| - 1
    ensures Offset(records, k) + HEAD <= |raw| && RestOf(RemovedAt(raw, Offset(records, k)), rest)
    ensures rest.records == records[..k] && rest.tail != []
  {
    hide HeadAt, RecordOk, Patched, RemovedAt, Tiles, Offset;
    OffsetInside(raw, records, k);
    TilesTake(raw, records, k);
    var at := Offset(records, k);
    var r' := Patched(raw, at, [0, 0, 0, 0]);
    LastRemoved(raw, at);
    ZeroedIsDead(raw, at);
    assert r'[..at] == raw[..at];
    assert r' == r'[..at] + r'[at..];
    rest := Rest(raw[..at], records[..k], r'[at..]);
  }

  lemma LastRemoved(raw: Bytes, at: nat)
    requires at + HEAD <= |raw| && at + HeadAt(raw, at).recLen == |raw|
    ensures RemovedAt(raw, at) == Patched(raw, at, [0, 0, 0, 0])
  {
    hide HeadAt, Patched;
  }

  lemma ZeroedIsDead(raw: Bytes, at: nat)
    requires at + HEAD <= |raw|
    ensures Dead(Patched(raw, at, [0, 0, 0, 0])[at..])
  {
    Le32Is(0, 0, 0, 0);
  }

  /** A zeroed first record hides everything behind it. */
  lemma RemoveFirst(raw: Bytes, records: seq<Record>)
    requires Tiles(raw, records) && |records| > 1
    ensures HEAD <= |raw| && RemovedAt(raw, 0) != [] && RestOf(RemovedAt(raw, 0), Rest([], [], RemovedAt(raw, 0)))
  {
    hide HeadAt, RecordOk, Patched, RemovedAt, Dead;
    OffsetInside(raw, records, 0);
    FirstRemoved(raw);
    ZeroedIsDead(raw, 0);
    var r' := RemovedAt(raw, 0);
    assert [] + r' == r' == r'[0..];
  }

  lemma FirstRemoved(raw: Bytes)
    requires |raw| >= HEAD
    ensures RemovedAt(raw, 0) == Patched(raw, 0, [0, 0, 0, 0])
  {
    hide HeadAt, Patched;
  }

  function Dropped(entries: seq<Entry>, k: nat): seq<Entry>
    requires k < |entries|
  {
    entries[..k] + entries[k + 1..]
  }

  lemma RemovedRest(raw: Bytes, records: seq<Record>, k: nat) returns (rest: Rest)
    requires Tiles(raw, records) && k < |records| && |raw| < 0x1_0000
    ensures Offset(records, k) + HEAD <= |raw| && RestOf(RemovedAt(raw, Offset(records, k)), rest)
    ensures Entries(rest.records) == if k > 0 || |records| == 1 then Dropped(Entries(records), k) else []
    ensures rest.tail == [] <==> 0 < k < |records| - 1
  {
    hide HeadAt, RemovedAt, RecordOk, Tiles, Dead;
    if k == |records| - 1 {
      rest := RemoveLast(raw, records, k);
      assert Entries(records[..k]) == Dropped(Entries(records), k);
    } else if k == 0 {
      RemoveFirst(raw, records);
      assert Offset(records, 0) == 0;
      rest := Rest([], [], RemovedAt(raw, 0));
    } else {
      RemoveInner(raw, records, k);
      var r' := RemovedAt(raw, Offset(records, k));
      rest := Rest(r', Without(records, k), []);
      assert r' + [] == r';
      EntriesWithout(records, k);
    }
  }

  lemma EntriesWithout(records: seq<Record>, k: nat)
    requires 0 < k < |records|
    ensures Entries(Without(records, k)) == Dropped(Entries(records), k)
  {
  }

  lemma WithoutRest(raw: Bytes, records: seq<Record>, k: nat) returns (rest: Rest)
    requires Tiles(raw, records) && DistinctNames(records) && k < |records| && |raw| < 0x1_0000
    ensures var r := WithoutEntry(raw, records[k].entry.name);
      r.Ok? && r.value.1 == records[k].entry.ino && |r.value.0| == |raw| && RestOf(r.value.0, rest)
    ensures Entries(rest.records) == if k > 0 || |records| == 1 then Dropped(Entries(records), k) else []
    ensures rest.tail == [] <==> 0 < k < |records| - 1
  {
    hide HeadAt, Tiles, RecordOk, Absorbed, RestOf;
    FindsRecord(raw, records, k);
    OffsetInside(raw, records, k);
    rest := RemovedRest(raw, records, k);
    AbsorbedLength(raw, 0, Offset(records, k), HeadAt(raw, Offset(records, k)).recLen);
    assert WithoutEntry(raw, records[k].entry.name).value.0 == RemovedAt(raw, Offset(records, k));
  }

  /** Removing record `k` leaves the listing without it, exactly unless it is the first of several: then
      nothing is listed any more. */
  lemma RemovingDropsOne(raw: Bytes, records: seq<Record>, k: nat)
    requires Tiles(raw, records) && DistinctNames(records) && k < |records| && |raw| < 0x1_0000
    ensures var r := WithoutEntry(raw, records[k].entry.name);
      && r.Ok? && r.value.1 == records[k].entry.ino && |r.value.0| == |raw|
      && Walk(r.value.0, 0) == (if k > 0 || |records| == 1 then Dropped(Entries(records), k) else [])
      && (Walk(r.value.0, 0) == Dropped(Entries(records), k) <==> k > 0 || |records| == 1)
  {
    hide Tiles, Walk, WithoutEntry, Dead;
    var rest := WithoutRest(raw, records, k);
    WalkLists(rest.body, rest.records, rest.tail);
  }

  /** Removing record `k` and then adding an entry lists the others and the new one, exactly when the removed
      record was neither the first nor the last. */
  lemma RemoveThenAdd(raw: Bytes, records: seq<Record>, k: nat, name: Bytes, ino: U32, fileType: Byte)
    requires Tiles(raw, records) && DistinctNames(records) && k < |records| && |raw| < 0x1_0000
    requires 0 < |name| < 0x100 && ino != 0
    ensures WithoutEntry(raw, records[k].entry.name).Ok?
    ensures var added := WithEntry(WithoutEntry(raw, records[k].entry.name).value.0, name, ino, fileType);
      && added.Ok?
      && Walk(added.value, 0) == Relisted(Entries(records), k, Entry(name, ino, fileType))
      && (Walk(added.value, 0) == Dropped(Entries(records), k) + [Entry(name, ino, fileType)] <==>
        0 < k < |records| - 1)
  {
    hide Tiles, Walk, WithoutEntry, WithEntry, Dead;
    var rest := WithoutRest(raw, records, k);
    WalkLists(rest.body, rest.records, rest.tail);
    AddingListsExactly(rest.body, rest.records, rest.tail, name, ino, fileType);
    assert |Dropped(Entries(records), k)| == |records| - 1;
  }

  /** The listing after entry `k` was removed and then `e` added. */
  function Relisted(entries: seq<Entry>, k: nat, e: Entry): seq<Entry>
    requires k < |entries|
  {
    if k == |entries| - 1 then Dropped(entries, k)
    else if k == 0 then []
    else Dropped(entries, k) + [e]
  }

  lemma RemovingNeedsTheName(raw: Bytes, records: seq<Record>, name: Bytes)
    requires Tiles(raw, records) && DistinctNames(records)
    ensures WithoutEntry(raw, name) == Err(NotInDirectory) <==>
      forall k :: 0 <= k < |records| ==> records[k].entry.name != name
  {
    if k :| 0 <= k < |records| && records[k].entry.name == name {
      FindsRecord(raw, records, k);
    } else {
      FindsNone(raw, records, name);
    }
  }

  /** Adding a new name and removing it again restores the listing. */
  lemma AddThenRemove(raw: Bytes, records: seq<Record>, name: Bytes, ino: U32, fileType: Byte)
    requires Tiles(raw, records) && DistinctNames(records) && 0 < |name| < 0x100 && ino != 0
    requires forall k :: 0 <= k < |records| ==> records[k].entry.name != name
    requires |raw| + RecordLength(name) < 0x1_0000
    ensures var added := WithEntry(raw, name, ino, fileType);
      && added.Ok? && WithoutEntry(added.value, name).Ok? && WithoutEntry(added.value, name).value.1 == ino
      && Walk(WithoutEntry(added.value, name).value.0, 0) == Walk(raw, 0)
  {
    hide Walk, Tiles, WithEntry, WithoutEntry, NewRecord, RecordLength;
    AddingAppends(raw, records, name, ino, fileType);
    var r := Record(Entry(name, ino, fileType), RecordLength(name));
    var all := records + [r];
    RemovingDropsOne(raw + NewRecord(name, ino, fileType), all, |records|);
    WalkLists(raw, records, []);
    assert raw + [] == raw;
    assert Dropped(Entries(all), |records|) == Entries(records);
  }
}
