/** Whole calls on files: a write through the inode table, runs of writes, and directory updates on disk. */
module Ext3Writes {
  import opened Basics
  import opened Wire
  import opened Ext3Layout
  import opened Ext3Disk
  import opened Ext3Files
  import opened Ext3Dirs

  datatype Outcome = Outcome(disk: Disk, error: Option<Error>)

  /** The end of `write_file`: write the data, and the inode only when that succeeds. */
  function WriteInto(d: Disk, geo: Geometry, ino: nat, data: Bytes): Outcome
    requires geo.inodesPerGroup > 0 && ino > 0
  {
    match ReadInode(d, geo, ino)
    case Err(e) => Outcome(d, Some(e))
    case Ok(x) => StoreInode(WriteData(d, geo, x, data), geo, ino)
  }

  function StoreInode(w: Written, geo: Geometry, ino: nat): Outcome
    requires geo.inodesPerGroup > 0 && ino > 0
  {
    if w.error.Some? then Outcome(w.disk, w.error)
    else
      match WriteInode(w.disk, geo, ino, w.inode)
      case Err(e) => Outcome(w.disk, Some(e))
      case Ok(d') => Outcome(d', None)
  }

  /** What reading the file of an inode gives. */
  function Content(d: Disk, geo: Geometry, ino: nat): Result<Bytes, Error>
    requires geo.inodesPerGroup > 0 && ino > 0
  {
    match ReadInode(d, geo, ino)
    case Err(e) => Err(e)
    case Ok(x) => ReadFile(d, x)
  }

  lemma MetaSame(d: Disk, d': Disk, role: Roles, ino: nat)
    requires OthersUntouched(d, d', role, ino)
    ensures SameMeta(d, d', role)
  {
  }

  /** Another file's inode and contents are what they were. */
  ghost predicate FileSame(d: Disk, d': Disk, geo: Geometry, j: nat)
    requires ValidIno(geo, j)
  {
    ReadInode(d', geo, j) == ReadInode(d, geo, j) && Content(d', geo, j) == Content(d, geo, j)
  }

  lemma KeptIsSame(d: Disk, d': Disk, geo: Geometry, role: Roles, j: nat)
    requires WellFormed(d, geo, role) && SameMeta(d, d', role) && FileKept(d, d', role, j) && ValidIno(geo, j)
    ensures FileSame(d, d', geo, j)
  {
    hide ReadInode, Marks, MetaOk;
    assert InodeOk(d, geo, role, j);
    InodeFrame(d, d', geo, role, j);
    ReadsTheSame(d, d', role, j, ReadInode(d, geo, j).value, 0);
  }

  lemma OthersSame(d: Disk, d': Disk, geo: Geometry, role: Roles, ino: nat, j: nat)
    requires WellFormed(d, geo, role) && OthersUntouched(d, d', role, ino) && ValidIno(geo, j) && j != ino
    ensures FileSame(d, d', geo, j)
  {
    hide WellFormed;
    MetaSame(d, d', role, ino);
    KeptIsSame(d, d', geo, role, j);
  }

  /** Storing an inode changes no other file, and no file's data. */
  lemma StoreSame(d: Disk, geo: Geometry, role: Roles, ino: nat, x: Inode, j: nat, y: Inode)
    requires MetaOk(d, geo, role) && ValidIno(geo, ino) && ValidIno(geo, j)
    requires ReadInode(d, geo, j) == Ok(y) || j == ino
    requires Mine(role, j, if j == ino then x else y)
    ensures var w := WriteInode(d, geo, ino, x);
      && w.Ok? && ReadInode(w.value, geo, j) == Ok(if j == ino then x else y)
      && Content(w.value, geo, j) == ReadFile(d, if j == ino then x else y)
  {
    hide MetaOk, ReadInode, InodeIn, WithInode;
    InodeSlots(d, geo, role, ino, x, j);
    TableWriteKeepsData(d, geo, role, ino, x, j);
    ReadsTheSame(d, WriteInode(d, geo, ino, x).value, role, j, if j == ino then x else y, 0);
  }

  lemma TableWriteKeepsData(d: Disk, geo: Geometry, role: Roles, ino: nat, x: Inode, j: nat)
    requires MetaOk(d, geo, role) && ValidIno(geo, ino) && WriteInode(d, geo, ino, x).Ok?
    ensures FileKept(d, WriteInode(d, geo, ino, x).value, role, j)
  {
    hide InodeIn, WithInode, DescIn;
    InodeAt(d, geo, role, ino);
  }

  ghost predicate WrittenOne(d: Disk, geo: Geometry, role: Roles, ino: nat, data: Bytes, o: Outcome, role': Roles)
    requires ValidIno(geo, ino)
  {
    && Extends(role, role')
    && (forall j :: ValidIno(geo, j) && j != ino ==> FileSame(d, o.disk, geo, j))
    && (o.error.None? ==> Content(o.disk, geo, ino) == Ok(data))
    && (ReadInode(d, geo, ino).Ok? && DoesNotShrink(ReadInode(d, geo, ino).value, data) ==>
      WellFormed(o.disk, geo, role'))
  }

  /** Writing one file: a success reads back exactly, every other file keeps inode and contents whatever
      happens, and unless the file shrinks every block still has at most one owner and is marked used. */
  lemma WriteOneFile(d: Disk, geo: Geometry, role: Roles, ino: nat, data: Bytes) returns (role': Roles)
    requires WellFormed(d, geo, role) && ValidIno(geo, ino)
    ensures WrittenOne(d, geo, role, ino, data, WriteInto(d, geo, ino, data), role')
  {
    hide WellFormed, MetaOk, ReadInode, WriteInode, WriteData, Content;
    var x := OwnInode(d, geo, role, ino);
    var w := WriteData(d, geo, x, data);
    role' := WriteIsPrivate(d, geo, role, ino, x, data);
    WriteReadsBack(d, geo, role, ino, x, data);
    if w.error.None? {
      StoreSame(w.disk, geo, role', ino, w.inode, ino, w.inode);
      if DoesNotShrink(x, data) {
        WriteInodeKeeps(w.disk, geo, role', ino, w.inode);
      }
    }
    forall j | ValidIno(geo, j) && j != ino ensures FileSame(d, WriteInto(d, geo, ino, data).disk, geo, j) {
      OthersSame(d, w.disk, geo, role, ino, j);
      if w.error.None? {
        OthersStored(d, w, geo, role, role', ino, j);
      }
    }
  }

  lemma OwnInode(d: Disk, geo: Geometry, role: Roles, ino: nat) returns (x: Inode)
    requires WellFormed(d, geo, role) && ValidIno(geo, ino)
    ensures ReadInode(d, geo, ino) == Ok(x) && Mine(role, ino, x)
  {
    hide ReadInode, MetaOk, Marks;
    assert InodeOk(d, geo, role, ino);
    x := ReadInode(d, geo, ino).value;
  }

  lemma MineLater(role: Roles, role': Roles, j: nat, y: Inode)
    requires Mine(role, j, y) && Extends(role, role')
    ensures Mine(role', j, y)
  {
  }

  lemma OthersStored(d: Disk, w: Written, geo: Geometry, role: Roles, role': Roles, ino: nat, j: nat)
    requires WellFormed(d, geo, role) && MetaOk(w.disk, geo, role') && Extends(role, role') && Mine(role', ino, w.inode)
    requires ValidIno(geo, ino) && ValidIno(geo, j) && j != ino && FileSame(d, w.disk, geo, j) && w.error.None?
    ensures WriteInode(w.disk, geo, ino, w.inode).Ok?
    ensures FileSame(d, WriteInode(w.disk, geo, ino, w.inode).value, geo, j)
  {
    hide WellFormed, MetaOk, ReadInode, WriteInode;
    var y := OwnInode(d, geo, role, j);
    MineLater(role, role', j, y);
    StoreSame(w.disk, geo, role', ino, w.inode, j, y);
  }

  // ---- Runs of writes ----

  datatype Run = Run(geo: Geometry, disks: seq<Disk>, files: seq<nat>, datas: seq<Bytes>) {

    /** A write that succeeds and does not shrink its file. */
    ghost predicate StepAt(k: nat)
      requires |disks| == |files| + 1 == |datas| + 1 && k < |files|
    {
      && ValidIno(geo, files[k])
      && WriteInto(disks[k], geo, files[k], datas[k]) == Outcome(disks[k + 1], None)
      && ReadInode(disks[k], geo, files[k]).Ok? && DoesNotShrink(ReadInode(disks[k], geo, files[k]).value, datas[k])
    }

    ghost predicate Ok() {
      |disks| == |files| + 1 == |datas| + 1 && forall k :: 0 <= k < |files| ==> StepAt(k)
    }

    /** What was last written to a file by the first `k` writes. */
    function LastWritten(ino: nat, k: nat): Option<Bytes>
      requires k <= |files| == |datas|
    {
      if k == 0 then None else if files[k - 1] == ino then Some(datas[k - 1]) else LastWritten(ino, k - 1)
    }
  }

  ghost predicate Remembers(run: Run, k: nat, ino: nat)
    requires run.Ok() && k < |run.disks| && ValidIno(run.geo, ino)
  {
    var last := run.LastWritten(ino, k);
    Content(run.disks[k], run.geo, ino) == if last.Some? then Ok(last.value) else Content(run.disks[0], run.geo, ino)
  }

  /** After any run of such writes each file holds what was last written to it, or what it held at the
      start, and no block has two owners. */
  lemma {:induction false} FilesRemember(run: Run, role: Roles, k: nat) returns (role': Roles)
    requires run.Ok() && k < |run.disks| && WellFormed(run.disks[0], run.geo, role)
    ensures WellFormed(run.disks[k], run.geo, role')
    ensures forall ino :: ValidIno(run.geo, ino) ==> Remembers(run, k, ino)
    decreases k
  {
    hide WellFormed, WriteInto, ReadInode, Content;
    role' := role;
    if k > 0 {
      var before := FilesRemember(run, role, k - 1);
      assert run.StepAt(k - 1);
      role' := WriteOneFile(run.disks[k - 1], run.geo, before, run.files[k - 1], run.datas[k - 1]);
      forall ino | ValidIno(run.geo, ino) ensures Remembers(run, k, ino) {
        assert Remembers(run, k - 1, ino);
        assert ino != run.files[k - 1] ==> FileSame(run.disks[k - 1], run.disks[k], run.geo, ino);
      }
    }
  }

  /** No two inodes, and no two places in one inode, share a block; none has a block of the metadata. */
  lemma BlocksAreNotShared(d: Disk, geo: Geometry, role: Roles, i: nat, k: nat, j: nat, l: nat)
    requires WellFormed(d, geo, role) && ValidIno(geo, i) && ValidIno(geo, j) && k < DIRECT && l < DIRECT
    requires i != j || k != l
    ensures ReadInode(d, geo, i).Ok? && ReadInode(d, geo, j).Ok?
    ensures var b, c := ReadInode(d, geo, i).value.block[k], ReadInode(d, geo, j).value.block[l];
      b != 0 ==> b != c && b in role && role[b].Data?
  {
    hide WellFormed, ReadInode;
    var x := OwnInode(d, geo, role, i);
    var y := OwnInode(d, geo, role, j);
    assert x.block[k] != 0 ==> HasRole(role, x.block[k], Data(i, k));
    assert y.block[l] != 0 ==> HasRole(role, y.block[l], Data(j, l));
  }

  // ---- Directory updates on disk ----

  /** `dir_add_entry`. */
  function DirAdd(d: Disk, geo: Geometry, x: Inode, name: Bytes, ino: U32, fileType: Byte): Written {
    match ReadFile(d, x)
    case Err(e) => Written(d, x, Some(e))
    case Ok(raw) =>
      match WithEntry(raw, name, ino, fileType)
      case Err(e) => Written(d, x, Some(e))
      case Ok(longer) => WriteData(d, geo, x, longer)
  }

  /** `dir_remove_entry`. */
  function DirRemove(d: Disk, geo: Geometry, x: Inode, name: Bytes): (Written, U32) {
    match ReadFile(d, x)
    case Err(e) => (Written(d, x, Some(e)), 0)
    case Ok(raw) =>
      match WithoutEntry(raw, name)
      case Err(e) => (Written(d, x, Some(e)), 0)
      case Ok(r) => (WriteData(d, geo, x, r.0), r.1)
  }

  /** A directory whose records tile it. */
  ghost predicate Tiled(d: Disk, x: Inode, records: seq<Record>) {
    ReadFile(d, x).Ok? && Tiles(ReadFile(d, x).value, records)
  }

  /** Adding an entry lists it after the old ones. */
  lemma DirAddLists(d: Disk, geo: Geometry, role: Roles, dir: nat, x: Inode, records: seq<Record>, name: Bytes,
      ino: U32, fileType: Byte)
    requires WellFormed(d, geo, role) && Mine(role, dir, x) && Tiled(d, x, records) && 0 < |name| < 0x100 && ino != 0
    ensures var w := DirAdd(d, geo, x, name, ino, fileType);
      w.error.None? ==>
        && Tiled(w.disk, w.inode, records + [Record(Entry(name, ino, fileType), RecordLength(name))])
        && ReadDir(d, x).Ok?
        && ReadDir(w.disk, w.inode) == Ok(ReadDir(d, x).value + Visible([Entry(name, ino, fileType)]))
  {
    hide WellFormed, WriteData, ReadFile, Tiles, Walk, NewRecord, WithEntry, Visible;
    var raw := ReadFile(d, x).value;
    AddingAppends(raw, records, name, ino, fileType);
    WriteReadsBack(d, geo, role, dir, x, raw + NewRecord(name, ino, fileType));
    VisibleAppend(Walk(raw, 0), [Entry(name, ino, fileType)]);
  }

  /** Behind an unused record, such as the last one leaves when it is removed, an added entry is not listed. */
  lemma DirAddListsExactly(d: Disk, geo: Geometry, role: Roles, dir: nat, x: Inode,
      body: Bytes, records: seq<Record>, tail: Bytes, name: Bytes, ino: U32, fileType: Byte)
    requires WellFormed(d, geo, role) && Mine(role, dir, x) && ReadFile(d, x) == Ok(body + tail)
    requires Tiles(body, records) && (tail == [] || Dead(tail)) && 0 < |name| < 0x100 && ino != 0
    ensures var w := DirAdd(d, geo, x, name, ino, fileType);
      w.error.None? ==>
        && ReadDir(d, x).Ok?
        && ReadDir(w.disk, w.inode) ==
          Ok(ReadDir(d, x).value + if tail == [] then Visible([Entry(name, ino, fileType)]) else [])
  {
    hide WellFormed, WriteData, ReadFile, Tiles, Walk, NewRecord, WithEntry, Visible, Dead;
    AddingListsExactly(body, records, tail, name, ino, fileType);
    WriteReadsBack(d, geo, role, dir, x, WithEntry(body + tail, name, ino, fileType).value);
    VisibleAppend(Walk(body + tail, 0), [Entry(name, ino, fileType)]);
    assert Visible(Walk(body + tail, 0)) + [] == Visible(Walk(body + tail, 0));
  }

  /** Removing an entry lists the others, in order, exactly unless it is the first of several: then nothing
      is listed any more. */
  lemma DirRemoveLists(d: Disk, geo: Geometry, role: Roles, dir: nat, x: Inode, records: seq<Record>, k: nat)
    requires WellFormed(d, geo, role) && Mine(role, dir, x) && Tiled(d, x, records) && DistinctNames(records)
    requires k < |records|
    ensures var (w, ino) := DirRemove(d, geo, x, records[k].entry.name);
      w.error.None? ==>
        && ino == records[k].entry.ino
        && ReadDir(w.disk, w.inode) == Ok(if k > 0 || |records| == 1 then Visible(Dropped(Entries(records), k)) else [])
  {
    hide WellFormed, WriteData, ReadFile, Tiles, Walk, WithoutEntry, Visible;
    var raw, name := ReadFile(d, x).value, records[k].entry.name;
    var (w, _) := DirRemove(d, geo, x, name);
    FileLength(d, x);
    FindsRecord(raw, records, k);
    if w.error.None? {
      RemovedIsShort(d, geo, role, dir, x, raw, name);
      RemovingDropsOne(raw, records, k);
      WriteReadsBack(d, geo, role, dir, x, WithoutEntry(raw, name).value.0);
      assert Visible([]) == [] by {
        NothingVisible();
      }
    }
  }

  lemma NothingVisible()
    ensures Visible([]) == []
  {
  }

  lemma RemovedIsShort(d: Disk, geo: Geometry, role: Roles, dir: nat, x: Inode, raw: Bytes, name: Bytes)
    requires WellFormed(d, geo, role) && Mine(role, dir, x) && WithoutEntry(raw, name).Ok?
    requires WriteData(d, geo, x, WithoutEntry(raw, name).value.0).error.None?
    ensures |raw| < 0x1_0000
  {
    hide WellFormed, WriteData, WithoutEntry;
    RemovedLength(raw, name);
    WrittenIsShort(d, geo, role, dir, x, WithoutEntry(raw, name).value.0);
  }

  lemma RemovedLength(raw: Bytes, name: Bytes)
    ensures WithoutEntry(raw, name).Ok? ==> |WithoutEntry(raw, name).value.0| == |raw|
  {
    hide HeadAt, Absorbed, FindRecord;
    FoundInside(raw, 0, name);
    var found := FindRecord(raw, 0, name);
    if found.Some? {
      AbsorbedLength(raw, 0, found.value, HeadAt(raw, found.value).recLen);
    }
  }

  /** Only what fits the direct blocks can be written. */
  lemma WrittenIsShort(d: Disk, geo: Geometry, role: Roles, ino: nat, x: Inode, data: Bytes)
    requires WellFormed(d, geo, role) && Mine(role, ino, x) && WriteData(d, geo, x, data).error.None?
    ensures |data| <= DIRECT * BLOCK_SIZE
  {
    hide WellFormed, Shrink, Fill, Grow;
    var role' := GrowKeeps(d, geo, role, ino, x, 0, BlocksFor(|data|));
    var grown := Grow(d, geo, x, 0, BlocksFor(|data|));
    FillWrites(grown.disk, role', ino, grown.inode, data, 0);
  }

  lemma FileLength(d: Disk, x: Inode)
    ensures ReadFile(d, x).Ok? ==> |ReadFile(d, x).value| == x.size
  {
    if ReadFile(d, x).Ok? {
      ReadLength(d, x, 0);
    }
  }

  /** On disk as well, adding a new name and removing it again restores the listing. */
  lemma DirAddThenRemove(d: Disk, geo: Geometry, role: Roles, dir: nat, x: Inode, records: seq<Record>, name: Bytes,
      ino: U32, fileType: Byte)
    requires WellFormed(d, geo, role) && Mine(role, dir, x) && Tiled(d, x, records) && DistinctNames(records)
    requires 0 < |name| < 0x100 && ino != 0 && forall k :: 0 <= k < |records| ==> records[k].entry.name != name
    ensures var added := DirAdd(d, geo, x, name, ino, fileType);
      var removed := DirRemove(added.disk, geo, added.inode, name).0;
      added.error.None? && removed.error.None? ==> ReadDir(removed.disk, removed.inode) == ReadDir(d, x)
  {
    hide WellFormed, WriteData, ReadFile, Tiles, Walk, NewRecord, WithEntry, WithoutEntry, Visible, RecordLength;
    var raw := ReadFile(d, x).value;
    FileLength(d, x);
    LongerDoesNotShrink(raw, x, records, name, ino, fileType);
    var longer := WithEntry(raw, name, ino, fileType).value;
    var added := DirAdd(d, geo, x, name, ino, fileType);
    if added.error.None? {
      WrittenIsShort(d, geo, role, dir, x, longer);
      AddThenRemove(raw, records, name, ino, fileType);
      var role' := WriteIsPrivate(d, geo, role, dir, x, longer);
      WriteReadsBack(d, geo, role, dir, x, longer);
      WriteReadsBack(added.disk, geo, role', dir, added.inode, WithoutEntry(longer, name).value.0);
    }
  }

  /** Removing entry `k` and adding another lists the rest and the new one, if entry `k` was neither the first
      nor the last; the new entry of a directory that lost its first or last one is not listed. */
  lemma DirRemoveThenAdd(d: Disk, geo: Geometry, role: Roles, dir: nat, x: Inode, records: seq<Record>, k: nat,
      name: Bytes, ino: U32, fileType: Byte)
    requires WellFormed(d, geo, role) && Mine(role, dir, x) && Tiled(d, x, records) && DistinctNames(records)
    requires k < |records| && 0 < |name| < 0x100 && ino != 0
    ensures var w := DirRemove(d, geo, x, records[k].entry.name).0;
      var added := DirAdd(w.disk, geo, w.inode, name, ino, fileType);
      w.error.None? && added.error.None? ==>
        ReadDir(added.disk, added.inode) == Ok(Visible(Relisted(Entries(records), k, Entry(name, ino, fileType))))
  {
    hide WellFormed, WriteData, ReadFile, Tiles, Walk, WithEntry, WithoutEntry, Visible, Relisted;
    var raw, old_ := ReadFile(d, x).value, records[k].entry.name;
    var w := DirRemove(d, geo, x, old_).0;
    FileLength(d, x);
    FindsRecord(raw, records, k);
    if w.error.None? {
      RemovedIsShort(d, geo, role, dir, x, raw, old_);
      RemoveThenAdd(raw, records, k, name, ino, fileType);
      var less := WithoutEntry(raw, old_).value.0;
      RemovedLength(raw, old_);
      var role' := WriteIsPrivate(d, geo, role, dir, x, less);
      WriteReadsBack(d, geo, role, dir, x, less);
      WriteReadsBack(w.disk, geo, role', dir, w.inode, WithEntry(less, name, ino, fileType).value);
    }
  }

  lemma LongerDoesNotShrink(raw: Bytes, x: Inode, records: seq<Record>, name: Bytes, ino: U32, fileType: Byte)
    requires |raw| == x.size && 0 < |name| < 0x100
    ensures WithEntry(raw, name, ino, fileType).Ok? && DoesNotShrink(x, WithEntry(raw, name, ino, fileType).value)
    ensures |WithEntry(raw, name, ino, fileType).value| == |raw| + RecordLength(name)
  {
    WithEntryAppends(raw, name, ino, fileType);
  }
}
