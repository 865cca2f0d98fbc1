/** Path lookup, file creation, and why `write_file` ends. */
module Ext3Paths {
  import opened Basics
  import opened Wire
  import opened HeapMath
  import opened Bits
  import opened Ext3Layout
  import opened Ext3Disk
  import opened Ext3Files
  import opened Ext3Dirs
  import opened Ext3Writes

  const SLASH: Byte := 0x2F
  const ROOT: nat := 2
  const S_IFREG_644: U16 := 0x81A4
  const FT_REG: Byte := 1

  /** The directory bit of the mode. */
  predicate IsDir(x: Inode) {
    Bit(x.mode, 14)
  }

  // ---- Paths ----

  /** `split('/')`. */
  function Components(path: Bytes): (r: seq<Bytes>)
    ensures r != []
  {
    if path == [] then [[]]
    else if path[0] == SLASH then [[]] + Components(path[1..])
    else var rest := Components(path[1..]); [[path[0]] + rest[0]] + rest[1..]
  }

  /** `rfind('/')`. */
  function LastSlash(path: Bytes): (r: Option<nat>)
    ensures r.Some? ==> r.value < |path|
  {
    if path == [] then None
    else if path[|path| - 1] == SLASH then Some(|path| - 1)
    else LastSlash(path[..|path| - 1])
  }

  function Lookup(entries: seq<Entry>, name: Bytes): (r: Option<Entry>)
    ensures r.Some? ==> r.value in entries && r.value.name == name
    ensures r.None? ==> forall e :: e in entries ==> e.name != name
  {
    if entries == [] then None
    else if entries[0].name == name then Some(entries[0])
    else Lookup(entries[1..], name)
  }

  lemma {:induction false} WalkedUsed(raw: Bytes, at: nat)
    ensures forall e :: e in Walk(raw, at) ==> e.ino != 0
    decreases |raw| - at
  {
    if at + HEAD <= |raw| && HeadAt(raw, at).ino != 0 && HeadAt(raw, at).recLen != 0 {
      WalkedUsed(raw, at + HeadAt(raw, at).recLen);
    }
  }

  lemma ListedUsed(d: Disk, x: Inode)
    ensures ReadDir(d, x).Ok? ==> forall e :: e in ReadDir(d, x).value ==> e.ino != 0
  {
    if ReadFile(d, x).Ok? {
      WalkedUsed(ReadFile(d, x).value, 0);
    }
  }

  /** The loop of `walk` from an inode on. */
  function Follow(d: Disk, geo: Geometry, ino: nat, x: Inode, components: seq<Bytes>): (r: Result<(nat, Inode), Error>)
    requires geo.inodesPerGroup > 0 && ino > 0
    ensures r.Ok? ==> r.value.0 > 0
    decreases |components|
  {
    if components == [] then Ok((ino, x))
    else if components[0] == [] then Follow(d, geo, ino, x, components[1..])
    else if !IsDir(x) then Err(NotADirectory)
    else
      match ReadDir(d, x)
      case Err(e) => Err(e)
      case Ok(entries) =>
        match Lookup(entries, components[0])
        case None => Err(FileNotFound)
        case Some(e) =>
          ListedUsed(d, x);
          match ReadInode(d, geo, e.ino)
          case Err(err) => Err(err)
          case Ok(y) => Follow(d, geo, e.ino, y, components[1..])
  }

  /** `walk` from the root. */
  function Locate(d: Disk, geo: Geometry, path: Bytes): (r: Result<(nat, Inode), Error>)
    requires geo.inodesPerGroup > 0
    ensures r.Ok? ==> r.value.0 > 0
  {
    match ReadInode(d, geo, ROOT)
    case Err(e) => Err(e)
    case Ok(x) => if path == [] || path == [SLASH] then Ok((ROOT, x)) else Follow(d, geo, ROOT, x, Components(path))
  }

  // ---- Directories that name existing inodes ----

  /** Records, then nothing or an unused record; every record names an inode that exists. */
  ghost predicate Shaped(geo: Geometry, raw: Bytes, records: seq<Record>, n: nat) {
    && n <= |raw| && Tiles(raw[..n], records) && (raw[n..] == [] || Dead(raw[n..]))
    && forall k :: 0 <= k < |records| ==> ValidIno(geo, records[k].entry.ino)
  }

  ghost predicate DirectoryData(geo: Geometry, raw: Bytes) {
    exists records, n: nat :: Shaped(geo, raw, records, n)
  }

  ghost predicate DirOk(d: Disk, geo: Geometry, i: nat)
    requires ValidIno(geo, i)
  {
    var x := ReadInode(d, geo, i);
    x.Ok? && IsDir(x.value) ==> ReadFile(d, x.value).Ok? && DirectoryData(geo, ReadFile(d, x.value).value)
  }

  ghost predicate DirsOk(d: Disk, geo: Geometry) {
    forall i :: ValidIno(geo, i) ==> DirOk(d, geo, i)
  }

  ghost function ClearBits(b: Block, limit: nat): set<nat>
    requires limit <= BITS
  {
    set k | 0 <= k < limit && !BitAt(b, k)
  }

  /** The clear bits of the inode bitmap that `alloc_inode` may still take. */
  ghost function FreeInodes(d: Disk, geo: Geometry): set<nat>
    requires DescBlock(0) in d && Bitmaps(d).inodeBitmap in d
  {
    ClearBits(d[Bitmaps(d).inodeBitmap], Limit(geo.inodesPerGroup))
  }

  ghost function FreeSet(d: Disk, geo: Geometry): set<nat> {
    if DescBlock(0) in d && Bitmaps(d).inodeBitmap in d then FreeInodes(d, geo) else {}
  }

  /** `alloc_inode` does not hand this inode out. */
  ghost predicate Taken(d: Disk, geo: Geometry, ino: nat) {
    ino > 0 && ino - 1 !in FreeSet(d, geo)
  }

  /** Directory `i` has this entry. */
  ghost predicate Names(d: Disk, geo: Geometry, i: nat, e: Entry)
    requires ValidIno(geo, i)
  {
    var x := ReadInode(d, geo, i);
    x.Ok? && IsDir(x.value) && ReadFile(d, x.value).Ok? && e in Walk(ReadFile(d, x.value).value, 0)
  }

  /** The root, and every inode that some directory names, is marked used. */
  ghost predicate NamesTaken(d: Disk, geo: Geometry) {
    Taken(d, geo, ROOT) && forall i, e :: ValidIno(geo, i) && Names(d, geo, i, e) ==> Taken(d, geo, e.ino)
  }

  /** A well-formed file system. */
  ghost predicate Sound(d: Disk, geo: Geometry, role: Roles) {
    WellFormed(d, geo, role) && DirsOk(d, geo) && NamesTaken(d, geo) && ValidIno(geo, ROOT)
  }

  lemma ListsExisting(geo: Geometry, raw: Bytes)
    requires DirectoryData(geo, raw)
    ensures forall e :: e in Walk(raw, 0) ==> ValidIno(geo, e.ino)
  {
    hide Tiles, Walk, ValidIno;
    var records, n: nat :| Shaped(geo, raw, records, n);
    WalkLists(raw[..n], records, raw[n..]);
    assert raw[..n] + raw[n..] == raw;
  }

  /** A lookup ends at an inode that exists, as it is on disk. */
  lemma {:induction false} FollowStaysInside(d: Disk, geo: Geometry, ino: nat, x: Inode, components: seq<Bytes>)
    requires geo.inodesPerGroup > 0 && DirsOk(d, geo) && ValidIno(geo, ino) && ReadInode(d, geo, ino) == Ok(x)
    ensures var r := Follow(d, geo, ino, x, components);
      r.Ok? ==> ValidIno(geo, r.value.0) && ReadInode(d, geo, r.value.0) == Ok(r.value.1)
    decreases |components|
  {
    hide ReadInode, Walk, DirectoryData, Visible;
    if components != [] {
      if components[0] == [] {
        FollowStaysInside(d, geo, ino, x, components[1..]);
      } else if IsDir(x) {
        assert DirOk(d, geo, ino);
        ListsExisting(geo, ReadFile(d, x).value);
        var e := Lookup(ReadDir(d, x).value, components[0]);
        ListedUsed(d, x);
        if e.Some? && ReadInode(d, geo, e.value.ino).Ok? {
          FollowStaysInside(d, geo, e.value.ino, ReadInode(d, geo, e.value.ino).value, components[1..]);
        }
      }
    }
  }

  lemma LocateStaysInside(d: Disk, geo: Geometry, role: Roles, path: Bytes)
    requires Sound(d, geo, role)
    ensures geo.inodesPerGroup > 0
    ensures var r := Locate(d, geo, path);
      r.Ok? ==> ValidIno(geo, r.value.0) && ReadInode(d, geo, r.value.0) == Ok(r.value.1)
  {
    hide ReadInode, Follow, Components, DirsOk, WellFormed;
    var x := OwnInode(d, geo, role, ROOT);
    FollowStaysInside(d, geo, ROOT, x, Components(path));
  }

  /** Every inode that a lookup ends at is marked used. */
  lemma {:induction false} FollowEndsTaken(d: Disk, geo: Geometry, ino: nat, x: Inode, components: seq<Bytes>)
    requires geo.inodesPerGroup > 0 && DirsOk(d, geo) && NamesTaken(d, geo)
    requires ValidIno(geo, ino) && Taken(d, geo, ino) && ReadInode(d, geo, ino) == Ok(x)
    ensures var r := Follow(d, geo, ino, x, components); r.Ok? ==> Taken(d, geo, r.value.0)
    decreases |components|
  {
    hide ReadInode, Walk, DirectoryData, Visible, FreeSet;
    if components != [] {
      if components[0] == [] {
        FollowEndsTaken(d, geo, ino, x, components[1..]);
      } else if IsDir(x) {
        assert DirOk(d, geo, ino);
        ListsExisting(geo, ReadFile(d, x).value);
        var e := Lookup(ReadDir(d, x).value, components[0]);
        ListedUsed(d, x);
        if e.Some? && ReadInode(d, geo, e.value.ino).Ok? {
          assert Names(d, geo, ino, e.value);
          FollowEndsTaken(d, geo, e.value.ino, ReadInode(d, geo, e.value.ino).value, components[1..]);
        }
      }
    }
  }

  lemma LocateEndsTaken(d: Disk, geo: Geometry, role: Roles, path: Bytes)
    requires Sound(d, geo, role)
    ensures geo.inodesPerGroup > 0
    ensures var r := Locate(d, geo, path); r.Ok? ==> Taken(d, geo, r.value.0)
  {
    hide ReadInode, Follow, Components, DirsOk, WellFormed, Taken;
    var x := OwnInode(d, geo, role, ROOT);
    FollowEndsTaken(d, geo, ROOT, x, Components(path));
  }

  // ---- create_file ----

  function EmptyFile(): Inode {
    Inode(S_IFREG_644, 0, 0, 0, 0, 0, 0, 0, 1, 0, 0, 0, [0, 0, 0, 0, 0, 0, 0, 0, 0, 0, 0, 0, 0, 0, 0], 0, 0, 0, 0)
  }

  /** Where a new file goes. */
  datatype Place = Place(parent: nat, inode: Inode, name: Bytes)

  function ParentOf(d: Disk, geo: Geometry, parent: Bytes, name: Bytes): (r: Result<Place, Error>)
    requires geo.inodesPerGroup > 0
    ensures r.Ok? ==> r.value.parent > 0 && r.value.name == name
  {
    var found := Locate(d, geo, parent);
    if found.Err? then Err(found.error)
    else
      var x := found.value.1;
      if !IsDir(x) then Err(NotADirectory)
      else
        var entries := ReadDir(d, x);
        if entries.Err? then Err(entries.error)
        else if Lookup(entries.value, name).Some? then Err(FileExists)
        else Ok(Place(found.value.0, x, name))
  }

  /** The checks of `create_file`: the parent directory and the new name. */
  function Target(d: Disk, geo: Geometry, path: Bytes): (r: Result<Place, Error>)
    requires geo.inodesPerGroup > 0
    ensures r.Ok? ==> r.value.parent > 0 && 0 < |r.value.name| < 0x100
  {
    hide ParentOf;
    var at := LastSlash(path);
    if at.None? || path[..at.value] == [] then Err(NeedAbsolutePath)
    else
      var name := path[at.value + 1..];
      if name == [] || |name| > 255 then Err(InvalidName) else ParentOf(d, geo, path[..at.value], name)
  }

  /** Make an empty inode: the disk after it, and its number. */
  function NewInode(d: Disk, geo: Geometry): (r: (Disk, Result<nat, Error>))
    requires geo.inodesPerGroup > 0
    ensures r.1.Ok? ==> 0 < r.1.value <= BITS
  {
    var taken := AllocInode(d, geo);
    if taken.Err? then (d, Err(taken.error))
    else
      var (d', ino) := taken.value;
      var written := WriteInode(d', geo, ino, EmptyFile());
      if written.Err? then (d', Err(written.error)) else (written.value, Ok(ino))
  }

  /** `create_file`. */
  function CreateFile(d: Disk, geo: Geometry, path: Bytes): Outcome
    requires geo.inodesPerGroup > 0
  {
    var target := Target(d, geo, path);
    if target.Err? then Outcome(d, Some(target.error))
    else
      var (d', ino) := NewInode(d, geo);
      var p := target.value;
      if ino.Err? then Outcome(d', Some(ino.error))
      else StoreInode(DirAdd(d', geo, p.inode, p.name, ino.value, FT_REG), geo, p.parent)
  }

  // ---- What creation keeps ----

  lemma OneBitTaken(b: Block, limit: nat, k: nat)
    requires k < limit <= BITS && !BitAt(b, k)
    ensures k in ClearBits(b, limit) && ClearBits(WithBit(b, k, true), limit) == ClearBits(b, limit) - {k}
  {
    hide BitAt, WithBit;
    forall j | 0 <= j < limit ensures BitAt(WithBit(b, k, true), j) <==> BitAt(b, j) || j == k {
      WithBitMeans(b, k, true, j);
    }
  }

  /** Everything but the inode bitmap is the same. */
  ghost predicate OnlyInodeBitmap(d: Disk, d': Disk, role: Roles) {
    d'.Keys == d.Keys && forall b :: b in role && b in d && !role[b].InodeBitmap? ==> d'[b] == d[b]
  }

  lemma InodeBitmapKeeps(d: Disk, d': Disk, geo: Geometry, role: Roles)
    requires WellFormed(d, geo, role) && OnlyInodeBitmap(d, d', role)
    ensures WellFormed(d', geo, role) && Bitmaps(d') == Bitmaps(d)
  {
    hide BitAt, TableBlocks, InodesOk;
    MetaFrame(d, d', geo, role, role);
    InodesFrame(d, d', geo, role, role);
  }

  lemma AllocInodeTakes(d: Disk, geo: Geometry, role: Roles)
    requires MetaOk(d, geo, role) && AllocInode(d, geo).Ok?
    ensures var (d', ino) := AllocInode(d, geo).value; var bm := Bitmaps(d).inodeBitmap;
      && ValidIno(geo, ino) && bm in d && !BitAt(d[bm], ino - 1)
      && d' == d[bm := WithBit(d[bm], ino - 1, true)] && OnlyInodeBitmap(d, d', role)
  {
    hide BitAt, WithBit, MetaOk, ReadDesc, Bitmaps, FirstClear, Limit;
    PositiveGroups(d, geo, role);
    BitmapsThere(d, geo, role);
    FirstGroup(geo, AllocInode(d, geo).value.1);
  }

  lemma FirstGroup(geo: Geometry, ino: nat)
    requires geo.inodesPerGroup > 0 && geo.groups > 0 && 0 < ino <= Limit(geo.inodesPerGroup)
    ensures ValidIno(geo, ino)
  {
    assert Quotient(ino - 1, geo.inodesPerGroup) == 0;
  }

  lemma PositiveGroups(d: Disk, geo: Geometry, role: Roles)
    requires MetaOk(d, geo, role)
    ensures geo.inodesPerGroup > 0 && geo.groups > 0
  {
  }

  lemma AllocInodeKeeps(d: Disk, geo: Geometry, role: Roles)
    requires WellFormed(d, geo, role) && AllocInode(d, geo).Ok?
    ensures var (d', ino) := AllocInode(d, geo).value;
      && WellFormed(d', geo, role) && ValidIno(geo, ino) && OnlyInodeBitmap(d, d', role)
      && Bitmaps(d) == Bitmaps(d') && ino - 1 in FreeInodes(d, geo)
      && FreeInodes(d', geo) == FreeInodes(d, geo) - {ino - 1}
  {
    hide BitAt, WithBit, WellFormed, MetaOk, AllocInode, DescIn, ClearBits;
    WellFormedMeta(d, geo, role);
    BitmapsThere(d, geo, role);
    AllocInodeTakes(d, geo, role);
    var (d', ino) := AllocInode(d, geo).value;
    InodeBitmapKeeps(d, d', geo, role);
    assert ino <= Limit(geo.inodesPerGroup);
    OneBitTaken(d[Bitmaps(d).inodeBitmap], Limit(geo.inodesPerGroup), ino - 1);
  }

  /** The inode bitmap and the descriptors are the same on both disks. */
  ghost predicate SameInodeBitmap(d: Disk, d': Disk, role: Roles) {
    d'.Keys == d.Keys && forall b :: b in role && b in d && (role[b].InodeBitmap? || role[b].Descs?) ==> d'[b] == d[b]
  }

  lemma SameFreeInodes(d: Disk, d': Disk, geo: Geometry, role: Roles)
    requires MetaOk(d, geo, role) && SameInodeBitmap(d, d', role)
    ensures DescBlock(0) in d' && Bitmaps(d') == Bitmaps(d) && FreeInodes(d', geo) == FreeInodes(d, geo)
  {
    hide TableBlocks, DescIn, ClearBits;
    BitmapsThere(d, geo, role);
    assert GroupOk(d, geo, role, 0);
  }

  // ---- The new inode ----

  ghost predicate MadeInode(d: Disk, geo: Geometry, role: Roles, d': Disk, ino: nat) {
    && WellFormed(d', geo, role) && ValidIno(geo, ino)
    && (forall j :: ValidIno(geo, j) && j != ino ==> FileSame(d, d', geo, j))
    && ReadInode(d', geo, ino) == Ok(EmptyFile())
    && (forall j :: FileKept(d, d', role, j))
    && DescBlock(0) in d && Bitmaps(d).inodeBitmap in d && DescBlock(0) in d' && Bitmaps(d').inodeBitmap in d'
    && ino - 1 in FreeInodes(d, geo) && FreeInodes(d', geo) == FreeInodes(d, geo) - {ino - 1}
  }

  lemma NotADirectoryMode()
    ensures !Bit(S_IFREG_644, 14)
  {
    assert Bit(0x81A4, 14) == Bit(0x8, 2) by {
      assert Bit(0x81A4, 14) == Bit(0x81A4 / 2 / 2 / 2, 11);
      assert Bit(0x1034, 11) == Bit(0x1034 / 2 / 2 / 2, 8);
      assert Bit(0x206, 8) == Bit(0x206 / 2 / 2 / 2, 5);
      assert Bit(0x40, 5) == Bit(0x40 / 2 / 2 / 2, 2);
    }
  }

  lemma EmptyIsMine(role: Roles, ino: nat)
    ensures Mine(role, ino, EmptyFile()) && !IsDir(EmptyFile())
  {
    hide Bit;
    NotADirectoryMode();
  }

  lemma NewInodeKeeps(d: Disk, geo: Geometry, role: Roles)
    requires WellFormed(d, geo, role)
    ensures geo.inodesPerGroup > 0
    ensures var (d', ino) := NewInode(d, geo);
      if ino.Ok? then MadeInode(d, geo, role, d', ino.value) else WellFormed(d', geo, role)
  {
    hide WellFormed, MetaOk, AllocInode, WriteInode, ReadInode, Content, EmptyFile, FreeInodes, Bitmaps;
    PositiveGeometry(d, geo, role);
    var taken := AllocInode(d, geo);
    if taken.Ok? {
      var (d1, ino) := taken.value;
      AllocInodeKeeps(d, geo, role);
      EmptyIsMine(role, ino);
      WriteInodeKeeps(d1, geo, role, ino, EmptyFile());
      WellFormedMeta(d, geo, role);
      WellFormedMeta(d1, geo, role);
      var d' := WriteInode(d1, geo, ino, EmptyFile()).value;
      SameFreeInodes(d1, d', geo, role);
      BitmapsThere(d, geo, role);
      OthersAsBefore(d, d1, geo, role, ino);
      StoreSame(d1, geo, role, ino, EmptyFile(), ino, EmptyFile());
    }
  }

  lemma OthersAsBefore(d: Disk, d1: Disk, geo: Geometry, role: Roles, ino: nat)
    requires WellFormed(d, geo, role) && MetaOk(d1, geo, role) && OnlyInodeBitmap(d, d1, role) && ValidIno(geo, ino)
    ensures WriteInode(d1, geo, ino, EmptyFile()).Ok?
    ensures forall j :: ValidIno(geo, j) && j != ino ==>
      FileSame(d, WriteInode(d1, geo, ino, EmptyFile()).value, geo, j)
  {
    hide WellFormed, MetaOk, WriteInode, ReadInode, Content, EmptyFile;
    EmptyIsMine(role, ino);
    StoreSame(d1, geo, role, ino, EmptyFile(), ino, EmptyFile());
    forall j | ValidIno(geo, j) && j != ino
      ensures FileSame(d, WriteInode(d1, geo, ino, EmptyFile()).value, geo, j)
    {
      KeptIsSame(d, d1, geo, role, j);
      OthersStored(d, Written(d1, EmptyFile(), None), geo, role, role, ino, j);
    }
  }

  lemma PositiveGeometry(d: Disk, geo: Geometry, role: Roles)
    requires WellFormed(d, geo, role)
    ensures geo.inodesPerGroup > 0
  {
  }

  // ---- Creation as a whole ----

  lemma {:induction false} TilesAndTail(geo: Geometry, raw: Bytes, name: Bytes, ino: U32)
    requires DirectoryData(geo, raw) && 0 < |name| < 0x100 && ValidIno(geo, ino)
    ensures DirectoryData(geo, raw + NewRecord(name, ino, FT_REG))
  {
    hide Tiles, NewRecord, RecordLength, ValidIno, Dead;
    var records, n: nat :| Shaped(geo, raw, records, n);
    var more := NewRecord(name, ino, FT_REG);
    var longer := raw + more;
    if raw[n..] == [] {
      var r := Record(Entry(name, ino, FT_REG), RecordLength(name));
      assert raw[..n] == raw;
      PositiveIno(geo, ino);
      AddingAppends(raw, records, name, ino, FT_REG);
      WithEntryAppends(raw, name, ino, FT_REG);
      assert longer[..|longer|] == longer && longer[|longer|..] == [];
      assert Shaped(geo, longer, records + [r], |longer|);
    } else {
      assert longer[..n] == raw[..n] && longer[n..] == raw[n..] + more;
      DeadLonger(raw[n..], more);
      assert Shaped(geo, longer, records, n);
    }
  }

  lemma PositiveIno(geo: Geometry, ino: nat)
    requires ValidIno(geo, ino)
    ensures ino > 0
  {
  }

  /** The parent directory after a new entry was written. */
  ghost predicate Entered(d: Disk, geo: Geometry, role: Roles, p: nat, o: Outcome, role': Roles)
    requires ValidIno(geo, p)
  {
    && Extends(role, role') && WellFormed(o.disk, geo, role')
    && (forall j :: ValidIno(geo, j) && j != p ==> FileSame(d, o.disk, geo, j))
    && SameInodeBitmap(d, o.disk, role)
    && (o.error.None? ==> DirOk(o.disk, geo, p))
  }

  /** A directory's data has grown by these bytes. */
  ghost predicate GrewBy(d: Disk, d': Disk, geo: Geometry, p: nat, x: Inode, more: Bytes)
    requires ValidIno(geo, p)
  {
    && ReadFile(d, x).Ok? && Content(d', geo, p) == Ok(ReadFile(d, x).value + more)
    && ReadInode(d', geo, p).Ok? && ReadInode(d', geo, p).value.mode == x.mode
  }

  lemma EnterKeeps(d: Disk, geo: Geometry, role: Roles, p: nat, x: Inode, name: Bytes, ino: U32) returns (role': Roles)
    requires WellFormed(d, geo, role) && ValidIno(geo, p) && Mine(role, p, x) && ValidIno(geo, ino)
    requires 0 < |name| < 0x100
    requires ReadFile(d, x).Ok? && DirectoryData(geo, ReadFile(d, x).value)
    ensures var o := StoreInode(DirAdd(d, geo, x, name, ino, FT_REG), geo, p);
      && Entered(d, geo, role, p, o, role')
      && (o.error.None? ==> GrewBy(d, o.disk, geo, p, x, NewRecord(name, ino, FT_REG)))
  {
    hide WellFormed, MetaOk, ReadFile, WriteData, WriteInode, ReadInode, DirectoryData, NewRecord, WithEntry, Content;
    hide ValidIno;
    PositiveIno(geo, p);
    var raw := ReadFile(d, x).value;
    FileLength(d, x);
    WithEntryAppends(raw, name, ino, FT_REG);
    var longer := raw + NewRecord(name, ino, FT_REG);
    var w := DirAdd(d, geo, x, name, ino, FT_REG);
    assert w == WriteData(d, geo, x, longer);
    assert DoesNotShrink(x, longer);
    role' := WriteIsPrivate(d, geo, role, p, x, longer);
    forall j | ValidIno(geo, j) && j != p ensures FileSame(d, w.disk, geo, j) {
      OthersSame(d, w.disk, geo, role, p, j);
    }
    if w.error.None? {
      WellFormedMeta(w.disk, geo, role');
      WriteInodeKeeps(w.disk, geo, role', p, w.inode);
      StoreSame(w.disk, geo, role', p, w.inode, p, w.inode);
      WriteReadsBack(d, geo, role, p, x, longer);
      TilesAndTail(geo, raw, name, ino);
      var d' := WriteInode(w.disk, geo, p, w.inode).value;
      forall j | ValidIno(geo, j) && j != p ensures FileSame(d, d', geo, j) {
        OthersStored(d, w, geo, role, role', p, j);
      }
      StoredDirOk(d', geo, p, w.inode, longer);
    }
  }

  lemma StoredDirOk(d: Disk, geo: Geometry, p: nat, x: Inode, raw: Bytes)
    requires ValidIno(geo, p) && ReadInode(d, geo, p) == Ok(x) && Content(d, geo, p) == Ok(raw)
    requires DirectoryData(geo, raw)
    ensures DirOk(d, geo, p)
  {
  }

  lemma DirSame(d: Disk, d': Disk, geo: Geometry, j: nat)
    requires ValidIno(geo, j) && FileSame(d, d', geo, j) && DirOk(d, geo, j)
    ensures DirOk(d', geo, j)
  {
    hide ReadInode, ReadFile, DirectoryData;
  }

  /** The retry of `write_file`: a creation that succeeds leaves the file system well-formed, and has taken
      one of the finitely many free inodes. */
  ghost predicate Created(d: Disk, geo: Geometry, o: Outcome, role': Roles) {
    && WellFormed(o.disk, geo, role')
    && (o.error.None? ==>
        && Sound(o.disk, geo, role')
        && DescBlock(0) in d && Bitmaps(d).inodeBitmap in d && DescBlock(0) in o.disk
        && Bitmaps(o.disk).inodeBitmap in o.disk
        && FreeInodes(o.disk, geo) < FreeInodes(d, geo))
  }

  lemma CreateKeeps(d: Disk, geo: Geometry, role: Roles, path: Bytes) returns (role': Roles)
    requires Sound(d, geo, role)
    ensures geo.inodesPerGroup > 0 && Created(d, geo, CreateFile(d, geo, path), role')
    ensures CreateFile(d, geo, path).error.None? ==>
      && Target(d, geo, path).Ok? && NewInode(d, geo).1.Ok?
      && Made(d, geo, Target(d, geo, path).value, NewInode(d, geo).1.value, CreateFile(d, geo, path).disk)
  {
    hide Made, NamesTaken, Taken, WellFormed, MetaOk, DirsOk, NewInode, Target, DirAdd, StoreInode, ReadInode;
    hide FreeInodes, Bitmaps, ValidIno, Extends;
    PositiveGeometry(d, geo, role);
    role' := role;
    var target := Target(d, geo, path);
    if target.Ok? {
      var p := target.value;
      TargetInside(d, geo, role, path);
      NewInodeKeeps(d, geo, role);
      var (d', ino) := NewInode(d, geo);
      if ino.Ok? {
        role' := EnterNew(d, d', geo, role, p, ino.value);
      }
    }
  }

  /** A file system that some assignment of owners makes well-formed. */
  ghost predicate Consistent(d: Disk, geo: Geometry) {
    exists role :: Sound(d, geo, role)
  }

  lemma SomeRoles(d: Disk, geo: Geometry) returns (role: Roles)
    requires Consistent(d, geo)
    ensures Sound(d, geo, role)
  {
    hide Sound;
    role :| Sound(d, geo, role);
  }

  lemma CreationConsumes(d: Disk, geo: Geometry, path: Bytes)
    requires Consistent(d, geo)
    ensures geo.inodesPerGroup > 0
    ensures var o := CreateFile(d, geo, path);
      o.error.None? ==> Consistent(o.disk, geo) && FreeSet(o.disk, geo) < FreeSet(d, geo)
  {
    hide Sound, CreateFile, FreeInodes, WellFormed, Bitmaps;
    var role :| Sound(d, geo, role);
    var _ := CreateKeeps(d, geo, role, path);
  }

  /** `write_file`: a file that is not found is created, and the call starts over. */
  ghost function WriteOutcome(d: Disk, geo: Geometry, path: Bytes, data: Bytes): Outcome
    requires Consistent(d, geo)
    decreases FreeSet(d, geo)
  {
    hide Consistent, FreeSet, CreateFile, Locate, StoreInode, WriteData;
    CreationConsumes(d, geo, path);
    var found := Locate(d, geo, path);
    if found.Err? then
      var created := CreateFile(d, geo, path);
      if created.error.Some? then created else WriteOutcome(created.disk, geo, path, data)
    else if IsDir(found.value.1) then Outcome(d, Some(IsADirectory))
    else StoreInode(WriteData(d, geo, found.value.1, data), geo, found.value.0)
  }

  lemma TargetInside(d: Disk, geo: Geometry, role: Roles, path: Bytes)
    requires Sound(d, geo, role)
    ensures geo.inodesPerGroup > 0
    ensures var t := Target(d, geo, path);
      t.Ok? ==>
        && ValidIno(geo, t.value.parent) && ReadInode(d, geo, t.value.parent) == Ok(t.value.inode)
        && IsDir(t.value.inode)
        && Taken(d, geo, t.value.parent)
  {
    hide WellFormed, DirsOk, Locate, ReadInode, NamesTaken, Taken;
    PositiveGeometry(d, geo, role);
    var at := LastSlash(path);
    if at.Some? {
      LocateStaysInside(d, geo, role, path[..at.value]);
      LocateEndsTaken(d, geo, role, path[..at.value]);
    }
  }

  /** What a creation that succeeds changes: the new inode is empty and was nobody's, the parent has grown by
      one record, and every other inode and file is as it was. */
  ghost predicate Made(d: Disk, geo: Geometry, p: Place, ino: nat, d': Disk) {
    && ValidIno(geo, p.parent) && ValidIno(geo, ino) && p.parent != ino && 0 < ino <= BITS && !Taken(d, geo, ino)
    && ReadInode(d', geo, ino) == Ok(EmptyFile())
    && (forall j :: ValidIno(geo, j) && j != ino && j != p.parent ==> FileSame(d, d', geo, j))
    && GrewBy(d, d', geo, p.parent, p.inode, NewRecord(p.name, ino, FT_REG))
    && FreeSet(d', geo) == FreeSet(d, geo) - {ino - 1}
  }

  lemma EnterNew(d: Disk, d1: Disk, geo: Geometry, role: Roles, p: Place, ino: nat) returns (role': Roles)
    requires Sound(d, geo, role) && MadeInode(d, geo, role, d1, ino) && ino <= BITS && Taken(d, geo, p.parent)
    requires ValidIno(geo, p.parent) && ReadInode(d, geo, p.parent) == Ok(p.inode) && IsDir(p.inode)
    requires 0 < |p.name| < 0x100
    ensures var o := StoreInode(DirAdd(d1, geo, p.inode, p.name, ino, FT_REG), geo, p.parent);
      Created(d, geo, o, role') && (o.error.None? ==> Made(d, geo, p, ino, o.disk))
  {
    hide WellFormed, MetaOk, DirAdd, StoreInode, ReadInode, FreeInodes, Bitmaps, DirectoryData, ReadFile;
    hide SameInodeBitmap, Content;
    hide NamesTaken, NewRecord, EmptyFile;
    var x := OwnInode(d, geo, role, p.parent);
    assert DirOk(d, geo, p.parent);
    ReadsTheSame(d, d1, role, p.parent, x, 0);
    SameFile(d, d1, x);
    role' := EnterKeeps(d1, geo, role, p.parent, x, p.name, ino);
    var o := StoreInode(DirAdd(d1, geo, p.inode, p.name, ino, FT_REG), geo, p.parent);
    WellFormedMeta(d1, geo, role);
    SameFreeInodes(d1, o.disk, geo, role);
    if o.error.None? {
      InodeBitmapThere(d, o.disk, geo, role, role');
      assert DirsOk(o.disk, geo) by {
        forall j | ValidIno(geo, j) ensures DirOk(o.disk, geo, j) {
          if j != p.parent {
            AfterCreation(d, d1, o.disk, geo, j, ino);
          }
        }
      }
      MadeIsMade(d, d1, o.disk, geo, p, ino);
      StillTaken(d, geo, p, ino, o.disk);
    }
  }

  lemma MadeIsMade(d: Disk, d1: Disk, d2: Disk, geo: Geometry, p: Place, ino: nat)
    requires ValidIno(geo, p.parent) && ValidIno(geo, ino) && Taken(d, geo, p.parent) && ino <= BITS
    requires forall j :: ValidIno(geo, j) && j != ino ==> FileSame(d, d1, geo, j)
    requires forall j :: ValidIno(geo, j) && j != p.parent ==> FileSame(d1, d2, geo, j)
    requires ReadInode(d1, geo, ino) == Ok(EmptyFile()) && ReadFile(d1, p.inode) == ReadFile(d, p.inode)
    requires GrewBy(d1, d2, geo, p.parent, p.inode, NewRecord(p.name, ino, FT_REG))
    requires ino - 1 in FreeSet(d, geo) && FreeSet(d1, geo) == FreeSet(d, geo) - {ino - 1}
    requires FreeSet(d2, geo) == FreeSet(d1, geo)
    ensures Made(d, geo, p, ino, d2)
  {
    hide ReadInode, Content, ReadFile, NewRecord, EmptyFile, FreeSet;
    PositiveIno(geo, ino);
    assert FileSame(d1, d2, geo, ino);
    forall j | ValidIno(geo, j) && j != ino && j != p.parent ensures FileSame(d, d2, geo, j) {
      assert FileSame(d, d1, geo, j) && FileSame(d1, d2, geo, j);
    }
  }

  /** The new directory names the new inode, whose bit is set now, besides what it named before. */
  lemma StillTaken(d: Disk, geo: Geometry, p: Place, ino: nat, d': Disk)
    requires NamesTaken(d, geo) && Made(d, geo, p, ino, d') && 0 < |p.name| < 0x100
    requires ReadInode(d, geo, p.parent) == Ok(p.inode) && IsDir(p.inode) && DirOk(d, geo, p.parent)
    ensures NamesTaken(d', geo)
  {
    hide ReadInode, Content, ReadFile, NewRecord, EmptyFile, FreeSet, DirectoryData, Walk;
    forall i, e | ValidIno(geo, i) && Names(d', geo, i, e) ensures Taken(d', geo, e.ino) {
      if i == p.parent {
        var raw := ReadFile(d, p.inode).value;
        ContentIs(d', geo, i);
        GrownNames(geo, raw, p.name, ino);
        if e.ino != ino {
          assert Names(d, geo, i, e);
        }
      } else if i == ino {
        EmptyIsMine(map[], ino);
      } else {
        assert FileSame(d, d', geo, i);
        ContentIs(d', geo, i);
        ContentIs(d, geo, i);
        assert Names(d, geo, i, e);
      }
    }
  }

  lemma ContentIs(d: Disk, geo: Geometry, i: nat)
    requires ValidIno(geo, i) && ReadInode(d, geo, i).Ok?
    ensures Content(d, geo, i) == ReadFile(d, ReadInode(d, geo, i).value)
  {
  }

  /** A record added to directory data names its inode, or nothing. */
  lemma GrownNames(geo: Geometry, raw: Bytes, name: Bytes, ino: U32)
    requires DirectoryData(geo, raw) && 0 < |name| < 0x100 && ValidIno(geo, ino)
    ensures forall e :: e in Walk(raw + NewRecord(name, ino, FT_REG), 0) ==> e in Walk(raw, 0) || e.ino == ino
  {
    hide Tiles, NewRecord, ValidIno, Dead, Walk;
    var records, n: nat :| Shaped(geo, raw, records, n);
    PositiveIno(geo, ino);
    assert raw[..n] + raw[n..] == raw;
    WithEntryAppends(raw, name, ino, FT_REG);
    AddingListsExactly(raw[..n], records, raw[n..], name, ino, FT_REG);
  }

  lemma SameFile(d: Disk, d': Disk, x: Inode)
    requires ReadFrom(d', x, 0) == ReadFrom(d, x, 0)
    ensures ReadFile(d', x) == ReadFile(d, x)
  {
  }

  lemma InodeBitmapThere(d: Disk, d': Disk, geo: Geometry, role: Roles, role': Roles)
    requires WellFormed(d, geo, role) && WellFormed(d', geo, role')
    ensures DescBlock(0) in d && Bitmaps(d).inodeBitmap in d && DescBlock(0) in d' && Bitmaps(d').inodeBitmap in d'
  {
    hide WellFormed, MetaOk;
    WellFormedMeta(d, geo, role);
    WellFormedMeta(d', geo, role');
    BitmapsThere(d, geo, role);
    BitmapsThere(d', geo, role');
  }

  /** Any directory other than the parent is as before, or has become the new, empty file. */
  lemma AfterCreation(d: Disk, d1: Disk, d2: Disk, geo: Geometry, j: nat, ino: nat)
    requires ValidIno(geo, j) && ValidIno(geo, ino) && DirOk(d, geo, j)
    requires j != ino ==> FileSame(d, d1, geo, j)
    requires j == ino ==> ReadInode(d1, geo, j) == Ok(EmptyFile())
    requires FileSame(d1, d2, geo, j)
    ensures DirOk(d2, geo, j)
  {
    hide ReadInode, EmptyFile, DirectoryData, ReadFile;
    if j == ino {
      EmptyIsMine(map[], ino);
    } else {
      DirSame(d, d1, geo, j);
      DirSame(d1, d2, geo, j);
    }
  }
}
