/** Exactly when a created file is found again, and what that means for the retries of `write_file`. */
module Ext3Creation {
  import opened Basics
  import opened Wire
  import opened Ext3Layout
  import opened Ext3Disk
  import opened Ext3Files
  import opened Ext3Dirs
  import opened Ext3Writes
  import opened Ext3Paths

  // ---- Where the records of a directory end ----

  /** The offset at which the walk over the records stops. */
  function WalkEnd(raw: Bytes, at: nat): nat
    decreases |raw| - at
  {
    if at + HEAD > |raw| || HeadAt(raw, at).ino == 0 || HeadAt(raw, at).recLen == 0 then at
    else WalkEnd(raw, at + HeadAt(raw, at).recLen)
  }

  lemma {:induction false} WalkEndShift(raw: Bytes, n: nat, at: nat)
    requires n <= |raw|
    ensures WalkEnd(raw, n + at) == n + WalkEnd(raw[n..], at)
    decreases |raw| - at
  {
    hide HeadAt, EntryAt;
    if n + at + HEAD <= |raw| {
      HeadShift(raw, n, at);
      var h := HeadAt(raw, n + at);
      if h.ino != 0 && h.recLen != 0 {
        WalkEndShift(raw, n, at + h.recLen);
      }
    }
  }

  lemma WalkEndFirst(raw: Bytes, r: Record)
    requires RecordOk(raw, r)
    ensures WalkEnd(raw, 0) == r.recLen + WalkEnd(raw[r.recLen..], 0)
  {
    hide Le32, Le16;
    WalkEndShift(raw, r.recLen, 0);
  }

  /** It is where the tiles end. */
  lemma {:induction false} TilesEnd(raw: Bytes, records: seq<Record>, tail: Bytes)
    requires Tiles(raw, records) && (tail == [] || Dead(tail))
    ensures WalkEnd(raw + tail, 0) == |raw|
    decreases |records|
  {
    hide RecordOk, Le32, Le16;
    if records == [] {
      assert raw + tail == tail;
    } else {
      var r := records[0];
      RecordLengthFits(raw, r);
      RecordInFront(raw, r, tail);
      assert (raw + tail)[r.recLen..] == raw[r.recLen..] + tail;
      TilesEnd(raw[r.recLen..], records[1..], tail);
      WalkEndFirst(raw + tail, r);
    }
  }

  /** The records fill the data: there is no unused one behind them. */
  predicate Full(raw: Bytes) {
    WalkEnd(raw, 0) == |raw|
  }

  /** An added record is listed exactly when the records filled the data, and then they do again. */
  lemma GrownListing(geo: Geometry, raw: Bytes, name: Bytes, ino: U32)
    requires DirectoryData(geo, raw) && 0 < |name| < 0x100 && ValidIno(geo, ino)
    ensures var raw' := raw + NewRecord(name, ino, FT_REG);
      && Walk(raw', 0) == (if Full(raw) then Walk(raw, 0) + [Entry(name, ino, FT_REG)] else Walk(raw, 0))
      && (Full(raw') <==> Full(raw))
  {
    hide Tiles, NewRecord, ValidIno, Dead, Walk, WalkEnd, RecordLength;
    var records, n: nat :| Shaped(geo, raw, records, n);
    var body, tail, rec := raw[..n], raw[n..], NewRecord(name, ino, FT_REG);
    PositiveIno(geo, ino);
    assert body + tail == raw;
    WithEntryAppends(raw, name, ino, FT_REG);
    AddingListsExactly(body, records, tail, name, ino, FT_REG);
    TilesEnd(body, records, tail);
    if tail == [] {
      assert raw == body;
      AddingAppends(raw, records, name, ino, FT_REG);
      TilesEnd(raw + rec, records + [Record(Entry(name, ino, FT_REG), RecordLength(name))], []);
      assert raw + rec + [] == raw + rec;
    } else {
      DeadLonger(tail, rec);
      TilesEnd(body, records, tail + rec);
      assert raw + rec == body + (tail + rec);
    }
  }

  // ---- Paths ----

  predicate NoSlash(name: Bytes) {
    forall k :: 0 <= k < |name| ==> name[k] != SLASH
  }

  lemma {:induction false} LastSlashSplits(path: Bytes)
    ensures var at := LastSlash(path);
      at.Some? ==> path[at.value] == SLASH && NoSlash(path[at.value + 1..])
    decreases |path|
  {
    if path != [] && path[|path| - 1] != SLASH {
      var front := path[..|path| - 1];
      LastSlashSplits(front);
      if LastSlash(path).Some? {
        var at := LastSlash(path).value;
        assert path[at + 1..] == front[at + 1..] + [path[|path| - 1]];
      }
    }
  }

  lemma {:induction false} ComponentsOfName(name: Bytes)
    requires NoSlash(name)
    ensures Components(name) == [name]
  {
    if name != [] {
      assert forall k :: 0 <= k < |name[1..]| ==> name[1..][k] == name[k + 1];
      ComponentsOfName(name[1..]);
      assert [name[0]] + name[1..] == name;
    }
  }

  lemma {:induction false} ComponentsJoin(parent: Bytes, name: Bytes)
    requires NoSlash(name)
    ensures Components(parent + [SLASH] + name) == Components(parent) + [name]
  {
    var path := parent + [SLASH] + name;
    if parent == [] {
      assert path[1..] == name;
      ComponentsOfName(name);
    } else {
      assert path[1..] == parent[1..] + [SLASH] + name;
      ComponentsJoin(parent[1..], name);
    }
  }

  lemma {:induction false} FollowConcat(d: Disk, geo: Geometry, ino: nat, x: Inode, a: seq<Bytes>, b: seq<Bytes>)
    requires geo.inodesPerGroup > 0 && ino > 0
    ensures var r := Follow(d, geo, ino, x, a);
      Follow(d, geo, ino, x, a + b) == if r.Err? then r else Follow(d, geo, r.value.0, r.value.1, b)
    decreases |a|
  {
    hide ReadInode, ReadDir;
    if a == [] {
      assert a + b == b;
    } else {
      assert (a + b)[0] == a[0] && (a + b)[1..] == a[1..] + b;
      if a[0] == [] {
        FollowConcat(d, geo, ino, x, a[1..], b);
      } else if IsDir(x) && ReadDir(d, x).Ok? {
        ListedUsed(d, x);
        var e := Lookup(ReadDir(d, x).value, a[0]);
        if e.Some? && ReadInode(d, geo, e.value.ino).Ok? {
          FollowConcat(d, geo, e.value.ino, ReadInode(d, geo, e.value.ino).value, a[1..], b);
        }
      }
    }
  }

  lemma LocateFollows(d: Disk, geo: Geometry, path: Bytes)
    requires geo.inodesPerGroup > 0 && ReadInode(d, geo, ROOT).Ok?
    ensures Locate(d, geo, path) == Follow(d, geo, ROOT, ReadInode(d, geo, ROOT).value, Components(path))
  {
    hide ReadInode, ReadDir;
    if path == [SLASH] {
      assert path[1..] == [];
      var one: seq<Bytes> := [[]];
      assert Components(path) == one + one && Components(path)[1..] == one && one[1..] == [];
    } else if path == [] {
      assert Components(path)[1..] == [];
    }
  }

  // ---- Lookups after a creation ----

  lemma {:induction false} LookupLater(entries: seq<Entry>, more: seq<Entry>, name: Bytes)
    ensures Lookup(entries + more, name) ==
      if Lookup(entries, name).Some? then Lookup(entries, name) else Lookup(more, name)
  {
    if entries == [] {
      assert entries + more == more;
    } else {
      assert (entries + more)[0] == entries[0] && (entries + more)[1..] == entries[1..] + more;
      LookupLater(entries[1..], more, name);
    }
  }

  /** The parent's new listing: the old one and then, perhaps, the new entry. */
  function NewEntries(raw: Bytes, name: Bytes, ino: U32): seq<Entry> {
    if Full(raw) && name != DOT && name != DOT_DOT then [Entry(name, ino, FT_REG)] else []
  }

  lemma VisibleGrown(geo: Geometry, raw: Bytes, name: Bytes, ino: U32)
    requires DirectoryData(geo, raw) && 0 < |name| < 0x100 && ValidIno(geo, ino)
    ensures Visible(Walk(raw + NewRecord(name, ino, FT_REG), 0)) == Visible(Walk(raw, 0)) + NewEntries(raw, name, ino)
  {
    hide NewRecord, Walk, Full, Visible;
    GrownListing(geo, raw, name, ino);
    VisibleAppend(Walk(raw, 0), [Entry(name, ino, FT_REG)]);
    VisibleOne(Entry(name, ino, FT_REG));
    assert Visible(Walk(raw, 0)) + [] == Visible(Walk(raw, 0));
  }

  lemma VisibleOne(e: Entry)
    ensures Visible([e]) == if e.name != DOT && e.name != DOT_DOT then [e] else []
  {
    assert [e][1..] == [];
    assert Visible([]) == [];
  }

  /** The parent directory's inode and listing afterwards. */
  lemma ParentListing(d: Disk, geo: Geometry, p: Place, ino: nat, d': Disk)
    requires Made(d, geo, p, ino, d') && 0 < |p.name| < 0x100
    requires IsDir(p.inode) && ReadInode(d, geo, p.parent) == Ok(p.inode) && DirOk(d, geo, p.parent)
    ensures ReadFile(d, p.inode).Ok? && ReadDir(d, p.inode).Ok? && ReadInode(d', geo, p.parent).Ok?
    ensures var x' := ReadInode(d', geo, p.parent).value;
      && IsDir(x') && ReadFile(d', x') == Ok(ReadFile(d, p.inode).value + NewRecord(p.name, ino, FT_REG))
      && ReadDir(d', x') == Ok(ReadDir(d, p.inode).value + NewEntries(ReadFile(d, p.inode).value, p.name, ino))
  {
    hide ReadInode, ReadFile, NewRecord, Walk, Visible, EmptyFile, Taken, FreeSet, DirectoryData, NewEntries, Content;
    ContentIs(d', geo, p.parent);
    VisibleGrown(geo, ReadFile(d, p.inode).value, p.name, ino);
  }

  /** A lookup that ended at the parent directory still does. */
  lemma {:induction false} FollowsToParent(d: Disk, geo: Geometry, p: Place, ino: nat, d': Disk, i: nat, y: Inode,
      components: seq<Bytes>)
    requires geo.inodesPerGroup > 0 && DirsOk(d, geo) && NamesTaken(d, geo) && Made(d, geo, p, ino, d')
    requires 0 < |p.name| < 0x100
    requires IsDir(p.inode) && ReadInode(d, geo, p.parent) == Ok(p.inode)
    requires ValidIno(geo, i) && Taken(d, geo, i) && ReadInode(d, geo, i) == Ok(y)
    requires Follow(d, geo, i, y, components) == Ok((p.parent, p.inode))
    ensures ReadInode(d', geo, p.parent).Ok? && ReadInode(d', geo, i).Ok?
    ensures Follow(d', geo, i, ReadInode(d', geo, i).value, components) ==
      Ok((p.parent, ReadInode(d', geo, p.parent).value))
    decreases |components|
  {
    hide ReadInode, ReadFile, Walk, Visible, NewRecord, NewEntries, EmptyFile, FreeSet, DirectoryData, Content;
    assert DirOk(d, geo, p.parent);
    ParentListing(d, geo, p, ino, d');
    assert i != p.parent ==> FileSame(d, d', geo, i);
    if components != [] {
      if components[0] == [] {
        FollowsToParent(d, geo, p, ino, d', i, y, components[1..]);
      } else {
        assert DirOk(d, geo, i);
        ListsExisting(geo, ReadFile(d, y).value);
        ListedUsed(d, y);
        var e := Lookup(ReadDir(d, y).value, components[0]).value;
        assert Names(d, geo, i, e);
        FollowsToParent(d, geo, p, ino, d', e.ino, ReadInode(d, geo, e.ino).value, components[1..]);
        SameLookup(d, geo, p, ino, d', i, y, components[0]);
        ListedUsed(d', ReadInode(d', geo, i).value);
      }
    }
  }

  /** What a directory names is named by it still. */
  lemma SameLookup(d: Disk, geo: Geometry, p: Place, ino: nat, d': Disk, i: nat, y: Inode, name: Bytes)
    requires Made(d, geo, p, ino, d') && 0 < |p.name| < 0x100 && IsDir(p.inode)
    requires ReadInode(d, geo, p.parent) == Ok(p.inode)
    requires ValidIno(geo, i) && i != ino && ReadInode(d, geo, i) == Ok(y) && IsDir(y) && DirOk(d, geo, p.parent)
    requires ReadDir(d, y).Ok? && Lookup(ReadDir(d, y).value, name).Some?
    ensures ReadInode(d', geo, i).Ok?
    ensures var y' := ReadInode(d', geo, i).value;
      IsDir(y') && ReadDir(d', y').Ok? && Lookup(ReadDir(d', y').value, name) == Lookup(ReadDir(d, y).value, name)
  {
    hide ReadInode, ReadFile, Walk, Visible, NewRecord, NewEntries, EmptyFile, FreeSet, Taken, DirectoryData, Content;
    ParentListing(d, geo, p, ino, d');
    if i == p.parent {
      LookupLater(ReadDir(d, y).value, NewEntries(ReadFile(d, y).value, p.name, ino), name);
    } else {
      assert FileSame(d, d', geo, i);
      ContentIs(d, geo, i);
      ContentIs(d', geo, i);
    }
  }

  // ---- The created file ----

  /** The parent directory has no unused record, and the name is not one that listings hide. */
  predicate Findable(d: Disk, p: Place) {
    ReadFile(d, p.inode).Ok? && Full(ReadFile(d, p.inode).value) && p.name != DOT && p.name != DOT_DOT
  }

  lemma TargetIs(d: Disk, geo: Geometry, path: Bytes)
    requires geo.inodesPerGroup > 0 && Target(d, geo, path).Ok?
    ensures LastSlash(path).Some?
    ensures var t, at := Target(d, geo, path).value, LastSlash(path).value;
      && t.name == path[at + 1..] && Locate(d, geo, path[..at]) == Ok((t.parent, t.inode)) && IsDir(t.inode)
      && ReadDir(d, t.inode).Ok? && Lookup(ReadDir(d, t.inode).value, t.name).None? && 0 < |t.name| < 0x100
  {
    hide Locate, ReadDir;
  }

  /** The last step of looking up the new path. */
  lemma LastStep(d: Disk, geo: Geometry, p: Place, ino: nat, d': Disk)
    requires geo.inodesPerGroup > 0 && Made(d, geo, p, ino, d') && 0 < |p.name| < 0x100
    requires IsDir(p.inode) && ReadInode(d, geo, p.parent) == Ok(p.inode) && DirOk(d, geo, p.parent)
    requires ReadDir(d, p.inode).Ok? && Lookup(ReadDir(d, p.inode).value, p.name).None?
    ensures ReadInode(d', geo, p.parent).Ok?
    ensures Follow(d', geo, p.parent, ReadInode(d', geo, p.parent).value, [p.name]) ==
      if Findable(d, p) then Ok((ino, EmptyFile())) else Err(FileNotFound)
  {
    hide ReadInode, ReadFile, NewRecord, EmptyFile, Taken, FreeSet, DirectoryData, Content, Full;
    ParentListing(d, geo, p, ino, d');
    var old_, more := ReadDir(d, p.inode).value, NewEntries(ReadFile(d, p.inode).value, p.name, ino);
    LookupLater(old_, more, p.name);
    ListedUsed(d', ReadInode(d', geo, p.parent).value);
    assert [p.name][1..] == [];
  }

  /** After a creation that succeeds, looking up its path gives the new, empty inode exactly when the parent
      directory ended without an unused record and the name is neither `.` nor `..`; otherwise nothing. */
  lemma CreatedIsFoundExactly(d: Disk, geo: Geometry, role: Roles, path: Bytes)
    requires Sound(d, geo, role)
    ensures geo.inodesPerGroup > 0
    ensures CreateFile(d, geo, path).error.None? ==>
      && Target(d, geo, path).Ok? && NewInode(d, geo).1.Ok?
      && Locate(CreateFile(d, geo, path).disk, geo, path) ==
        if Findable(d, Target(d, geo, path).value) then Ok((NewInode(d, geo).1.value, EmptyFile()))
          else Err(FileNotFound)
  {
    hide Made, NamesTaken, DirsOk, WellFormed, CreateFile, NewInode, Target, Locate, ReadInode, Follow, Components;
    hide Findable, EmptyFile;
    PositiveGeometry(d, geo, role);
    var o := CreateFile(d, geo, path);
    var role' := CreateKeeps(d, geo, role, path);
    if o.error.None? {
      var t, ino := Target(d, geo, path).value, NewInode(d, geo).1.value;
      TargetIs(d, geo, path);
      TargetInside(d, geo, role, path);
      ParentIsFound(d, geo, role, path, t, ino, o.disk);
      DirsOkAt(d, geo, t.parent);
      LastStep(d, geo, t, ino, o.disk);
      PathSplits(d, o.disk, geo, path, t);
    }
  }

  lemma DirsOkAt(d: Disk, geo: Geometry, i: nat)
    requires DirsOk(d, geo) && ValidIno(geo, i)
    ensures DirOk(d, geo, i)
  {
  }

  lemma ParentIsFound(d: Disk, geo: Geometry, role: Roles, path: Bytes, p: Place, ino: nat, d': Disk)
    requires Sound(d, geo, role) && geo.inodesPerGroup > 0 && Made(d, geo, p, ino, d') && 0 < |p.name| < 0x100
    requires LastSlash(path).Some? && Locate(d, geo, path[..LastSlash(path).value]) == Ok((p.parent, p.inode))
    requires IsDir(p.inode)
    requires ReadInode(d, geo, p.parent) == Ok(p.inode)
    ensures ReadInode(d', geo, ROOT).Ok? && ReadInode(d', geo, p.parent).Ok?
    ensures Follow(d', geo, ROOT, ReadInode(d', geo, ROOT).value, Components(path[..LastSlash(path).value])) ==
      Ok((p.parent, ReadInode(d', geo, p.parent).value))
  {
    hide Made, DirsOk, WellFormed, ReadInode, Follow, Components, Locate, Taken;
    var x := OwnInode(d, geo, role, ROOT);
    LocateFollows(d, geo, path[..LastSlash(path).value]);
    FollowsToParent(d, geo, p, ino, d', ROOT, x, Components(path[..LastSlash(path).value]));
  }

  /** Looking up a path is looking up its parent, and then the last name. */
  lemma PathSplits(d: Disk, d': Disk, geo: Geometry, path: Bytes, p: Place)
    requires geo.inodesPerGroup > 0 && LastSlash(path).Some? && p.name == path[LastSlash(path).value + 1..]
    requires p.parent > 0
    requires ReadInode(d', geo, ROOT).Ok? && ReadInode(d', geo, p.parent).Ok?
    requires Follow(d', geo, ROOT, ReadInode(d', geo, ROOT).value, Components(path[..LastSlash(path).value])) ==
      Ok((p.parent, ReadInode(d', geo, p.parent).value))
    ensures Locate(d', geo, path) == Follow(d', geo, p.parent, ReadInode(d', geo, p.parent).value, [p.name])
  {
    hide ReadInode, Follow, Components, Locate;
    var at := LastSlash(path).value;
    LastSlashSplits(path);
    assert path == path[..at] + [SLASH] + p.name;
    ComponentsJoin(path[..at], p.name);
    LocateFollows(d', geo, path);
    FollowConcat(d', geo, ROOT, ReadInode(d', geo, ROOT).value, Components(path[..at]), [p.name]);
  }

  // ---- The retries of `write_file` ----

  /** A directory that hides a new name hides it again. */
  lemma HidesAgain(d: Disk, geo: Geometry, role: Roles, path: Bytes)
    requires Sound(d, geo, role)
    ensures geo.inodesPerGroup > 0
    ensures var o := CreateFile(d, geo, path);
      o.error.None? && !Findable(d, Target(d, geo, path).value) && Target(o.disk, geo, path).Ok? ==>
        !Findable(o.disk, Target(o.disk, geo, path).value)
  {
    hide Made, NamesTaken, DirsOk, WellFormed, CreateFile, NewInode, Target, Locate, ReadInode, Follow, Components;
    hide EmptyFile;
    hide Full, NewRecord, ReadFile, ReadDir, DirectoryData;
    PositiveGeometry(d, geo, role);
    var d' := CreateFile(d, geo, path).disk;
    var role' := CreateKeeps(d, geo, role, path);
    if CreateFile(d, geo, path).error.None? && Target(d', geo, path).Ok? {
      var t, ino := Target(d, geo, path).value, NewInode(d, geo).1.value;
      TargetIs(d, geo, path);
      TargetIs(d', geo, path);
      TargetInside(d, geo, role, path);
      ParentIsFound(d, geo, role, path, t, ino, d');
      LocateFollows(d', geo, path[..LastSlash(path).value]);
      DirsOkAt(d, geo, t.parent);
      ParentListing(d, geo, t, ino, d');
      StaysFull(d, geo, t, ino, d');
    }
  }

  lemma StaysFull(d: Disk, geo: Geometry, p: Place, ino: nat, d': Disk)
    requires Made(d, geo, p, ino, d') && 0 < |p.name| < 0x100
    requires IsDir(p.inode) && ReadInode(d, geo, p.parent) == Ok(p.inode) && DirOk(d, geo, p.parent)
    ensures ReadFile(d, p.inode).Ok? &&
      (Full(ReadFile(d, p.inode).value + NewRecord(p.name, ino, FT_REG)) <==> Full(ReadFile(d, p.inode).value))
  {
    hide ReadInode, ReadFile, Full, NewRecord, Walk, EmptyFile, Taken, FreeSet, DirectoryData, Content;
    GrownListing(geo, ReadFile(d, p.inode).value, p.name, ino);
  }

  /** For a path that is not found, `write_file` succeeds exactly when the first creation does, can be found
      again, and the write into the new file succeeds; then it has created one file and written it. */
  lemma {:induction false} WriteSucceedsExactly(d: Disk, geo: Geometry, path: Bytes, data: Bytes)
    requires Consistent(d, geo)
    ensures geo.inodesPerGroup > 0
    ensures Locate(d, geo, path).Err? ==>
      var w, o := WriteOutcome(d, geo, path, data), CreateFile(d, geo, path);
      && (w.error.None? ==> o.error.None? && Findable(d, Target(d, geo, path).value))
      && (o.error.None? && Findable(d, Target(d, geo, path).value) ==>
            w == WriteInto(o.disk, geo, NewInode(d, geo).1.value, data))
    decreases FreeSet(d, geo)
  {
    hide Consistent, Sound, Locate, CreateFile, ReadInode, WriteData, StoreInode, FreeSet, Target, NewInode, Findable;
    CreationConsumes(d, geo, path);
    var role := SomeRoles(d, geo);
    CreatedIsFoundExactly(d, geo, role, path);
    var o := CreateFile(d, geo, path);
    if Locate(d, geo, path).Err? && o.error.None? {
      if Findable(d, Target(d, geo, path).value) {
        WriteToNew(d, geo, role, path, data);
      } else {
        HidesAgain(d, geo, role, path);
        WriteSucceedsExactly(o.disk, geo, path, data);
        TargetFirst(o.disk, geo, path);
      }
    }
  }

  lemma TargetFirst(d: Disk, geo: Geometry, path: Bytes)
    requires geo.inodesPerGroup > 0
    ensures CreateFile(d, geo, path).error.None? ==> Target(d, geo, path).Ok?
  {
    hide Target, NewInode;
  }

  lemma WriteToNew(d: Disk, geo: Geometry, role: Roles, path: Bytes, data: Bytes)
    requires Consistent(d, geo) && Sound(d, geo, role) && geo.inodesPerGroup > 0 && Locate(d, geo, path).Err?
    requires CreateFile(d, geo, path).error.None? && Findable(d, Target(d, geo, path).value)
    ensures WriteOutcome(d, geo, path, data) ==
      WriteInto(CreateFile(d, geo, path).disk, geo, NewInode(d, geo).1.value, data)
  {
    hide Consistent, Sound, Locate, CreateFile, ReadInode, WriteData, StoreInode, FreeSet, Target, NewInode, Findable;
    CreationConsumes(d, geo, path);
    CreatedIsFoundExactly(d, geo, role, path);
    var d' := CreateFile(d, geo, path).disk;
    var role' := SomeRoles(d', geo);
    LocateStaysInside(d', geo, role', path);
    EmptyIsMine(map[], NewInode(d, geo).1.value);
  }
}
