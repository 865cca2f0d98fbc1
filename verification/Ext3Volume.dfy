/** The file system driver: every call reads blocks into a buffer, changes it in place, and writes it back. */
module Ext3Volume {
  import opened Basics
  import opened Wire
  import opened HeapMath
  import opened Bits
  import opened Ext3Layout
  import opened Ext3Disk
  import opened Ext3Files
  import opened Ext3Dirs
  import opened Ext3Writes
  import opened Ext3Paths

  // ---- Facts the loops need ----

  lemma NoneClear(b: Block, limit: nat)
    requires limit <= BITS && forall j :: 0 <= j < limit ==> BitAt(b, j)
    ensures FirstClear(b, limit, 0) == None
  {
    hide BitAt;
    var r := FirstClear(b, limit, 0);
  }

  /** A byte that is 0xFF has every bit set. */
  lemma FullByte(b: Block, byteIdx: nat)
    requires byteIdx < BLOCK_SIZE && b[byteIdx] == 0xFF
    ensures forall j :: byteIdx * 8 <= j < byteIdx * 8 + 8 ==> BitAt(b, j)
  {
    Pow2Of8();
    forall j | byteIdx * 8 <= j < byteIdx * 8 + 8 ensures BitAt(b, j) {
      BitOfOnes(8, j % 8);
    }
  }

  lemma BitTest(b: Block, byteIdx: nat, bit: nat)
    requires byteIdx < BLOCK_SIZE && bit < 8
    ensures And(b[byteIdx], Pow2(bit)) == 0 <==> !BitAt(b, byteIdx * 8 + bit)
    ensures Or(b[byteIdx], Pow2(bit)) < 0x100
    ensures WithBit(b, byteIdx * 8 + bit, true) == b[byteIdx := Or(b[byteIdx], Pow2(bit))]
  {
    hide And, Or, Bit;
    AndOneBit(b[byteIdx], bit);
    ByteMask(byteIdx * 8 + bit);
    Split8(byteIdx, bit);
    OrBelow(b[byteIdx], Pow2(bit), 8);
  }

  lemma Split8(byteIdx: nat, bit: nat)
    requires bit < 8
    ensures (byteIdx * 8 + bit) / 8 == byteIdx && (byteIdx * 8 + bit) % 8 == bit
  {
  }

  class Volume {
    const geo: Geometry
    var disk: Disk

    constructor (geometry: Geometry, image: Disk)
      ensures geo == geometry && disk == image
    {
      geo, disk := geometry, image;
    }

    // ---- Bitmaps ----

    /** `bitmap_alloc`. */
    method BitmapAllocate(bitmap: nat, maxBits: nat) returns (r: Result<nat, Error>)
      modifies this
      ensures var spec := BitmapAlloc(old(disk), bitmap, maxBits);
        if spec.Ok? then r == Ok(spec.value.1) && disk == spec.value.0 else r == Err(spec.error) && disk == old(disk)
    {
      var read := ReadBlock(disk, bitmap);
      if read.Err? {
        return Err(read.error);
      }
      var buf := read.value;
      for byteIdx := 0 to BLOCK_SIZE
        invariant disk == old(disk)
        invariant forall j :: 0 <= j < byteIdx * 8 && j < maxBits ==> BitAt(buf, j)
      {
        if buf[byteIdx] != 0xFF {
          var bit := 0;
          while bit < 8
            invariant bit <= 8 && disk == old(disk)
            invariant forall j :: 0 <= j < byteIdx * 8 + bit && j < maxBits ==> BitAt(buf, j)
          {
            if byteIdx * 8 + bit >= maxBits {
              bit := 8;
              break;
            }
            BitTest(buf, byteIdx, bit);
            if And(buf[byteIdx], Pow2(bit)) == 0 {
              FirstClearIs(buf, Limit(maxBits), byteIdx * 8 + bit);
              buf := buf[byteIdx := Or(buf[byteIdx], Pow2(bit))];
              disk := disk[bitmap := buf];
              return Ok(byteIdx * 8 + bit);
            }
            bit := bit + 1;
          }
        } else {
          FullByte(buf, byteIdx);
        }
      }
      NoneClear(buf, Limit(maxBits));
      return Err(NoFreeBits);
    }

    /** `bitmap_set`. */
    method BitmapAssign(bitmap: nat, bit: nat, value: bool) returns (error: Option<Error>)
      modifies this
      ensures var spec := BitmapSet(old(disk), bitmap, bit, value);
        if spec.Ok? then error == None && disk == spec.value else error == Some(spec.error) && disk == old(disk)
    {
      var read := ReadBlock(disk, bitmap);
      if read.Err? {
        return Some(read.error);
      }
      if bit >= BITS {
        return Some(OutOfBounds);
      }
      disk := disk[bitmap := WithBit(read.value, bit, value)];
      return None;
    }

    /** `alloc_block`. */
    method AllocateBlock() returns (r: Result<nat, Error>)
      modifies this
      ensures var spec := AllocBlock(old(disk), geo);
        if spec.Ok? then r == Ok(spec.value.1) && disk == spec.value.0 else r == Err(spec.error) && disk == old(disk)
    {
      hide BitmapAlloc;
      var desc := ReadDesc(disk, 0);
      if desc.Err? {
        return Err(desc.error);
      }
      r := BitmapAllocate(desc.value.blockBitmap, geo.blocksPerGroup);
    }

    /** `free_block`. */
    method ReleaseBlock(block: nat) returns (error: Option<Error>)
      modifies this
      ensures var spec := FreeBlock(old(disk), block);
        if spec.Ok? then error == None && disk == spec.value else error == Some(spec.error) && disk == old(disk)
    {
      hide BitmapSet;
      var desc := ReadDesc(disk, 0);
      if desc.Err? {
        return Some(desc.error);
      }
      error := BitmapAssign(desc.value.blockBitmap, block, false);
    }

    /** `alloc_inode`. */
    method AllocateInode() returns (r: Result<nat, Error>)
      modifies this
      ensures var spec := AllocInode(old(disk), geo);
        if spec.Ok? then r == Ok(spec.value.1) && disk == spec.value.0 else r == Err(spec.error) && disk == old(disk)
    {
      hide BitmapAlloc;
      var desc := ReadDesc(disk, 0);
      if desc.Err? {
        return Err(desc.error);
      }
      var bit := BitmapAllocate(desc.value.inodeBitmap, geo.inodesPerGroup);
      if bit.Err? {
        return Err(bit.error);
      }
      return Ok(bit.value + 1);
    }

    /** `write_inode`. */
    method PutInode(ino: nat, x: Inode) returns (error: Option<Error>)
      requires geo.inodesPerGroup > 0 && ino > 0
      modifies this
      ensures var spec := WriteInode(old(disk), geo, ino, x);
        if spec.Ok? then error == None && disk == spec.value else error == Some(spec.error) && disk == old(disk)
    {
      var desc := ReadDesc(disk, GroupOf(geo, ino));
      if desc.Err? {
        return Some(desc.error);
      }
      var block := InodeBlockOf(geo, desc.value, ino);
      var buf := ReadBlock(disk, block);
      if buf.Err? {
        return Some(buf.error);
      }
      disk := disk[block := WithInode(buf.value, IndexOf(geo, ino) % INODES_PER_BLOCK, x)];
      return None;
    }

    // ---- File data ----

    /** `read_file_inode`. */
    method ReadFileInode(x: Inode) returns (r: Result<Bytes, Error>)
      ensures r == ReadFile(disk, x)
    {
      hide ReadChunk;
      var data: Bytes := [];
      var idx := 0;
      ghost var whole := ReadFrom(disk, x, 0);
      assert whole.Ok? ==> [] + whole.value == whole.value;
      while idx < BlocksFor(x.size)
        invariant idx <= BlocksFor(x.size)
        invariant var rest := ReadFrom(disk, x, idx);
          ReadFrom(disk, x, 0) == if rest.Ok? then Ok(data + rest.value) else rest
      {
        var chunk := ReadChunk(disk, x, idx);
        if chunk.Err? {
          return Err(chunk.error);
        }
        ghost var rest := ReadFrom(disk, x, idx + 1);
        assert rest.Ok? ==> data + (chunk.value + rest.value) == data + chunk.value + rest.value;
        data := data + chunk.value;
        idx := idx + 1;
      }
      assert data + [] == data;
      return Ok(data);
    }

    /** `write_file_data`. */
    method WriteFileData(x: Inode, data: Bytes) returns (w: Inode, error: Option<Error>)
      modifies this
      ensures Written(disk, w, error) == WriteData(old(disk), geo, x, data)
    {
      hide Grow, Fill, Shrink;
      var needed := BlocksFor(|data|);
      w, error := GrowFile(x, needed);
      if error.Some? {
        return;
      }
      error := FillFile(w, data);
      if error.Some? {
        return;
      }
      w, error := ShrinkFile(w, needed, BlocksFor(x.size));
      if error.Some? {
        return;
      }
      w := w.(size := |data| % 0x1_0000_0000);
    }

    /** The loop that allocates missing blocks. */
    method GrowFile(x: Inode, needed: nat) returns (w: Inode, error: Option<Error>)
      modifies this
      ensures Written(disk, w, error) == Grow(old(disk), geo, x, 0, needed)
    {
      hide AllocBlock;
      w := x;
      var idx := 0;
      while idx < needed
        invariant idx <= needed && Grow(old(disk), geo, x, 0, needed) == Grow(disk, geo, w, idx, needed)
      {
        var existing := 0;
        if idx < DIRECT {
          existing := w.block[idx];
        }
        if existing == 0 {
          ghost var before := disk;
          var fresh_ := AllocateBlock();
          if fresh_.Err? {
            return w, Some(fresh_.error);
          }
          AllocFits(before, geo);
          if idx < DIRECT {
            w := w.(block := w.block[idx := fresh_.value + 1]);
          } else {
            return w, Some(NoIndirectWrite);
          }
        }
        idx := idx + 1;
      }
      return w, None;
    }

    /** The loop that writes the data. */
    method FillFile(x: Inode, data: Bytes) returns (error: Option<Error>)
      modifies this
      ensures (disk, error) == Fill(old(disk), x, data, 0)
    {
      hide Padded;
      var idx := 0;
      while idx < BlocksFor(|data|)
        invariant idx <= BlocksFor(|data|) && Fill(old(disk), x, data, 0) == Fill(disk, x, data, idx)
      {
        if idx >= DIRECT {
          return Some(NoIndirectWrite);
        }
        if x.block[idx] !in disk {
          return Some(AtaError);
        }
        disk := disk[x.block[idx] := Padded(data, idx)];
        idx := idx + 1;
      }
      return None;
    }

    /** The loop that frees the blocks of a file that shrank. */
    method ShrinkFile(x: Inode, from: nat, old_: nat) returns (w: Inode, error: Option<Error>)
      modifies this
      ensures Written(disk, w, error) == Shrink(old(disk), x, from, old_)
    {
      hide FreeBlock;
      w := x;
      var idx := from;
      while idx < old_
        invariant Shrink(old(disk), x, from, old_) == Shrink(disk, w, idx, old_)
      {
        if idx < DIRECT && w.block[idx] != 0 {
          var failed := ReleaseBlock(w.block[idx]);
          if failed.Some? {
            return w, failed;
          }
          w := w.(block := w.block[idx := 0]);
        }
        idx := idx + 1;
      }
      return w, None;
    }

    // ---- Directories ----

    /** `read_dir_inode`. */
    method ReadDirInode(x: Inode) returns (r: Result<seq<Entry>, Error>)
      ensures r == ReadDir(disk, x)
    {
      hide HeadAt, EntryAt, Walk, Visible;
      var read := ReadFileInode(x);
      if read.Err? {
        return Err(read.error);
      }
      var raw := read.value;
      var entries: seq<Entry> := [];
      var offset := 0;
      while offset < |raw| && offset + HEAD <= |raw|
        invariant Visible(Walk(raw, 0)) == entries + Visible(Walk(raw, offset))
        decreases |raw| - offset
      {
        var de := HeadAt(raw, offset);
        if de.ino == 0 || de.recLen == 0 {
          break;
        }
        ListsOneMore(raw, offset, entries);
        entries := entries + Visible(EntryAt(raw, offset));
        offset := offset + de.recLen;
      }
      ListsNoMore(raw, offset);
      assert entries + [] == entries;
      return Ok(entries);
    }

    /** `dir_add_entry`. */
    method DirAddEntry(x: Inode, name: Bytes, ino: U32, fileType: Byte) returns (w: Inode, error: Option<Error>)
      modifies this
      ensures Written(disk, w, error) == DirAdd(old(disk), geo, x, name, ino, fileType)
    {
      hide NewRecord, WriteData, Relinked;
      var read := ReadFileInode(x);
      if read.Err? {
        return x, Some(read.error);
      }
      var raw := read.value;
      if RecordLength(name) % 0x1_0000 < 12 {
        return x, Some(EntryTooSmall);
      }
      var newOffset := |raw|;
      raw := raw + NewRecord(name, ino, fileType);
      if newOffset > 0 {
        raw := Relink(raw, newOffset);
      }
      w, error := WriteFileData(x, raw);
    }

    /** The walk of `dir_add_entry` to the record before the new one. */
    method Relink(raw: Bytes, newOffset: nat) returns (r: Bytes)
      requires 0 < newOffset && newOffset + HEAD <= |raw|
      ensures r == Relinked(raw, 0, newOffset)
    {
      hide HeadAt;
      var prev := 0;
      while true
        invariant prev < newOffset && Relinked(raw, 0, newOffset) == Relinked(raw, prev, newOffset)
        decreases newOffset - prev
      {
        var de := HeadAt(raw, prev);
        if de.recLen == 0 {
          return raw;
        }
        var next := prev + de.recLen;
        if next == newOffset {
          return Patched(raw, prev + 4, Bytes16Le(newOffset - prev));
        }
        if next > newOffset {
          return raw;
        }
        prev := next;
      }
    }

    /** `dir_remove_entry`. */
    method DirRemoveEntry(x: Inode, name: Bytes) returns (w: Inode, r: Result<U32, Error>)
      modifies this
      ensures var spec := DirRemove(old(disk), geo, x, name);
        disk == spec.0.disk && w == spec.0.inode && r ==
          if spec.0.error.Some? then Err(spec.0.error.value) else Ok(spec.1)
    {
      hide WriteData, HeadAt, Absorbed, FindRecord;
      var read := ReadFileInode(x);
      if read.Err? {
        return x, Err(read.error);
      }
      var raw := read.value;
      var found := Find(raw, name);
      FoundInside(raw, 0, name);
      if found.None? {
        return x, Err(NotInDirectory);
      }
      var de := HeadAt(raw, found.value);
      AbsorbedLength(raw, 0, found.value, de.recLen);
      if found.value + de.recLen < |raw| {
        raw := Absorb(raw, found.value, de.recLen);
      }
      raw := Patched(raw, found.value, [0, 0, 0, 0]);
      var error;
      w, error := WriteFileData(x, raw);
      r := if error.Some? then Err(error.value) else Ok(de.ino);
    }

    method Find(raw: Bytes, name: Bytes) returns (found: Option<nat>)
      ensures found == FindRecord(raw, 0, name)
    {
      hide HeadAt;
      var at := 0;
      while true
        invariant FindRecord(raw, 0, name) == FindRecord(raw, at, name)
        decreases |raw| - at
      {
        if at + HEAD > |raw| {
          return None;
        }
        var de := HeadAt(raw, at);
        if de.ino == 0 || de.recLen == 0 {
          return None;
        }
        var end := at + HEAD + de.nameLen;
        if end <= |raw| && raw[at + HEAD..end] == name {
          return Some(at);
        }
        at := at + de.recLen;
      }
    }

    method Absorb(raw: Bytes, found: nat, extra: U16) returns (r: Bytes)
      requires found + HEAD <= |raw|
      ensures r == Absorbed(raw, 0, found, extra)
    {
      hide HeadAt;
      var scan := 0;
      while true
        invariant scan <= found && Absorbed(raw, 0, found, extra) == Absorbed(raw, scan, found, extra)
        decreases found - scan
      {
        var de := HeadAt(raw, scan);
        if de.recLen == 0 {
          return raw;
        }
        var next := scan + de.recLen;
        if next == found {
          return Patched(raw, scan + 4, Bytes16Le((de.recLen + extra) % 0x1_0000));
        }
        if next > found {
          return raw;
        }
        scan := next;
      }
    }

    // ---- Paths ----

    /** `walk` from the root. */
    method WalkPath(path: Bytes) returns (r: Result<(nat, Inode), Error>)
      requires geo.inodesPerGroup > 0
      ensures r == Locate(disk, geo, path)
    {
      hide ReadInode, Walk, Components;
      var root := ReadInode(disk, geo, ROOT);
      if root.Err? {
        return Err(root.error);
      }
      if path == [] || path == [SLASH] {
        return Ok((ROOT, root.value));
      }
      var ino, x := ROOT, root.value;
      var components := Components(path);
      var k := 0;
      assert components[0..] == components;
      while k < |components|
        invariant k <= |components| && ino > 0
        invariant Follow(disk, geo, ROOT, root.value, components) == Follow(disk, geo, ino, x, components[k..])
      {
        assert components[k..][0] == components[k] && components[k..][1..] == components[k + 1..];
        if components[k] != [] {
          if !IsDir(x) {
            return Err(NotADirectory);
          }
          var entries := ReadDirInode(x);
          if entries.Err? {
            return Err(entries.error);
          }
          var entry := Lookup(entries.value, components[k]);
          if entry.None? {
            return Err(FileNotFound);
          }
          ListedUsed(disk, x);
          var next := ReadInode(disk, geo, entry.value.ino);
          if next.Err? {
            return Err(next.error);
          }
          ino, x := entry.value.ino, next.value;
        }
        k := k + 1;
      }
      return Ok((ino, x));
    }

    /** `create_file`. */
    method Create(path: Bytes) returns (error: Option<Error>)
      requires geo.inodesPerGroup > 0
      modifies this
      ensures Outcome(disk, error) == CreateFile(old(disk), geo, path)
    {
      hide Target, AllocInode, WriteInode, DirAdd, EmptyFile;
      var target := Target(disk, geo, path);
      if target.Err? {
        return Some(target.error);
      }
      var ino := AllocateInode();
      if ino.Err? {
        return Some(ino.error);
      }
      error := PutInode(ino.value, EmptyFile());
      if error.Some? {
        return;
      }
      var parent;
      parent, error := DirAddEntry(target.value.inode, target.value.name, ino.value, FT_REG);
      if error.Some? {
        return;
      }
      error := PutInode(target.value.parent, parent);
    }

    /** `write_file`: a file that is not found is created, and the call starts over. On a well-formed file
        system this ends, since each creation takes a free inode. */
    method WriteFile(path: Bytes, data: Bytes) returns (error: Option<Error>)
      requires Consistent(disk, geo) && geo.inodesPerGroup > 0
      modifies this
      ensures Outcome(disk, error) == WriteOutcome(old(disk), geo, path, data)
      decreases FreeSet(disk, geo)
    {
      hide Consistent, Locate, CreateFile, ReadInode, WriteData, WriteInode, FreeSet;
      var found := WalkPath(path);
      if found.Err? {
        CreationConsumes(disk, geo, path);
        error := Create(path);
        if error.Some? {
          return;
        }
        error := WriteFile(path, data);
        return;
      }
      var (ino, x) := found.value;
      if IsDir(x) {
        return Some(IsADirectory);
      }
      var w;
      w, error := WriteFileData(x, data);
      if error.Some? {
        return;
      }
      error := PutInode(ino, w);
    }
  }

  /** One step of the loop of `read_dir_inode`. */
  lemma ListsOneMore(raw: Bytes, at: nat, entries: seq<Entry>)
    requires at + HEAD <= |raw| && HeadAt(raw, at).ino != 0 && HeadAt(raw, at).recLen != 0
    ensures entries + Visible(Walk(raw, at)) ==
      entries + Visible(EntryAt(raw, at)) + Visible(Walk(raw, at + HeadAt(raw, at).recLen))
  {
    hide HeadAt, EntryAt, Visible;
    var here, rest := EntryAt(raw, at), Walk(raw, at + HeadAt(raw, at).recLen);
    VisibleAppend(here, rest);
    assert entries + (Visible(here) + Visible(rest)) == entries + Visible(here) + Visible(rest);
  }

  lemma ListsNoMore(raw: Bytes, at: nat)
    requires at >= |raw| || at + HEAD > |raw| || HeadAt(raw, at).ino == 0 || HeadAt(raw, at).recLen == 0
    ensures Visible(Walk(raw, at)) == []
  {
    hide HeadAt, EntryAt;
  }

  lemma AllocFits(d: Disk, geo: Geometry)
    ensures AllocBlock(d, geo).Ok? ==> AllocBlock(d, geo).value.1 < BITS
  {
  }

  /** `read_file`. */
  function ReadPath(d: Disk, geo: Geometry, path: Bytes): Result<Bytes, Error>
    requires geo.inodesPerGroup > 0
  {
    var found := Locate(d, geo, path);
    if found.Err? then Err(found.error)
    else if IsDir(found.value.1) then Err(IsADirectory)
    else ReadFile(d, found.value.1)
  }

  /** Rewriting a file that is not a directory leaves every path to it in place. */
  lemma {:induction false} FollowAfterWrite(d: Disk, d': Disk, geo: Geometry, i: nat, x: Inode, components: seq<Bytes>,
      ino: nat, y: Inode, y': Inode)
    requires DirsOk(d, geo) && ValidIno(geo, i) && ReadInode(d, geo, i) == Ok(x)
    requires Follow(d, geo, i, x, components) == Ok((ino, y)) && !IsDir(y)
    requires ValidIno(geo, ino) && ReadInode(d, geo, ino) == Ok(y) && ReadInode(d', geo, ino) == Ok(y') && !IsDir(y')
    requires forall j :: ValidIno(geo, j) && j != ino ==> FileSame(d, d', geo, j)
    ensures Follow(d', geo, i, if i == ino then y' else x, components) == Ok((ino, y'))
    decreases |components|
  {
    hide ReadInode, Walk, DirectoryData, Visible, ReadFile;
    if components != [] {
      if components[0] == [] {
        FollowAfterWrite(d, d', geo, i, x, components[1..], ino, y, y');
      } else {
        assert i != ino && FileSame(d, d', geo, i);
        assert DirOk(d, geo, i);
        ListsExisting(geo, ReadFile(d, x).value);
        ListedUsed(d, x);
        var e := Lookup(ReadDir(d, x).value, components[0]).value;
        assert e.ino != ino ==> FileSame(d, d', geo, e.ino);
        FollowAfterWrite(d, d', geo, e.ino, ReadInode(d, geo, e.ino).value, components[1..], ino, y, y');
      }
    }
  }

  lemma WrittenPathReads(d: Disk, d': Disk, geo: Geometry, role: Roles, path: Bytes, data: Bytes)
    requires Sound(d, geo, role) && geo.inodesPerGroup > 0 && Locate(d, geo, path).Ok?
    requires !IsDir(Locate(d, geo, path).value.1)
    requires var w := WriteData(d, geo, Locate(d, geo, path).value.1, data);
      w.error.None? && WriteInode(w.disk, geo, Locate(d, geo, path).value.0, w.inode) == Ok(d')
    ensures ReadPath(d', geo, path) == Ok(data)
  {
    hide WellFormed, DirsOk, ReadInode, WriteInode, WriteData, Follow, Components, ReadFile, MetaOk;
    var (ino, x) := Locate(d, geo, path).value;
    LocateStaysInside(d, geo, role, path);
    var root := OwnInode(d, geo, role, ROOT);
    var own := OwnInode(d, geo, role, ino);
    var role' := WriteOneFile(d, geo, role, ino, data);
    var w := WriteData(d, geo, x, data);
    var role1 := WriteIsPrivate(d, geo, role, ino, x, data);
    StoreSame(w.disk, geo, role1, ino, w.inode, ino, w.inode);
    assert WriteInto(d, geo, ino, data) == Outcome(d', None);
    if path == [] || path == [SLASH] {
    } else {
      FollowAfterWrite(d, d', geo, ROOT, root, Components(path), ino, x, w.inode);
      assert ROOT != ino ==> FileSame(d, d', geo, ROOT);
    }
  }

  /** When `write_file` succeeds, however many creations it took, reading the path gives the data. */
  lemma {:induction false} WriteOutcomeReads(d: Disk, geo: Geometry, path: Bytes, data: Bytes)
    requires Consistent(d, geo)
    ensures geo.inodesPerGroup > 0
    ensures WriteOutcome(d, geo, path, data).error.None? ==>
      ReadPath(WriteOutcome(d, geo, path, data).disk, geo, path) == Ok(data)
    decreases FreeSet(d, geo)
  {
    hide Consistent, Sound, Locate, CreateFile, ReadInode, WriteData, WriteInode, FreeSet, ReadPath;
    CreationConsumes(d, geo, path);
    var found := Locate(d, geo, path);
    if found.Err? {
      if CreateFile(d, geo, path).error.None? {
        WriteOutcomeReads(CreateFile(d, geo, path).disk, geo, path, data);
      }
    } else if !IsDir(found.value.1) && WriteOutcome(d, geo, path, data).error.None? {
      var role := SomeRoles(d, geo);
      WrittenPathReads(d, WriteOutcome(d, geo, path, data).disk, geo, role, path, data);
    }
  }
}
