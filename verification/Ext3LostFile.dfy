/** A small file system on which a created file is never found, so that `write_file` can only fail. */
module Ext3LostFile {
  import opened Basics
  import opened Wire
  import opened Bits
  import opened Ext3Layout
  import opened Ext3Disk
  import opened Ext3Files
  import opened Ext3Dirs
  import opened Ext3Writes
  import opened Ext3Paths
  import opened Ext3Creation
  import opened Ext3Sharing

  /** A root directory whose data is an unused record: eight bytes, in a hole. */
  function RootInode(): Inode {
    EmptyInode().(mode := 0x41ED, size := HEAD)
  }

  /** The path `//a`. */
  const PATH: Bytes := [SLASH, SLASH, 0x61]

  const USED: set<nat> := {0, 1, 2, 3, 4}

  const FILES: map<nat, Inode> := EMPTY_FILES[2 := RootInode()]

  /** The fresh disk with inodes 1 and 2 taken and the root directory made. */
  function RootDisk(): (d: Disk)
    ensures d.Keys == FreshDisk().Keys
  {
    hide FirstUsed, WithInode, Descriptors, Zeros;
    FreshDisk()[4 := FirstUsed(2)][5 := WithInode(Zeros(BLOCK_SIZE), 1, RootInode())]
  }

  lemma RootIsDir()
    ensures IsDir(RootInode()) && !IsDir(EmptyInode())
  {
    NoBits(14);
    DirectoryMode();
  }

  lemma DirectoryMode()
    ensures Bit(0x41ED, 14)
  {
    assert Bit(0x41ED, 14) == Bit(0x4, 2) by {
      assert Bit(0x41ED, 14) == Bit(0x41ED / 2 / 2 / 2, 11);
      assert Bit(0x83D, 11) == Bit(0x83D / 2 / 2 / 2, 8);
      assert Bit(0x107, 8) == Bit(0x107 / 2 / 2 / 2, 5);
      assert Bit(0x20, 5) == Bit(0x20 / 2 / 2 / 2, 2);
    }
  }

  lemma RootState()
    ensures State(RootDisk(), USED, FILES) && RootDisk()[4] == FirstUsed(2)
  {
    hide MetaOk, FirstUsed, BitAt, ReadInode, Descriptors, WithInode, Zeros;
    FreshState();
    var d := FreshDisk()[4 := FirstUsed(2)];
    Stored(FreshDisk(), d, USED, USED, EMPTY_FILES, 2, RootInode());
    RootStored(d);
  }

  lemma RootStored(d: Disk)
    requires d == FreshDisk()[4 := FirstUsed(2)] && ValidIno(GEO, 2)
    ensures WriteInode(d, GEO, 2, RootInode()) == Ok(RootDisk())
  {
    hide DescIn, Descriptors, FirstUsed, WithInode, Zeros;
    ValidHere(2);
    FreshDesc();
  }

  // ---- It is sound ----

  lemma StateIsWellFormed(d: Disk, files: map<nat, Inode>)
    requires State(d, USED, files) && forall ino :: 1 <= ino <= 8 ==> files[ino].block == EmptyInode().block
    ensures WellFormed(d, GEO, META)
  {
    hide MetaOk, BitAt, ReadInode;
    forall ino | ValidIno(GEO, ino) ensures InodeOk(d, GEO, META, ino) {
      ValidHere(ino);
    }
  }

  lemma HoleReads(d: Disk)
    ensures ReadFile(d, RootInode()) == Ok(Zeros(HEAD))
  {
    var x := RootInode();
    assert BlocksFor(HEAD) == 1 && ChunkSize(HEAD, 0) == HEAD;
    assert FileBlock(d, x, 0) == Ok(0);
    assert ReadChunk(d, x, 0) == Ok(Zeros(HEAD));
    assert ReadFrom(d, x, 1) == Ok([]);
    assert Zeros(HEAD) + [] == Zeros(HEAD);
  }

  lemma HoleIsUnused()
    ensures Dead(Zeros(HEAD)) && DirectoryData(GEO, Zeros(HEAD))
    ensures Walk(Zeros(HEAD), 0) == [] && Visible(Walk(Zeros(HEAD), 0)) == [] && !Full(Zeros(HEAD))
  {
    var raw := Zeros(HEAD);
    Le32Is(0, 0, 0, 0);
    assert raw[..0] == [] && raw[0..] == raw;
    assert Tiles([], []);
    assert Shaped(GEO, raw, [], 0);
  }

  lemma RootIsSound()
    ensures Sound(RootDisk(), GEO, META)
  {
    hide State, WellFormed, RootDisk, ReadInode, ReadFile, BitAt, FirstUsed, Zeros, DirectoryData, Walk, Full;
    var d := RootDisk();
    RootState();
    StateIsWellFormed(d, FILES);
    RootIsDir();
    HoleReads(d);
    HoleIsUnused();
    ValidHere(ROOT);
    forall i | ValidIno(GEO, i) ensures DirOk(d, GEO, i) && forall e :: !Names(d, GEO, i, e) {
      ValidHere(i);
      InodeOfState(d, USED, FILES, i);
    }
    RootTaken(d);
  }

  lemma RootTaken(d: Disk)
    requires State(d, USED, FILES) && 4 in d && d[4] == FirstUsed(2)
    ensures Taken(d, GEO, ROOT)
  {
    hide MetaOk, ReadInode, BitAt, FirstUsed;
    FirstUsedBits(2, 1);
  }

  // ---- The creation succeeds ----

  lemma TargetHere()
    ensures Target(RootDisk(), GEO, PATH) == Ok(Place(ROOT, RootInode(), [0x61]))
  {
    hide State, RootDisk, ReadInode, ReadFile, Zeros, Walk, Visible, IsDir;
    RootState();
    InodeOfState(RootDisk(), USED, FILES, ROOT);
    HoleReads(RootDisk());
    HoleIsUnused();
    RootIsDir();
    assert PATH[..2] == [SLASH, SLASH] && [SLASH, SLASH][..1] == [SLASH];
    assert LastSlash(PATH) == Some(1) && PATH[..1] == [SLASH] && PATH[2..] == [0x61];
  }

  /** Inode 3 is free, and is made. */
  lemma InodeHere() returns (d: Disk)
    ensures NewInode(RootDisk(), GEO) == (d, Ok(3)) && State(d, USED, FILES[3 := EmptyFile()])
  {
    hide State, RootDisk, ReadInode, WriteInode, BitAt, WithBit, FirstUsed, EmptyFile;
    RootState();
    var d0 := RootDisk();
    TakesThree(d0);
    var d1 := d0[4 := WithBit(d0[4], 2, true)];
    InodeTaken(d0, d1);
    Stored(d0, d1, USED, USED, FILES, 3, EmptyFile());
    d := WriteInode(d1, GEO, 3, EmptyFile()).value;
  }

  lemma TakesThree(d: Disk)
    requires State(d, USED, FILES) && 4 in d && d[4] == FirstUsed(2)
    ensures AllocInode(d, GEO) == Ok((d[4 := WithBit(d[4], 2, true)], 3))
  {
    hide MetaOk, ReadInode, BitAt, FirstUsed, WithBit, DescIn;
    forall j: nat | j < BITS ensures BitAt(d[4], j) <==> j < 2 {
      FirstUsedBits(2, j);
    }
    FirstClearIs(d[4], 8, 2);
  }

  lemma InodeTaken(d: Disk, d': Disk)
    requires State(d, USED, FILES) && 4 in d && d' == d[4 := WithBit(d[4], 2, true)]
    ensures d'.Keys == d.Keys && SameMeta(d, d', META) && BITMAP in d'
    ensures forall j :: 0 <= j < BITS ==> (BitAt(d'[BITMAP], j) <==> j in USED)
  {
    hide MetaOk, ReadInode, BitAt, WithBit;
  }

  /** The new record goes behind the unused one, into a new block. */
  lemma EntryHere(d: Disk)
    requires State(d, USED, FILES[3 := EmptyFile()])
    ensures StoreInode(DirAdd(d, GEO, RootInode(), [0x61], 3, FT_REG), GEO, ROOT).error.None?
  {
    hide State, ReadInode, ReadFile, WriteData, StoreInode, NewRecord, Zeros, EmptyFile, WithEntry;
    var longer := Zeros(HEAD) + NewRecord([0x61], 3, FT_REG);
    HoleReads(d);
    WithEntryAppends(Zeros(HEAD), [0x61], 3, FT_REG);
    InodeOfState(d, USED, FILES[3 := EmptyFile()], ROOT);
    UsedSets();
    WritesShort(d, USED, FILES[3 := EmptyFile()], ROOT, longer, 5);
  }

  /** On a sound disk, `//a` is not there and is created, and is not there afterwards; so `write_file` fails
      on it whatever it is to write. */
  lemma LosesFile(data: Bytes)
    ensures Sound(RootDisk(), GEO, META) && Locate(RootDisk(), GEO, PATH).Err?
    ensures var o := CreateFile(RootDisk(), GEO, PATH);
      o.error.None? && Locate(o.disk, GEO, PATH) == Err(FileNotFound)
    ensures WriteOutcome(RootDisk(), GEO, PATH, data).error.Some?
  {
    hide Sound, Target, NewInode, DirAdd, StoreInode, RootDisk, Locate, State, ReadFile, Zeros, WalkEnd, WriteOutcome;
    hide EmptyFile;
    RootIsSound();
    TargetHere();
    var d := InodeHere();
    EntryHere(d);
    HoleReads(RootDisk());
    HoleIsUnused();
    NotThere();
    CreatedIsFoundExactly(RootDisk(), GEO, META, PATH);
    WriteSucceedsExactly(RootDisk(), GEO, PATH, data);
  }

  lemma NotThere()
    ensures Locate(RootDisk(), GEO, PATH) == Err(FileNotFound)
  {
    hide State, RootDisk, ReadInode, ReadFile, Zeros, Walk, Visible, IsDir;
    RootState();
    InodeOfState(RootDisk(), USED, FILES, ROOT);
    HoleReads(RootDisk());
    HoleIsUnused();
    RootIsDir();
    var name: Bytes := [0x61];
    ComponentsOfName(name);
    assert ReadDir(RootDisk(), RootInode()) == Ok([]);
    assert Follow(RootDisk(), GEO, ROOT, RootInode(), [name]) == Err(FileNotFound);
    assert Follow(RootDisk(), GEO, ROOT, RootInode(), [[], name]) == Err(FileNotFound) by {
      assert [[], name][1..] == [name];
    }
    assert PATH[1..] == [SLASH, 0x61] && PATH[1..][1..] == name;
    assert Components(PATH) == [[], [], name];
    assert Components(PATH)[1..] == [[], name] && Components(PATH)[1..][1..] == [name];
  }
}
