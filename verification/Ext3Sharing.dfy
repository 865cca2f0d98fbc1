/** A small empty file system, and four short writes on it after which two files share a block. */
module Ext3Sharing {
  import opened Basics
  import opened Wire
  import opened Bits
  import opened Ext3Layout
  import opened Ext3Disk
  import opened Ext3Files
  import opened Ext3Writes

  /** One group of eight inodes. */
  const GEO := Geometry(8, 8192, 1)

  const BITMAP: nat := 3

  /** Descriptors in block 2, bitmaps in 3 and 4, the inode table in 5. */
  const META: Roles := map[2 := Descs, 3 := BlockBitmap, 4 := InodeBitmap, 5 := Table(0, 0)]

  function Descriptors(): Block {
    [3, 0, 0, 0, 4, 0, 0, 0, 5, 0, 0, 0] + Zeros(BLOCK_SIZE - 12)
  }

  /** A bitmap with its first `n` bits set. */
  function FirstUsed(n: nat): Block
    requires n <= BITS
  {
    if n == 0 then Zeros(BLOCK_SIZE) else WithBit(FirstUsed(n - 1), n - 1, true)
  }

  /** Nothing but metadata in use, and two blocks for data. */
  function FreshDisk(): Disk {
    map[2 := Descriptors(), 3 := FirstUsed(5), 4 := Zeros(BLOCK_SIZE), 5 := Zeros(BLOCK_SIZE), 6 := Zeros(BLOCK_SIZE),
      7 := Zeros(BLOCK_SIZE)]
  }

  function EmptyInode(): Inode {
    Inode(0, 0, 0, 0, 0, 0, 0, 0, 0, 0, 0, 0, seq(INODE_BLOCKS, _ => 0), 0, 0, 0, 0)
  }

  // ---- The fresh disk is well-formed ----

  lemma {:induction false} FirstUsedBits(n: nat, j: nat)
    requires n <= BITS && j < BITS
    ensures BitAt(FirstUsed(n), j) <==> j < n
  {
    hide BitAt, WithBit;
    if n == 0 {
      ZeroBit(j);
    } else {
      FirstUsedBits(n - 1, j);
      WithBitMeans(FirstUsed(n - 1), n - 1, true, j);
    }
  }

  lemma ZeroBit(j: nat)
    requires j < BITS
    ensures !BitAt(Zeros(BLOCK_SIZE), j)
  {
    NoBits(j % 8);
  }

  lemma FreshDesc()
    ensures DescIn(Descriptors(), 0) == Desc(3, 4, 5)
  {
    Le32Is(3, 0, 0, 0);
    Le32Is(4, 0, 0, 0);
    Le32Is(5, 0, 0, 0);
  }

  lemma ZeroInode(k: nat)
    requires k < INODES_PER_BLOCK
    ensures InodeIn(Zeros(BLOCK_SIZE), k) == EmptyInode()
  {
    hide Le32;
    Le32Is(0, 0, 0, 0);
    var words := WordsOf(Zeros(BLOCK_SIZE), k * INODE_SIZE, INODE_WORDS);
    assert forall i :: 0 <= i < INODE_WORDS ==> words[i] == 0;
    assert words[10..25] == EmptyInode().block;
  }

  lemma FreshMeta()
    ensures MetaOk(FreshDisk(), GEO, META) && Bitmaps(FreshDisk()) == Desc(3, 4, 5)
  {
    hide DescIn, Descriptors, FirstUsed, Zeros;
    FreshDesc();
    assert TableBlocks(GEO) == 1;
    assert TableAt(FreshDisk(), META, Desc(3, 4, 5), 0, 0);
    assert GroupOk(FreshDisk(), GEO, META, 0);
  }

  lemma ValidHere(ino: nat)
    ensures ValidIno(GEO, ino) <==> 1 <= ino <= 8
    ensures 1 <= ino <= 8 ==> GroupOf(GEO, ino) == 0 && IndexOf(GEO, ino) == ino - 1
  {
    if ino > 0 {
      QuotientIsDivision(ino - 1, 8);
    }
  }

  lemma FreshInode(ino: nat)
    requires 1 <= ino <= 8
    ensures ValidIno(GEO, ino) && ReadInode(FreshDisk(), GEO, ino) == Ok(EmptyInode())
  {
    hide DescIn, Descriptors, FirstUsed, InodeIn, Zeros;
    ValidHere(ino);
    FreshDesc();
    ZeroInode(ino - 1);
  }

  lemma FreshIsWellFormed()
    ensures WellFormed(FreshDisk(), GEO, META)
  {
    hide MetaOk, FirstUsed, BitAt, ReadInode, Descriptors;
    FreshMeta();
    forall b | b in META ensures Marked(FreshDisk()[3], GEO, b) {
      FirstUsedBits(5, b - 1);
    }
    forall ino | ValidIno(GEO, ino) ensures InodeOk(FreshDisk(), GEO, META, ino) {
      ValidHere(ino);
      FreshInode(ino);
    }
  }

  // ---- One write after another ----

  /** Metadata in place, exactly the bits in `used` set, and these inodes. */
  ghost predicate State(d: Disk, used: set<nat>, files: map<nat, Inode>) {
    && MetaOk(d, GEO, META) && DescBlock(0) in d && Bitmaps(d) == Desc(3, 4, 5) && BITMAP in d
    && d.Keys == FreshDisk().Keys
    && (forall j :: 0 <= j < BITS ==> (BitAt(d[BITMAP], j) <==> j in used))
    && (forall ino :: 1 <= ino <= 8 ==> ValidIno(GEO, ino) && ino in files && ReadInode(d, GEO, ino) == Ok(files[ino]))
  }

  ghost predicate Lowest(used: set<nat>, bit: nat) {
    bit !in used && forall j: nat :: j < bit ==> j in used
  }

  /** Data of one block. */
  predicate Short(data: Bytes) {
    0 < |data| <= BLOCK_SIZE
  }

  /** The disk and inode after it goes to a new block. */
  function ShortDisk(d: Disk, data: Bytes, bit: nat): Disk
    requires BITMAP in d && bit < BITS && Short(data)
  {
    d[BITMAP := WithBit(d[BITMAP], bit, true)][bit + 1 := Padded(data, 0)]
  }

  function ShortInode(x: Inode, n: nat, bit: nat): Inode
    requires bit < BITS && n <= BLOCK_SIZE
  {
    x.(block := x.block[0 := bit + 1], size := n)
  }

  lemma ShortWritten(d: Disk, x: Inode, data: Bytes, bit: nat)
    requires DescBlock(0) in d && Bitmaps(d) == Desc(3, 4, 5) && BITMAP in d && bit < BITS && bit + 1 in d
    requires Short(data)
    requires x.size <= BLOCK_SIZE && x.block[0] == 0 && FirstClear(d[BITMAP], BITS, 0) == Some(bit)
    ensures WriteData(d, GEO, x, data) == Written(ShortDisk(d, data, bit), ShortInode(x, |data|, bit), None)
  {
    hide DescIn, WithBit, Padded, FirstClear;
    assert BlocksFor(|data|) == 1 && BlocksFor(x.size) <= 1;
    var d1, x1 := d[BITMAP := WithBit(d[BITMAP], bit, true)], x.(block := x.block[0 := bit + 1]);
    assert AllocBlock(d, GEO) == Ok((d1, bit));
    assert Grow(d1, GEO, x1, 1, 1) == Written(d1, x1, None);
    assert Grow(d, GEO, x, 0, 1) == Written(d1, x1, None);
    var d2 := ShortDisk(d, data, bit);
    assert Fill(d2, x1, data, 1) == (d2, None);
    assert Fill(d1, x1, data, 0) == (d2, None);
    assert Shrink(d2, x1, 1, BlocksFor(x.size)) == Written(d2, x1, None);
  }

  /** After the data is changed, storing the inode. */
  lemma Stored(d: Disk, d': Disk, used: set<nat>, used': set<nat>, files: map<nat, Inode>, ino: nat, x: Inode)
    requires State(d, used, files) && 1 <= ino <= 8 && d'.Keys == d.Keys && SameMeta(d, d', META)
    requires forall j :: 0 <= j < BITS ==> (BitAt(d'[BITMAP], j) <==> j in used')
    ensures WriteInode(d', GEO, ino, x).Ok? && State(WriteInode(d', GEO, ino, x).value, used', files[ino := x])
    ensures forall b :: b in d' && (b == 6 || b == 7) ==> WriteInode(d', GEO, ino, x).value[b] == d'[b]
  {
    hide MetaOk, ReadInode, BitAt, WriteInode;
    MetaFrame(d, d', GEO, META, META);
    StoreKeepsMeta(d', ino, x);
    var d'' := WriteInode(d', GEO, ino, x).value;
    forall j | 1 <= j <= 8 ensures ReadInode(d'', GEO, j) == Ok(files[ino := x][j]) {
      InodeSlots(d', GEO, META, ino, x, j);
      InodeFrame(d, d', GEO, META, j);
    }
  }

  lemma StoreKeepsMeta(d: Disk, ino: nat, x: Inode)
    requires MetaOk(d, GEO, META) && ValidIno(GEO, ino)
    ensures WriteInode(d, GEO, ino, x).Ok? && MetaOk(WriteInode(d, GEO, ino, x).value, GEO, META)
    ensures var d' := WriteInode(d, GEO, ino, x).value;
      && d'.Keys == d.Keys && d'[DescBlock(0)] == d[DescBlock(0)]
      && forall b :: b in d && b != 5 ==> d'[b] == d[b]
  {
    hide DescIn, InodeIn, WithInode, TableBlocks;
    InodeAt(d, GEO, META, ino);
    var d' := WriteInode(d, GEO, ino, x).value;
    forall g | 0 <= g < GEO.groups ensures GroupOk(d', GEO, META, g) {
      OtherTable(d, d', GEO, META, g);
    }
    OtherTable(d, d', GEO, META, 0);
  }

  /** Data blocks other than `b` are the same. */
  ghost predicate SameData(d: Disk, d': Disk, b: nat)
    requires d.Keys == d'.Keys == FreshDisk().Keys
  {
    (b != 6 ==> d'[6] == d[6]) && (b != 7 ==> d'[7] == d[7])
  }

  /** Data written to a file without blocks takes the lowest clear bit's block. */
  lemma WritesShort(d: Disk, used: set<nat>, files: map<nat, Inode>, ino: nat, data: Bytes, bit: nat)
    requires State(d, used, files) && 1 <= ino <= 8 && files[ino].size <= BLOCK_SIZE && files[ino].block[0] == 0
    requires Lowest(used, bit) && (bit == 5 || bit == 6) && Short(data)
    ensures var o := WriteInto(d, GEO, ino, data);
      && o.error.None? && State(o.disk, used + {bit}, files[ino := ShortInode(files[ino], |data|, bit)])
      && o.disk[bit + 1] == Padded(data, 0) && SameData(d, o.disk, bit + 1)
  {
    hide MetaOk, ReadInode, BitAt, WriteInode, WriteData, WithBit, Padded, DescIn;
    var x, d' := files[ino], ShortDisk(d, data, bit);
    FirstClearIs(d[BITMAP], BITS, bit);
    ShortWritten(d, x, data, bit);
    forall j | 0 <= j < BITS ensures BitAt(d'[BITMAP], j) <==> j in used + {bit} {
      WithBitMeans(d[BITMAP], bit, true, j);
    }
    Stored(d, d', used, used + {bit}, files, ino, ShortInode(x, |data|, bit));
  }

  function EmptiedInode(x: Inode): Inode {
    x.(block := x.block[0 := 0], size := 0)
  }

  lemma Emptied(d: Disk, x: Inode)
    requires DescBlock(0) in d && Bitmaps(d) == Desc(3, 4, 5) && BITMAP in d && x.size == 1 && 0 < x.block[0] < BITS
    ensures WriteData(d, GEO, x, []) ==
      Written(d[BITMAP := WithBit(d[BITMAP], x.block[0], false)], EmptiedInode(x), None)
  {
    hide DescIn, WithBit;
    var d1, x1 := d[BITMAP := WithBit(d[BITMAP], x.block[0], false)], x.(block := x.block[0 := 0]);
    assert BlocksFor(0) == 0 && BlocksFor(1) == 1;
    assert FreeBlock(d, x.block[0]) == Ok(d1);
    assert Shrink(d1, x1, 1, 1) == Written(d1, x1, None);
    assert Shrink(d, x, 0, 1) == Written(d1, x1, None);
  }

  /** Emptying a one-byte file clears the bit of the block behind its own. */
  lemma Empties(d: Disk, used: set<nat>, files: map<nat, Inode>, ino: nat)
    requires State(d, used, files) && 1 <= ino <= 8 && files[ino].size == 1
    requires files[ino].block[0] == 6 || files[ino].block[0] == 7
    ensures var o := WriteInto(d, GEO, ino, []);
      && o.error.None? && State(o.disk, used - {files[ino].block[0]}, files[ino := EmptiedInode(files[ino])])
      && SameData(d, o.disk, 0)
  {
    hide MetaOk, ReadInode, BitAt, WriteInode, WriteData, WithBit, DescIn;
    var x := files[ino];
    var d' := d[BITMAP := WithBit(d[BITMAP], x.block[0], false)];
    Emptied(d, x);
    forall j | 0 <= j < BITS ensures BitAt(d'[BITMAP], j) <==> j in used - {x.block[0]} {
      WithBitMeans(d[BITMAP], x.block[0], false, j);
    }
    Stored(d, d', used, used - {x.block[0]}, files, ino, EmptiedInode(x));
  }

  lemma ReadsByte(d: Disk, x: Inode, v: Byte)
    requires x.size == 1 && x.block[0] != 0 && x.block[0] in d && d[x.block[0]] == Padded([v], 0)
    ensures ReadFile(d, x) == Ok([v])
  {
    var data: Bytes := [v];
    assert BlocksFor(1) == 1 && ChunkSize(1, 0) == 1;
    assert Padded(data, 0)[..1] == data;
    assert FileBlock(d, x, 0) == Ok(x.block[0]);
    assert ReadChunk(d, x, 0) == Ok(data);
    assert ReadFrom(d, x, 1) == Ok([]);
    assert data + [] == data;
  }

  const EMPTY_FILES: map<nat, Inode> := map[
    1 := EmptyInode(), 2 := EmptyInode(), 3 := EmptyInode(), 4 := EmptyInode(),
    5 := EmptyInode(), 6 := EmptyInode(), 7 := EmptyInode(), 8 := EmptyInode()]

  lemma FreshState()
    ensures State(FreshDisk(), {0, 1, 2, 3, 4}, EMPTY_FILES)
  {
    hide MetaOk, FirstUsed, BitAt, ReadInode, Descriptors;
    FreshMeta();
    forall j | 0 <= j < BITS ensures BitAt(FreshDisk()[BITMAP], j) <==> j in {0, 1, 2, 3, 4} {
      FirstUsedBits(5, j);
    }
    forall ino | 1 <= ino <= 8 ensures ValidIno(GEO, ino) && ReadInode(FreshDisk(), GEO, ino) == Ok(EMPTY_FILES[ino]) {
      FreshInode(ino);
    }
  }

  lemma UsedSets()
    ensures Lowest({0, 1, 2, 3, 4}, 5) && Lowest({0, 1, 2, 3, 4, 5}, 6)
    ensures {0, 1, 2, 3, 4} + {5} == {0, 1, 2, 3, 4, 5} && {0, 1, 2, 3, 4, 5} + {6} == {0, 1, 2, 3, 4, 5, 6}
    ensures {0, 1, 2, 3, 4, 5, 6} - {6} == {0, 1, 2, 3, 4, 5}
  {
  }

  /** Two files of one byte, in neighbouring blocks. */
  lemma TwoFiles(d: Disk, a: Byte, b: Byte) returns (d2: Disk, files: map<nat, Inode>)
    requires State(d, {0, 1, 2, 3, 4}, EMPTY_FILES)
    ensures var o1 := WriteInto(d, GEO, 1, [a]); var o2 := WriteInto(o1.disk, GEO, 2, [b]);
      o1.error.None? && o2.error.None? && d2 == o2.disk
    ensures State(d2, {0, 1, 2, 3, 4, 5, 6}, files) && d2[7] == Padded([b], 0)
    ensures files == EMPTY_FILES[1 := ShortInode(EmptyInode(), 1, 5)][2 := ShortInode(EmptyInode(), 1, 6)]
  {
    hide State, WriteInto, Padded, Lowest;
    UsedSets();
    var d1, files1 := WriteInto(d, GEO, 1, [a]).disk, EMPTY_FILES[1 := ShortInode(EmptyInode(), 1, 5)];
    WritesShort(d, {0, 1, 2, 3, 4}, EMPTY_FILES, 1, [a], 5);
    WritesShort(d1, {0, 1, 2, 3, 4, 5}, files1, 2, [b], 6);
    d2, files := WriteInto(d1, GEO, 2, [b]).disk, files1[2 := ShortInode(EmptyInode(), 1, 6)];
  }

  /** Emptying the first and writing a third, which gets the second's block. */
  lemma ThirdFile(d: Disk, files: map<nat, Inode>, c: Byte)
    requires State(d, {0, 1, 2, 3, 4, 5, 6}, files)
    requires files == EMPTY_FILES[1 := ShortInode(EmptyInode(), 1, 5)][2 := ShortInode(EmptyInode(), 1, 6)]
    ensures var o3 := WriteInto(d, GEO, 1, []); var o4 := WriteInto(o3.disk, GEO, 3, [c]);
      && o3.error.None? && o4.error.None? && 7 in o4.disk && o4.disk[7] == Padded([c], 0)
      && ReadInode(o4.disk, GEO, 2) == Ok(files[2])
  {
    hide State, WriteInto, Padded, ReadInode, Lowest;
    var d3, files3 := WriteInto(d, GEO, 1, []).disk, files[1 := EmptiedInode(files[1])];
    UsedSets();
    Empties(d, {0, 1, 2, 3, 4, 5, 6}, files, 1);
    WritesShort(d3, {0, 1, 2, 3, 4, 5}, files3, 3, [c], 6);
    InodeOfState(WriteInto(d3, GEO, 3, [c]).disk, {0, 1, 2, 3, 4, 5} + {6},
      files3[3 := ShortInode(files3[3], 1, 6)], 2);
  }

  lemma InodeOfState(d: Disk, used: set<nat>, files: map<nat, Inode>, ino: nat)
    requires State(d, used, files) && 1 <= ino <= 8
    ensures ino in files && ValidIno(GEO, ino) && ReadInode(d, GEO, ino) == Ok(files[ino]) && d.Keys == FreshDisk().Keys
    ensures 7 in d
  {
    hide MetaOk, ReadInode, BitAt;
    assert 7 in FreshDisk().Keys;
  }

  /** On a well-formed disk with eight empty files: after a byte is written to files 1 and 2, file 1 is
      emptied and a byte is written to file 3, reading file 2 gives file 3's byte. */
  lemma ShrinkingSharesBlocks(a: Byte, b: Byte, c: Byte)
    ensures WellFormed(FreshDisk(), GEO, META) && ValidIno(GEO, 1) && ValidIno(GEO, 2) && ValidIno(GEO, 3)
    ensures var o1 := WriteInto(FreshDisk(), GEO, 1, [a]); var o2 := WriteInto(o1.disk, GEO, 2, [b]);
      var o3 := WriteInto(o2.disk, GEO, 1, []); var o4 := WriteInto(o3.disk, GEO, 3, [c]);
      && o1.error.None? && o2.error.None? && o3.error.None? && o4.error.None?
      && Content(o2.disk, GEO, 2) == Ok([b]) && Content(o4.disk, GEO, 2) == Ok([c])
  {
    hide WellFormed, State, ReadInode, WriteInto, Padded, ReadFile;
    FreshIsWellFormed();
    FreshState();
    InodeOfState(FreshDisk(), {0, 1, 2, 3, 4}, EMPTY_FILES, 1);
    InodeOfState(FreshDisk(), {0, 1, 2, 3, 4}, EMPTY_FILES, 3);
    var d2, files := TwoFiles(FreshDisk(), a, b);
    InodeOfState(d2, {0, 1, 2, 3, 4, 5, 6}, files, 2);
    ReadsByte(d2, files[2], b);
    ThirdFile(d2, files, c);
    ReadsByte(WriteInto(WriteInto(d2, GEO, 1, []).disk, GEO, 3, [c]).disk, files[2], c);
  }
}
