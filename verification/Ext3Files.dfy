/** Who owns which block, and what writing one file does to everything else. */
module Ext3Files {
  import opened Basics
  import opened Wire
  import opened HeapMath
  import opened Ext3Layout
  import opened Ext3Disk

  /** What a block is for. `Data(ino, k)` is block `k` of that inode's file. */
  datatype Role = Descs | BlockBitmap | InodeBitmap | Table(group: nat, t: nat) | Reserved | Data(ino: nat, k: nat)

  /** A map can give a block one role only, so no block is owned twice. */
  type Roles = map<nat, Role>

  predicate ValidIno(geo: Geometry, ino: nat) {
    geo.inodesPerGroup > 0 && ino > 0 && GroupOf(geo, ino) < geo.groups
  }

  function TableBlocks(geo: Geometry): nat {
    (geo.inodesPerGroup + INODES_PER_BLOCK - 1) / INODES_PER_BLOCK
  }

  predicate HasRole(role: Roles, b: nat, r: Role) {
    b in role && role[b] == r
  }

  // ---- A well-formed disk ----

  ghost predicate GroupOk(d: Disk, geo: Geometry, role: Roles, g: nat) {
    && DescBlock(g) in d && HasRole(role, DescBlock(g), Descs)
    && var desc := DescIn(d[DescBlock(g)], g % DESCS_PER_BLOCK);
      forall t :: 0 <= t < TableBlocks(geo) ==> TableAt(d, role, desc, g, t)
  }

  predicate TableAt(d: Disk, role: Roles, desc: Desc, g: nat, t: nat) {
    desc.inodeTable + t in d && HasRole(role, desc.inodeTable + t, Table(g, t))
  }

  function Bitmaps(d: Disk): Desc
    requires DescBlock(0) in d
  {
    DescIn(d[DescBlock(0)], 0)
  }

  ghost predicate MetaOk(d: Disk, geo: Geometry, role: Roles) {
    && geo.inodesPerGroup > 0 && geo.groups > 0
    && (forall g :: 0 <= g < geo.groups ==> GroupOk(d, geo, role, g))
    && GroupOk(d, geo, role, 0)
    && Bitmaps(d).blockBitmap in d && HasRole(role, Bitmaps(d).blockBitmap, BlockBitmap)
    && Bitmaps(d).inodeBitmap in d && HasRole(role, Bitmaps(d).inodeBitmap, InodeBitmap)
  }

  /** Bit b of the bitmap stands for block b + 1. */
  predicate Marked(bitmap: Block, geo: Geometry, b: nat) {
    0 < b <= Limit(geo.blocksPerGroup) ==> BitAt(bitmap, b - 1)
  }

  ghost predicate Marks(d: Disk, geo: Geometry, role: Roles)
    requires DescBlock(0) in d && Bitmaps(d).blockBitmap in d
  {
    forall b :: b in role ==> Marked(d[Bitmaps(d).blockBitmap], geo, b)
  }

  /** The direct blocks of the inode are its own. */
  ghost predicate Mine(role: Roles, ino: nat, x: Inode) {
    && x.block[INDIRECT] == 0
    && forall k :: 0 <= k < DIRECT && x.block[k] != 0 ==> HasRole(role, x.block[k], Data(ino, k))
  }

  ghost predicate InodeOk(d: Disk, geo: Geometry, role: Roles, ino: nat)
    requires ValidIno(geo, ino)
  {
    var x := ReadInode(d, geo, ino);
    x.Ok? && Mine(role, ino, x.value)
  }

  ghost predicate InodesOk(d: Disk, geo: Geometry, role: Roles) {
    forall ino :: ValidIno(geo, ino) ==> InodeOk(d, geo, role, ino)
  }

  /** Metadata where the descriptors say; every block with a role marked used; every inode's blocks its own. */
  ghost predicate WellFormed(d: Disk, geo: Geometry, role: Roles) {
    MetaOk(d, geo, role) && Marks(d, geo, role) && InodesOk(d, geo, role)
  }

  lemma WellFormedMeta(d: Disk, geo: Geometry, role: Roles)
    requires WellFormed(d, geo, role)
    ensures MetaOk(d, geo, role)
  {
  }

  lemma BitmapsThere(d: Disk, geo: Geometry, role: Roles)
    requires MetaOk(d, geo, role)
    ensures DescBlock(0) in d && ReadDesc(d, 0) == Ok(Bitmaps(d))
    ensures Bitmaps(d).blockBitmap in d && HasRole(role, Bitmaps(d).blockBitmap, BlockBitmap)
    ensures Bitmaps(d).inodeBitmap in d && HasRole(role, Bitmaps(d).inodeBitmap, InodeBitmap)
  {
    hide TableBlocks, DescIn;
  }

  // ---- Frames ----

  /** Descriptors and inode tables are the same on both disks. */
  ghost predicate SameMeta(d: Disk, d': Disk, role: Roles) {
    && d'.Keys == d.Keys
    && forall b :: b in role && b in d && (role[b].Descs? || role[b].Table?) ==> d'[b] == d[b]
  }

  /** `now` has every role that `was` has. */
  ghost predicate Extends(was: Roles, now: Roles) {
    forall b :: b in was ==> b in now && now[b] == was[b]
  }

  lemma GroupFrame(d: Disk, d': Disk, geo: Geometry, role: Roles, role': Roles, g: nat)
    requires GroupOk(d, geo, role, g) && SameMeta(d, d', role) && Extends(role, role')
    ensures GroupOk(d', geo, role', g) && ReadDesc(d', g) == ReadDesc(d, g)
  {
    hide DescIn;
    var desc := DescIn(d[DescBlock(g)], g % DESCS_PER_BLOCK);
    forall t | 0 <= t < TableBlocks(geo) ensures TableAt(d', role', desc, g, t) {
      assert TableAt(d, role, desc, g, t);
    }
  }

  lemma MetaFrame(d: Disk, d': Disk, geo: Geometry, role: Roles, role': Roles)
    requires MetaOk(d, geo, role) && SameMeta(d, d', role) && Extends(role, role')
    ensures MetaOk(d', geo, role') && Bitmaps(d') == Bitmaps(d)
  {
    hide DescIn, TableBlocks;
    forall g | 0 <= g < geo.groups ensures GroupOk(d', geo, role', g) {
      GroupFrame(d, d', geo, role, role', g);
    }
    GroupFrame(d, d', geo, role, role', 0);
  }

  /** Where an inode's slot is. */
  lemma InodeAt(d: Disk, geo: Geometry, role: Roles, ino: nat)
    requires MetaOk(d, geo, role) && ValidIno(geo, ino)
    ensures var g, i := GroupOf(geo, ino), IndexOf(geo, ino);
      && GroupOk(d, geo, role, g) && ReadDesc(d, g).Ok?
      && var b := InodeBlockOf(geo, ReadDesc(d, g).value, ino);
        b in d && HasRole(role, b, Table(g, i / INODES_PER_BLOCK))
        && ReadInode(d, geo, ino) == Ok(InodeIn(d[b], i % INODES_PER_BLOCK))
  {
    hide DescIn, InodeIn;
    var g, t := GroupOf(geo, ino), IndexOf(geo, ino) / INODES_PER_BLOCK;
    assert GroupOk(d, geo, role, g);
    assert t < TableBlocks(geo);
    assert TableAt(d, role, DescIn(d[DescBlock(g)], g % DESCS_PER_BLOCK), g, t);
  }

  lemma InodeFrame(d: Disk, d': Disk, geo: Geometry, role: Roles, ino: nat)
    requires MetaOk(d, geo, role) && SameMeta(d, d', role) && ValidIno(geo, ino)
    ensures ReadInode(d', geo, ino) == ReadInode(d, geo, ino)
  {
    hide DescIn, InodeIn;
    InodeAt(d, geo, role, ino);
    GroupFrame(d, d', geo, role, role, GroupOf(geo, ino));
  }

  lemma InodesFrame(d: Disk, d': Disk, geo: Geometry, role: Roles, role': Roles)
    requires MetaOk(d, geo, role) && InodesOk(d, geo, role) && SameMeta(d, d', role) && Extends(role, role')
    ensures InodesOk(d', geo, role')
  {
    hide ReadInode, MetaOk;
    forall ino | ValidIno(geo, ino) ensures InodeOk(d', geo, role', ino) {
      assert InodeOk(d, geo, role, ino);
      InodeFrame(d, d', geo, role, ino);
    }
  }

  // ---- Writing an inode ----

  lemma SameInode(geo: Geometry, a: nat, b: nat)
    requires geo.inodesPerGroup > 0 && a > 0 && b > 0
    ensures a == b <==>
      && GroupOf(geo, a) == GroupOf(geo, b)
      && IndexOf(geo, a) / INODES_PER_BLOCK == IndexOf(geo, b) / INODES_PER_BLOCK
      && IndexOf(geo, a) % INODES_PER_BLOCK == IndexOf(geo, b) % INODES_PER_BLOCK
  {
    QuotientAndRemainder(a - 1, b - 1, geo.inodesPerGroup);
  }

  /** `write_inode` then `read_inode`: the written inode comes back, every other inode is as it was. */
  lemma InodeSlots(d: Disk, geo: Geometry, role: Roles, i: nat, x: Inode, j: nat)
    requires MetaOk(d, geo, role) && ValidIno(geo, i) && ValidIno(geo, j)
    ensures var w := WriteInode(d, geo, i, x);
      && w.Ok? && w.value.Keys == d.Keys
      && ReadInode(w.value, geo, j) == if j == i then Ok(x) else ReadInode(d, geo, j)
  {
    hide DescIn, InodeIn, WithInode, MetaOk, TableBlocks;
    InodeAt(d, geo, role, i);
    InodeAt(d, geo, role, j);
    var gi, gj := GroupOf(geo, i), GroupOf(geo, j);
    var bi, bj := InodeBlockOf(geo, ReadDesc(d, gi).value, i), InodeBlockOf(geo, ReadDesc(d, gj).value, j);
    var si, sj := IndexOf(geo, i) % INODES_PER_BLOCK, IndexOf(geo, j) % INODES_PER_BLOCK;
    assert HasRole(role, DescBlock(gj), Descs) && DescBlock(gj) != bi;
    SameInode(geo, i, j);
    if bj == bi {
      SlotRoundTrip(d[bi], si, x, sj);
    }
  }

  lemma WriteInodeKeeps(d: Disk, geo: Geometry, role: Roles, ino: nat, x: Inode)
    requires WellFormed(d, geo, role) && ValidIno(geo, ino) && Mine(role, ino, x)
    ensures WriteInode(d, geo, ino, x).Ok? && WellFormed(WriteInode(d, geo, ino, x).value, geo, role)
    ensures WriteInode(d, geo, ino, x).value.Keys == d.Keys
    ensures forall b :: b in role && b in d && !role[b].Table? ==> WriteInode(d, geo, ino, x).value[b] == d[b]
  {
    hide DescIn, InodeIn, WithInode, TableBlocks, InodeOk;
    InodeAt(d, geo, role, ino);
    var d' := WriteInode(d, geo, ino, x).value;
    forall g | 0 <= g < geo.groups ensures GroupOk(d', geo, role, g) {
      OtherTable(d, d', geo, role, g);
    }
    OtherTable(d, d', geo, role, 0);
    forall j | ValidIno(geo, j) ensures InodeOk(d', geo, role, j) {
      InodeNowOk(d, geo, role, ino, x, j);
    }
  }

  lemma OtherTable(d: Disk, d': Disk, geo: Geometry, role: Roles, g: nat)
    requires GroupOk(d, geo, role, g) && d'.Keys == d.Keys
    requires forall b :: b in role && b in d && !role[b].Table? ==> d'[b] == d[b]
    ensures GroupOk(d', geo, role, g) && d'[DescBlock(g)] == d[DescBlock(g)]
  {
    hide DescIn, TableBlocks;
    var desc := DescIn(d[DescBlock(g)], g % DESCS_PER_BLOCK);
    forall t | 0 <= t < TableBlocks(geo) ensures TableAt(d', role, desc, g, t) {
      assert TableAt(d, role, desc, g, t);
    }
  }

  lemma InodeNowOk(d: Disk, geo: Geometry, role: Roles, ino: nat, x: Inode, j: nat)
    requires MetaOk(d, geo, role) && InodesOk(d, geo, role) && ValidIno(geo, ino) && ValidIno(geo, j)
    requires Mine(role, ino, x)
    ensures WriteInode(d, geo, ino, x).Ok? && InodeOk(WriteInode(d, geo, ino, x).value, geo, role, j)
  {
    hide ReadInode, WriteInode, MetaOk;
    InodeSlots(d, geo, role, ino, x, j);
    assert InodeOk(d, geo, role, j);
  }

  // ---- Allocating a block ----

  /** An allocated block had no role: it is taken from nobody. */
  lemma AllocKeeps(d: Disk, geo: Geometry, role: Roles, r: Role)
    requires WellFormed(d, geo, role) && AllocBlock(d, geo).Ok?
    ensures var (d', bit) := AllocBlock(d, geo).value;
      && bit + 1 !in role && bit < BITS
      && WellFormed(d', geo, role[bit + 1 := r])
      && d'.Keys == d.Keys && forall b :: b in d && b != Bitmaps(d).blockBitmap ==> d'[b] == d[b]
  {
    hide InodesOk, BitAt, WithBit, TableBlocks;
    var bm := Bitmaps(d).blockBitmap;
    var (d', bit) := AllocBlock(d, geo).value;
    assert !BitAt(d[bm], bit);
    assert !Marked(d[bm], geo, bit + 1);
    var role' := role[bit + 1 := r];
    assert SameMeta(d, d', role);
    MetaFrame(d, d', geo, role, role');
    InodesFrame(d, d', geo, role, role');
    forall b | b in role' ensures Marked(d'[bm], geo, b) {
      if 0 < b <= Limit(geo.blocksPerGroup) {
        WithBitMeans(d[bm], bit, true, b - 1);
      }
    }
  }

  /** Blocks with a role, other than the block bitmap, keep their contents. */
  ghost predicate OnlyBitmapChanged(d: Disk, d': Disk, role: Roles) {
    d'.Keys == d.Keys && forall b :: b in role && b in d && role[b] != BlockBitmap ==> d'[b] == d[b]
  }

  ghost predicate Grown(d: Disk, geo: Geometry, role: Roles, ino: nat, x: Inode, idx: nat, needed: nat, w: Written,
      role': Roles)
  {
    && WellFormed(w.disk, geo, role') && Extends(role, role') && Mine(role', ino, w.inode)
    && OnlyBitmapChanged(d, w.disk, role)
    && (forall b :: b in role' && b !in role ==> role'[b].Data? && role'[b].ino == ino)
    && w.inode == x.(block := w.inode.block)
    && (w.error.None? ==> needed <= DIRECT || idx == needed)
    && (w.error.None? ==> forall k :: idx <= k < needed ==> w.inode.block[k] != 0)
    && (forall k :: 0 <= k < DIRECT && (k < idx || x.block[k] != 0) ==> w.inode.block[k] == x.block[k])
  }

  /** Growing takes unowned blocks only, and leaves everything else alone, even when it fails half way. */
  lemma {:induction false} GrowKeeps(d: Disk, geo: Geometry, role: Roles, ino: nat, x: Inode, idx: nat, needed: nat)
    returns (role': Roles)
    requires WellFormed(d, geo, role) && Mine(role, ino, x) && idx <= needed
    ensures Grown(d, geo, role, ino, x, idx, needed, Grow(d, geo, x, idx, needed), role')
    decreases needed - idx
  {
    hide WellFormed, AllocBlock;
    role' := role;
    if idx < needed {
      if idx < DIRECT && x.block[idx] != 0 {
        role' := GrowKeeps(d, geo, role, ino, x, idx + 1, needed);
      } else if AllocBlock(d, geo).Ok? {
        role' := GrowByOne(d, geo, role, ino, x, idx, needed);
      }
    }
  }

  lemma {:induction false} GrowByOne(d: Disk, geo: Geometry, role: Roles, ino: nat, x: Inode, idx: nat, needed: nat)
    returns (role': Roles)
    requires WellFormed(d, geo, role) && Mine(role, ino, x) && idx < needed
    requires (idx < DIRECT ==> x.block[idx] == 0) && AllocBlock(d, geo).Ok?
    ensures Grown(d, geo, role, ino, x, idx, needed, Grow(d, geo, x, idx, needed), role')
    decreases needed - idx, 0
  {
    hide WellFormed, AllocBlock, Grown;
    var (d', bit) := AllocBlock(d, geo).value;
    var r := Data(ino, if idx < DIRECT then idx else 0);
    AllocKeeps(d, geo, role, r);
    WellFormedMeta(d, geo, role);
    BitmapsThere(d, geo, role);
    role' := role[bit + 1 := r];
    TakenByOne(d, d', geo, role, ino, x, idx, needed, bit);
    if idx < DIRECT {
      role' := GrowKeeps(d', geo, role', ino, x.(block := x.block[idx := bit + 1]), idx + 1, needed);
      GrownMore(d, d', geo, role, role[bit + 1 := r], ino, x, idx, needed, bit, Grow(d, geo, x, idx, needed), role');
    }
  }

  /** One block taken. */
  lemma TakenByOne(d: Disk, d': Disk, geo: Geometry, role: Roles, ino: nat, x: Inode, idx: nat, needed: nat, bit: nat)
    requires Mine(role, ino, x) && bit + 1 !in role && bit < BITS && idx < needed
    requires var r := Data(ino, if idx < DIRECT then idx else 0); WellFormed(d', geo, role[bit + 1 := r])
    requires OnlyBitmapChanged(d, d', role)
    ensures var role' := role[bit + 1 := Data(ino, if idx < DIRECT then idx else 0)];
      && Mine(role', ino, x)
      && (idx < DIRECT ==> Mine(role', ino, x.(block := x.block[idx := bit + 1])))
      && Grown(d, geo, role, ino, x, idx, needed, Written(d', x, Some(NoIndirectWrite)), role')
  {
    hide WellFormed;
  }

  lemma GrownMore(d: Disk, d': Disk, geo: Geometry, role: Roles, role1: Roles, ino: nat, x: Inode, idx: nat,
      needed: nat, bit: nat, w: Written, role': Roles)
    requires idx < needed && idx < DIRECT && x.block[idx] == 0 && bit < BITS
    requires OnlyBitmapChanged(d, d', role) && bit + 1 !in role && role1 == role[bit + 1 := Data(ino, idx)]
    requires Grown(d', geo, role1, ino, x.(block := x.block[idx := bit + 1]), idx + 1, needed, w, role')
    ensures Grown(d, geo, role, ino, x, idx, needed, w, role')
  {
    hide WellFormed, Mine;
  }

  // ---- Writing the data ----

  /** Only blocks of this file changed. */
  ghost predicate OnlyOwnChanged(d: Disk, d': Disk, role: Roles, ino: nat) {
    d'.Keys == d.Keys && forall b :: b in role && b in d && !(role[b].Data? && role[b].ino == ino) ==> d'[b] == d[b]
  }

  lemma OwnChangeKeeps(d: Disk, d': Disk, geo: Geometry, role: Roles, ino: nat)
    requires WellFormed(d, geo, role) && OnlyOwnChanged(d, d', role, ino)
    ensures WellFormed(d', geo, role) && Bitmaps(d') == Bitmaps(d)
  {
    hide InodesOk, TableBlocks, BitAt;
    MetaFrame(d, d', geo, role, role);
    InodesFrame(d, d', geo, role, role);
  }

  ghost predicate Filled(d: Disk, x: Inode, data: Bytes, k: nat)
    requires k < BlocksFor(|data|) && k < DIRECT
  {
    x.block[k] in d && d[x.block[k]] == Padded(data, k)
  }

  /** All of the data is written, each piece to its own block, and to no block of anyone else. */
  lemma {:induction false} FillWrites(d: Disk, role: Roles, ino: nat, x: Inode, data: Bytes, idx: nat)
    requires Mine(role, ino, x) && idx <= BlocksFor(|data|)
    requires forall k :: idx <= k < BlocksFor(|data|) && k < DIRECT ==> x.block[k] != 0
    ensures var (d', error) := Fill(d, x, data, idx);
      && OnlyOwnChanged(d, d', role, ino)
      && (forall k :: 0 <= k < idx && k < DIRECT && x.block[k] != 0 && x.block[k] in d ==>
        d'[x.block[k]] == d[x.block[k]])
      && (error.None? ==> idx == BlocksFor(|data|) || BlocksFor(|data|) <= DIRECT)
      && (error.None? ==> forall k :: idx <= k < BlocksFor(|data|) && k < DIRECT ==> Filled(d', x, data, k))
    decreases BlocksFor(|data|) - idx
  {
    hide Padded;
    if idx < BlocksFor(|data|) && idx < DIRECT && x.block[idx] in d {
      var d1 := d[x.block[idx] := Padded(data, idx)];
      assert HasRole(role, x.block[idx], Data(ino, idx));
      FillWrites(d1, role, ino, x, data, idx + 1);
      assert d1[x.block[idx]] == Padded(data, idx);
    }
  }

  // ---- Shrinking ----

  lemma {:induction false} ShrinkTouchesBitmap(d: Disk, geo: Geometry, role: Roles, ino: nat, x: Inode, idx: nat,
      old_: nat)
    requires MetaOk(d, geo, role) && Mine(role, ino, x)
    ensures var w := Shrink(d, x, idx, old_);
      && MetaOk(w.disk, geo, role) && Mine(role, ino, w.inode)
      && OnlyBitmapChanged(d, w.disk, role) && w.inode == x.(block := w.inode.block)
      && forall k :: 0 <= k < DIRECT && k < idx ==> w.inode.block[k] == x.block[k]
    decreases old_ - idx
  {
    hide MetaOk, FreeBlock;
    if idx < old_ {
      if idx < DIRECT && x.block[idx] != 0 {
        if FreeBlock(d, x.block[idx]).Ok? {
          var d1 := FreeBlock(d, x.block[idx]).value;
          FreeTouchesBitmap(d, geo, role, x.block[idx]);
          ShrinkTouchesBitmap(d1, geo, role, ino, x.(block := x.block[idx := 0]), idx + 1, old_);
        }
      } else {
        ShrinkTouchesBitmap(d, geo, role, ino, x, idx + 1, old_);
      }
    }
  }

  lemma FreeTouchesBitmap(d: Disk, geo: Geometry, role: Roles, b: nat)
    requires MetaOk(d, geo, role) && FreeBlock(d, b).Ok?
    ensures MetaOk(FreeBlock(d, b).value, geo, role) && OnlyBitmapChanged(d, FreeBlock(d, b).value, role)
  {
    hide TableBlocks, WithBit;
    MetaFrame(d, FreeBlock(d, b).value, geo, role, role);
  }

  lemma {:induction false} NothingToFree(d: Disk, x: Inode, idx: nat, old_: nat)
    requires old_ <= idx
    ensures Shrink(d, x, idx, old_) == Written(d, x, None)
  {
  }

  /** `free_block` clears the bit numbered like the block, which stands for the block after it. So the
      freed block stays marked, and every owned block is still marked if and only if the next block has
      no owner (or is beyond the bitmap). */
  lemma FreeBlockUnmarksNext(d: Disk, geo: Geometry, role: Roles, b: nat)
    requires WellFormed(d, geo, role) && b > 0 && FreeBlock(d, b).Ok?
    ensures MetaOk(FreeBlock(d, b).value, geo, role)
    ensures Marks(FreeBlock(d, b).value, geo, role) <==> b + 1 !in role || b >= Limit(geo.blocksPerGroup)
    ensures b in role ==> Marked(FreeBlock(d, b).value[Bitmaps(d).blockBitmap], geo, b)
  {
    hide BitAt, WithBit, TableBlocks, InodesOk;
    var bm, d' := Bitmaps(d).blockBitmap, FreeBlock(d, b).value;
    FreeTouchesBitmap(d, geo, role, b);
    MetaFrame(d, d', geo, role, role);
    forall c | c in role ensures Marked(d'[bm], geo, c) <==> !(c == b + 1 && b < Limit(geo.blocksPerGroup)) {
      assert Marked(d[bm], geo, c);
      if 0 < c <= Limit(geo.blocksPerGroup) {
        WithBitMeans(d[bm], b, false, c - 1);
      }
    }
  }

  // ---- write_file_data ----

  /** Everything with a role keeps its contents, except the block bitmap and this file's own blocks. */
  ghost predicate OthersUntouched(d: Disk, d': Disk, role: Roles, ino: nat) {
    && d'.Keys == d.Keys
    && forall b :: b in role && b in d && role[b] != BlockBitmap && !(role[b].Data? && role[b].ino == ino) ==>
      d'[b] == d[b]
  }

  /** Does this write leave the file at least as many blocks as it had? */
  predicate DoesNotShrink(x: Inode, data: Bytes) {
    BlocksFor(x.size) <= BlocksFor(|data|)
  }

  /** Writing a file changes nothing that belongs to another file or to the metadata, whether or not it
      succeeds, and unless it shrinks the file keeps the disk well-formed. */
  lemma WriteIsPrivate(d: Disk, geo: Geometry, role: Roles, ino: nat, x: Inode, data: Bytes) returns (role': Roles)
    requires WellFormed(d, geo, role) && Mine(role, ino, x)
    ensures var w := WriteData(d, geo, x, data);
      && Extends(role, role') && Mine(role', ino, w.inode) && OthersUntouched(d, w.disk, role, ino)
      && w.inode.mode == x.mode
      && MetaOk(w.disk, geo, role')
      && (DoesNotShrink(x, data) ==> WellFormed(w.disk, geo, role'))
  {
    hide WellFormed, MetaOk, OthersUntouched, Mine, Grow, Fill, Shrink, OnlyBitmapChanged, OnlyOwnChanged;
    var needed, old_ := BlocksFor(|data|), BlocksFor(x.size);
    var grown := Grow(d, geo, x, 0, needed);
    role' := GrowKeeps(d, geo, role, ino, x, 0, needed);
    WellFormedMeta(grown.disk, geo, role');
    NoChange(grown.disk, role', ino);
    UntouchedSoFar(d, grown.disk, grown.disk, grown.disk, role, role', ino);
    if grown.error.None? {
      FillWrites(grown.disk, role', ino, grown.inode, data, 0);
      var filled := Fill(grown.disk, grown.inode, data, 0).0;
      OwnChangeKeeps(grown.disk, filled, geo, role', ino);
      WellFormedMeta(filled, geo, role');
      NoChange(filled, role', ino);
      UntouchedSoFar(d, grown.disk, filled, filled, role, role', ino);
      ShrinkTouchesBitmap(filled, geo, role', ino, grown.inode, needed, old_);
      var shrunk := Shrink(filled, grown.inode, needed, old_);
      UntouchedSoFar(d, grown.disk, filled, shrunk.disk, role, role', ino);
      SizeIsNotMine(role', ino, shrunk.inode, |data| % 0x1_0000_0000);
      if old_ <= needed {
        NothingToFree(filled, grown.inode, needed, old_);
      }
    }
  }

  lemma NoChange(d: Disk, role: Roles, ino: nat)
    ensures OnlyBitmapChanged(d, d, role) && OnlyOwnChanged(d, d, role, ino)
  {
  }

  lemma SizeIsNotMine(role: Roles, ino: nat, x: Inode, size: U32)
    requires Mine(role, ino, x)
    ensures Mine(role, ino, x.(size := size))
  {
  }

  /** The three loops together touch nothing of anyone else. */
  lemma UntouchedSoFar(d: Disk, grown: Disk, filled: Disk, shrunk: Disk, role: Roles, role': Roles, ino: nat)
    requires Extends(role, role') && OnlyBitmapChanged(d, grown, role)
    requires OnlyOwnChanged(grown, filled, role', ino) && OnlyBitmapChanged(filled, shrunk, role')
    ensures OthersUntouched(d, shrunk, role, ino)
  {
  }

  lemma {:induction false} ReadsFilled(d: Disk, x: Inode, data: Bytes, idx: nat)
    requires x.size == |data| && idx <= BlocksFor(|data|) <= DIRECT
    requires forall k :: idx <= k < BlocksFor(|data|) ==> x.block[k] != 0 && Filled(d, x, data, k)
    ensures ReadFrom(d, x, idx) == Ok(if idx == BlocksFor(|data|) then [] else data[idx * BLOCK_SIZE..])
    decreases BlocksFor(|data|) - idx
  {
    if idx < BlocksFor(|data|) {
      ReadsFilled(d, x, data, idx + 1);
      var n := ChunkSize(|data|, idx);
      assert Filled(d, x, data, idx);
      var at := idx * BLOCK_SIZE;
      assert Padded(data, idx)[..n] == data[at..at + n];
      assert ReadChunk(d, x, idx) == Ok(data[at..at + n]);
      if idx + 1 < BlocksFor(|data|) {
        assert data[at..at + n] + data[at + n..] == data[at..];
      } else {
        assert data[at..at + n] + [] == data[at..];
      }
    }
  }

  /** A write that succeeds reads back as exactly what was written, also when it shrinks the file. */
  lemma WriteReadsBack(d: Disk, geo: Geometry, role: Roles, ino: nat, x: Inode, data: Bytes)
    requires WellFormed(d, geo, role) && Mine(role, ino, x)
    ensures var w := WriteData(d, geo, x, data);
      w.error.None? ==> w.inode.size == |data| && ReadFile(w.disk, w.inode) == Ok(data)
  {
    hide WellFormed, MetaOk, Filled, Fill, Grow, Shrink;
    var needed, old_ := BlocksFor(|data|), BlocksFor(x.size);
    var grown := Grow(d, geo, x, 0, needed);
    var role' := GrowKeeps(d, geo, role, ino, x, 0, needed);
    if WriteData(d, geo, x, data).error.None? {
      FillWrites(grown.disk, role', ino, grown.inode, data, 0);
      var filled := Fill(grown.disk, grown.inode, data, 0).0;
      OwnChangeKeeps(grown.disk, filled, geo, role', ino);
      WellFormedMeta(filled, geo, role');
      ShrinkTouchesBitmap(filled, geo, role', ino, grown.inode, needed, old_);
      var w := WriteData(d, geo, x, data);
      forall k | 0 <= k < needed ensures w.inode.block[k] != 0 && Filled(w.disk, w.inode, data, k) {
        StillFilled(filled, w.disk, role', ino, grown.inode, w.inode, data, k);
      }
      ReadsFilled(w.disk, w.inode, data, 0);
    }
  }

  lemma StillFilled(d: Disk, d': Disk, role: Roles, ino: nat, x: Inode, x': Inode, data: Bytes, k: nat)
    requires k < BlocksFor(|data|) && k < DIRECT && Filled(d, x, data, k) && x'.block[k] == x.block[k] != 0
    requires Mine(role, ino, x) && OnlyBitmapChanged(d, d', role)
    ensures Filled(d', x', data, k)
  {
    assert HasRole(role, x.block[k], Data(ino, k));
  }

  // ---- Other files ----

  /** The data blocks of file `j` are the same on both disks. */
  ghost predicate FileKept(d: Disk, d': Disk, role: Roles, j: nat) {
    d'.Keys == d.Keys && forall b :: b in role && b in d && role[b].Data? && role[b].ino == j ==> d'[b] == d[b]
  }

  lemma {:induction false} ReadsTheSame(d: Disk, d': Disk, role: Roles, j: nat, y: Inode, idx: nat)
    requires FileKept(d, d', role, j) && Mine(role, j, y) && idx <= BlocksFor(y.size)
    ensures ReadFrom(d', y, idx) == ReadFrom(d, y, idx)
    decreases BlocksFor(y.size) - idx
  {
    if idx < BlocksFor(y.size) {
      ReadsTheSame(d, d', role, j, y, idx + 1);
      assert idx < DIRECT && y.block[idx] != 0 ==> HasRole(role, y.block[idx], Data(j, idx));
      assert ReadChunk(d', y, idx) == ReadChunk(d, y, idx);
    }
  }

  lemma {:induction false} ReadLength(d: Disk, x: Inode, idx: nat)
    requires idx <= BlocksFor(x.size) && ReadFrom(d, x, idx).Ok?
    ensures |ReadFrom(d, x, idx).value| == if idx == BlocksFor(x.size) then 0 else x.size - idx * BLOCK_SIZE
    decreases BlocksFor(x.size) - idx
  {
    if idx < BlocksFor(x.size) {
      ReadLength(d, x, idx + 1);
    }
  }
}
