/** Writes that make a file shorter: exactly when the disk stays well-formed. */
module Ext3Shrinks {
  import opened Basics
  import opened Wire
  import opened Ext3Layout
  import opened Ext3Disk
  import opened Ext3Files
  import opened Ext3Writes

  /** The blocks that the inode holds at places `from` to `to`. */
  ghost function Held(x: Inode, from: nat, to: nat): set<nat> {
    set k: nat | from <= k < to && k < DIRECT && x.block[k] != 0 :: x.block[k]
  }

  /** The blocks that writing `data` frees. */
  ghost function Freed(x: Inode, data: Bytes): set<nat> {
    Held(x, BlocksFor(|data|), BlocksFor(x.size))
  }

  lemma HeldFrom(x: Inode, from: nat, to: nat)
    requires from < to
    ensures Held(x, from, to) == Held(x, from + 1, to) +
      if from < DIRECT && x.block[from] != 0 then {x.block[from]} else {}
  {
    forall b: nat ensures b in Held(x, from, to) <==>
      b in Held(x, from + 1, to) || (from < DIRECT && x.block[from] != 0 && b == x.block[from])
    {
      if b in Held(x, from, to) {
        var k: nat :| from <= k < to && k < DIRECT && x.block[k] != 0 && x.block[k] == b;
        assert k > from ==> b in Held(x, from + 1, to);
      }
    }
  }

  lemma HeldLater(x: Inode, x': Inode, from: nat, to: nat)
    requires forall k :: from <= k < to && k < DIRECT ==> x'.block[k] == x.block[k]
    ensures Held(x', from, to) == Held(x, from, to)
  {
    forall b: nat ensures b in Held(x', from, to) <==> b in Held(x, from, to) {
      if b in Held(x, from, to) {
        var k: nat :| from <= k < to && k < DIRECT && x.block[k] != 0 && x.block[k] == b;
        assert x'.block[k] == b;
      }
      if b in Held(x', from, to) {
        var k: nat :| from <= k < to && k < DIRECT && x'.block[k] != 0 && x'.block[k] == b;
        assert x.block[k] == b;
      }
    }
  }

  // ---- The loop that frees ----

  /** The bits of the freed blocks' own numbers are cleared, and no other. */
  ghost predicate Cleared(d: Disk, d': Disk, freed: set<nat>)
    requires DescBlock(0) in d && Bitmaps(d).blockBitmap in d
  {
    && d'.Keys == d.Keys && d'[DescBlock(0)] == d[DescBlock(0)]
    && forall j :: 0 <= j < BITS ==>
      (BitAt(d'[Bitmaps(d).blockBitmap], j) <==> BitAt(d[Bitmaps(d).blockBitmap], j) && j !in freed)
  }

  lemma FreeClears(d: Disk, geo: Geometry, role: Roles, b: nat)
    requires MetaOk(d, geo, role) && FreeBlock(d, b).Ok?
    ensures DescBlock(0) in d && Bitmaps(d).blockBitmap in d && Cleared(d, FreeBlock(d, b).value, {b})
  {
    hide BitAt, WithBit, TableBlocks;
    FreeTouchesBitmap(d, geo, role, b);
    MetaFrame(d, FreeBlock(d, b).value, geo, role, role);
    forall j | 0 <= j < BITS ensures
      BitAt(FreeBlock(d, b).value[Bitmaps(d).blockBitmap], j) <==> BitAt(d[Bitmaps(d).blockBitmap], j) && j !in {b}
    {
      WithBitMeans(d[Bitmaps(d).blockBitmap], b, false, j);
    }
  }

  lemma {:induction false} ShrinkClears(d: Disk, geo: Geometry, role: Roles, ino: nat, x: Inode, idx: nat, old_: nat)
    requires MetaOk(d, geo, role) && Mine(role, ino, x) && Shrink(d, x, idx, old_).error.None?
    ensures DescBlock(0) in d && Bitmaps(d).blockBitmap in d
    ensures var w := Shrink(d, x, idx, old_);
      && Cleared(d, w.disk, Held(x, idx, old_)) && w.inode.block[INDIRECT] == x.block[INDIRECT]
      && forall k :: 0 <= k < DIRECT ==> w.inode.block[k] == if idx <= k < old_ then 0 else x.block[k]
    decreases old_ - idx
  {
    hide MetaOk, FreeBlock, BitAt, Mine, Held;
    BitmapsThere(d, geo, role);
    if idx < old_ {
      HeldFrom(x, idx, old_);
      if idx < DIRECT && x.block[idx] != 0 {
        var d1, x1 := FreeBlock(d, x.block[idx]).value, x.(block := x.block[idx := 0]);
        FreeTouchesBitmap(d, geo, role, x.block[idx]);
        FreeClears(d, geo, role, x.block[idx]);
        StillMine(role, ino, x, idx);
        ShrinkClears(d1, geo, role, ino, x1, idx + 1, old_);
        HeldLater(x, x1, idx + 1, old_);
      } else {
        ShrinkClears(d, geo, role, ino, x, idx + 1, old_);
      }
    } else {
      NoneHeld(x, idx, old_);
    }
  }

  lemma NoneHeld(x: Inode, from: nat, to: nat)
    requires to <= from
    ensures Held(x, from, to) == {}
  {
  }

  lemma StillMine(role: Roles, ino: nat, x: Inode, k: nat)
    requires Mine(role, ino, x) && k < DIRECT
    ensures Mine(role, ino, x.(block := x.block[k := 0]))
  {
  }

  // ---- The whole write ----

  lemma {:induction false} GrowStops(d: Disk, geo: Geometry, x: Inode, idx: nat, needed: nat, k: nat)
    requires idx <= needed <= k < DIRECT
    ensures Grow(d, geo, x, idx, needed).inode.block[k] == x.block[k]
    decreases needed - idx
  {
    hide BitAt, WithBit, FirstClear;
    if idx < needed {
      if idx < DIRECT && x.block[idx] != 0 {
        GrowStops(d, geo, x, idx + 1, needed, k);
      } else if AllocBlock(d, geo).Ok? && idx < DIRECT {
        var (d', bit) := AllocBlock(d, geo).value;
        GrowStops(d', geo, x.(block := x.block[idx := bit + 1]), idx + 1, needed, k);
      }
    }
  }

  /** A write that succeeds is a well-formed disk with the data in place, followed by the loop that frees. */
  lemma WriteSteps(d: Disk, geo: Geometry, role: Roles, ino: nat, x: Inode, data: Bytes)
      returns (role': Roles, filled: Disk, grown: Inode)
    requires WellFormed(d, geo, role) && Mine(role, ino, x) && WriteData(d, geo, x, data).error.None?
    ensures Extends(role, role') && WellFormed(filled, geo, role') && Mine(role', ino, grown)
    ensures forall b :: b in role' && b !in role ==> role'[b].Data? && role'[b].ino == ino
    ensures Held(grown, BlocksFor(|data|), BlocksFor(x.size)) == Freed(x, data)
    ensures var w, s := WriteData(d, geo, x, data), Shrink(filled, grown, BlocksFor(|data|), BlocksFor(x.size));
      s.error.None? && w.disk == s.disk && w.inode.block == s.inode.block
  {
    hide WellFormed, Mine, Shrink, Fill, Held;
    var needed := BlocksFor(|data|);
    var g := Grow(d, geo, x, 0, needed);
    role' := GrowKeeps(d, geo, role, ino, x, 0, needed);
    grown := g.inode;
    FillWrites(g.disk, role', ino, grown, data, 0);
    filled := Fill(g.disk, grown, data, 0).0;
    OwnChangeKeeps(g.disk, filled, geo, role', ino);
    forall k | needed <= k < BlocksFor(x.size) && k < DIRECT ensures grown.block[k] == x.block[k] {
      GrowStops(d, geo, x, 0, needed, k);
    }
    HeldLater(x, grown, needed, BlocksFor(x.size));
  }

  function Except(role: Roles, freed: set<nat>): Roles {
    map b | b in role && b !in freed :: role[b]
  }

  /** Metadata needs no data block's role. */
  lemma MetaWithoutData(d: Disk, geo: Geometry, role: Roles, role': Roles)
    requires MetaOk(d, geo, role)
    requires forall b :: b in role && !role[b].Data? ==> HasRole(role', b, role[b])
    ensures MetaOk(d, geo, role')
  {
    hide DescIn, TableBlocks;
    forall g | 0 <= g < geo.groups ensures GroupOk(d, geo, role', g) {
      GroupWithoutData(d, geo, role, role', g);
    }
    GroupWithoutData(d, geo, role, role', 0);
  }

  lemma GroupWithoutData(d: Disk, geo: Geometry, role: Roles, role': Roles, g: nat)
    requires GroupOk(d, geo, role, g)
    requires forall b :: b in role && !role[b].Data? ==> HasRole(role', b, role[b])
    ensures GroupOk(d, geo, role', g)
  {
    hide DescIn, TableBlocks;
    var desc := DescIn(d[DescBlock(g)], g % DESCS_PER_BLOCK);
    forall t | 0 <= t < TableBlocks(geo) ensures TableAt(d, role', desc, g, t) {
      assert TableAt(d, role, desc, g, t);
    }
  }

  /** A block that the inode holds is its own data. */
  lemma HeldIsData(role: Roles, ino: nat, x: Inode, from: nat, to: nat, b: nat)
    requires Mine(role, ino, x) && b in Held(x, from, to)
    ensures b in role && role[b].Data? && role[b].ino == ino && from <= role[b].k < to && b > 0
  {
    var k: nat :| from <= k < to && k < DIRECT && x.block[k] != 0 && x.block[k] == b;
    assert HasRole(role, x.block[k], Data(ino, k));
  }

  lemma MetaAfterStore(d: Disk, geo: Geometry, role: Roles, ino: nat, x: Inode)
    requires MetaOk(d, geo, role) && ValidIno(geo, ino)
    ensures WriteInode(d, geo, ino, x).Ok? && MetaOk(WriteInode(d, geo, ino, x).value, geo, role)
    ensures DescBlock(0) in d && Bitmaps(d).blockBitmap in d
    ensures var d' := WriteInode(d, geo, ino, x).value;
      && d'.Keys == d.Keys && d'[DescBlock(0)] == d[DescBlock(0)]
      && d'[Bitmaps(d).blockBitmap] == d[Bitmaps(d).blockBitmap]
  {
    hide DescIn, InodeIn, WithInode, TableBlocks;
    InodeAt(d, geo, role, ino);
    var d' := WriteInode(d, geo, ino, x).value;
    forall g | 0 <= g < geo.groups ensures GroupOk(d', geo, role, g) {
      OtherTable(d, d', geo, role, g);
    }
    OtherTable(d, d', geo, role, 0);
  }

  /** Every remaining role's block is marked exactly when none of them follows a freed block. */
  lemma MarksAfterClearing(d: Disk, d': Disk, geo: Geometry, role: Roles, freed: set<nat>)
    requires DescBlock(0) in d && Bitmaps(d).blockBitmap in d && Marks(d, geo, role) && Cleared(d, d', freed)
    ensures DescBlock(0) in d' && Bitmaps(d') == Bitmaps(d)
    ensures Marks(d', geo, Except(role, freed)) <==>
      forall b :: b in freed && b + 1 in Except(role, freed) ==> b >= Limit(geo.blocksPerGroup)
  {
    hide BitAt;
    var bm, left, limit := Bitmaps(d).blockBitmap, Except(role, freed), Limit(geo.blocksPerGroup);
    forall c | c in left ensures Marked(d'[bm], geo, c) <==> !(0 < c <= limit && c - 1 in freed) {
      assert Marked(d[bm], geo, c);
    }
    if Marks(d', geo, left) {
      forall b | b in freed && b + 1 in left ensures b >= limit {
        assert Marked(d'[bm], geo, b + 1);
      }
    } else {
      var c: nat :| c in left && !Marked(d'[bm], geo, c);
      assert c - 1 in freed && c - 1 + 1 in left;
    }
  }

  /** What is left of the inode after the freeing loop is its own, without the freed blocks' roles. */
  lemma MineAfterShrink(role: Roles, ino: nat, x: Inode, x': Inode, from: nat, to: nat)
    requires Mine(role, ino, x) && x'.block[INDIRECT] == x.block[INDIRECT]
    requires forall k :: 0 <= k < DIRECT ==> x'.block[k] == if from <= k < to then 0 else x.block[k]
    ensures Mine(Except(role, Held(x, from, to)), ino, x')
  {
    var freed := Held(x, from, to);
    forall b | b in freed ensures b in role && role[b].Data? && from <= role[b].k < to {
      HeldIsData(role, ino, x, from, to, b);
    }
    forall k | 0 <= k < DIRECT && x'.block[k] != 0 ensures HasRole(Except(role, freed), x'.block[k], Data(ino, k)) {
      assert HasRole(role, x.block[k], Data(ino, k));
    }
  }

  lemma MineOfOther(role: Roles, role': Roles, freed: set<nat>, j: nat, y: Inode)
    requires Mine(role, j, y) && Extends(role, role')
    requires forall b :: b in freed ==> b in role' && role'[b].Data? && role'[b].ino != j
    ensures Mine(Except(role', freed), j, y)
  {
    forall k | 0 <= k < DIRECT && y.block[k] != 0 ensures HasRole(Except(role', freed), y.block[k], Data(j, k)) {
      assert HasRole(role, y.block[k], Data(j, k));
    }
  }

  lemma MetaAndMarksAfter(filled: Disk, w: Written, geo: Geometry, role: Roles, ino: nat, freed: set<nat>)
    requires WellFormed(filled, geo, role) && MetaOk(w.disk, geo, role) && ValidIno(geo, ino)
    requires DescBlock(0) in filled && Bitmaps(filled).blockBitmap in filled && Cleared(filled, w.disk, freed)
    requires forall b :: b in freed ==> b in role && role[b].Data?
    ensures WriteInode(w.disk, geo, ino, w.inode).Ok?
    ensures var d' := WriteInode(w.disk, geo, ino, w.inode).value;
      && MetaOk(d', geo, Except(role, freed)) && DescBlock(0) in d' && Bitmaps(d').blockBitmap in d'
      && (Marks(d', geo, Except(role, freed)) <==>
        forall b :: b in freed && b + 1 in Except(role, freed) ==> b >= Limit(geo.blocksPerGroup))
  {
    hide MetaOk, InodesOk, WriteInode, BitAt;
    MetaAfterStore(w.disk, geo, role, ino, w.inode);
    var d' := WriteInode(w.disk, geo, ino, w.inode).value;
    MetaWithoutData(d', geo, role, Except(role, freed));
    MarksAfterClearing(filled, d', geo, role, freed);
  }

  lemma InodesAfter(d: Disk, geo: Geometry, role: Roles, ino: nat, data: Bytes, role': Roles, freed: set<nat>)
    requires WellFormed(d, geo, role) && ValidIno(geo, ino) && WriteInto(d, geo, ino, data).error.None?
    requires ReadInode(d, geo, ino).Ok? && Extends(role, role')
    requires var w := WriteData(d, geo, ReadInode(d, geo, ino).value, data);
      MetaOk(w.disk, geo, role') && Mine(Except(role', freed), ino, w.inode)
    requires forall b :: b in freed ==> b in role' && role'[b].Data? && role'[b].ino == ino
    ensures InodesOk(WriteInto(d, geo, ino, data).disk, geo, Except(role', freed))
  {
    hide WellFormed, MetaOk, Mine, ReadInode, WriteInode, WriteData, Content, Extends;
    var d', w := WriteInto(d, geo, ino, data).disk, WriteData(d, geo, ReadInode(d, geo, ino).value, data);
    var _ := WriteOneFile(d, geo, role, ino, data);
    InodeSlots(w.disk, geo, role', ino, w.inode, ino);
    forall j | ValidIno(geo, j) ensures InodeOk(d', geo, Except(role', freed), j) {
      if j != ino {
        assert FileSame(d, d', geo, j);
        var y := OwnInode(d, geo, role, j);
        MineOfOther(role, role', freed, j, y);
      }
    }
  }

  lemma WellFormedIfMarked(d: Disk, geo: Geometry, role: Roles)
    requires MetaOk(d, geo, role) && InodesOk(d, geo, role)
    ensures WellFormed(d, geo, role) <==> Marks(d, geo, role)
  {
  }

  /** The outcome of a write that succeeds: the freed blocks belong to nobody, other owners are as
      before, new blocks are this file's, and the disk is well-formed exactly when no freed block is followed by an
      owned one. */
  ghost predicate ShrunkWell(geo: Geometry, role: Roles, ino: nat, x: Inode, data: Bytes, d': Disk, role': Roles) {
    && (forall b :: b in role' && b !in role ==> role'[b].Data? && role'[b].ino == ino)
    && (forall b :: b in Freed(x, data) ==> b !in role')
    && (forall b :: b in role && b !in Freed(x, data) ==> HasRole(role', b, role[b]))
    && (WellFormed(d', geo, role') <==>
      forall b :: b in Freed(x, data) && b + 1 in role' ==> b >= Limit(geo.blocksPerGroup))
  }

  lemma WriteKeepsExactly(d: Disk, geo: Geometry, role: Roles, ino: nat, data: Bytes) returns (role': Roles)
    requires WellFormed(d, geo, role) && ValidIno(geo, ino) && WriteInto(d, geo, ino, data).error.None?
    ensures ReadInode(d, geo, ino).Ok?
    ensures ShrunkWell(geo, role, ino, ReadInode(d, geo, ino).value, data, WriteInto(d, geo, ino, data).disk, role')
  {
    hide WellFormed, MetaOk, Marks, Mine, ReadInode, WriteInode, WriteData, Shrink, Held, BlocksFor, Cleared;
    var x := OwnInode(d, geo, role, ino);
    var w, from, to := WriteData(d, geo, x, data), BlocksFor(|data|), BlocksFor(x.size);
    var grownRole, filled, grown := WriteSteps(d, geo, role, ino, x, data);
    var freed := Freed(x, data);
    role' := Except(grownRole, freed);
    WellFormedMeta(filled, geo, grownRole);
    ShrinkClears(filled, geo, grownRole, ino, grown, from, to);
    ShrinkTouchesBitmap(filled, geo, grownRole, ino, grown, from, to);
    forall b | b in freed ensures b in grownRole && grownRole[b].Data? && grownRole[b].ino == ino {
      HeldIsData(grownRole, ino, grown, from, to, b);
    }
    MineAfterShrink(grownRole, ino, grown, w.inode, from, to);
    InodesAfter(d, geo, role, ino, data, grownRole, freed);
    MetaAndMarksAfter(filled, w, geo, grownRole, ino, freed);
    WellFormedIfMarked(WriteInto(d, geo, ino, data).disk, geo, role');
  }
}
