/** A disk of 1024-byte blocks: bitmaps, descriptors, inode slots, and file data over direct blocks. */
module Ext3Disk {
  import opened Basics
  import opened Wire
  import opened HeapMath
  import opened Bits
  import opened Ext3Layout

  datatype Error =
    | AtaError | NoFreeBits | OutOfBounds | HoleInFile | NoDoubleIndirect | NoIndirectWrite
    | EntryTooSmall | NotInDirectory | FileNotFound | NotADirectory | IsADirectory | FileExists | NeedAbsolutePath
    | InvalidName

  /** The blocks that exist; reading or writing any other one is a disk error. */
  type Disk = map<nat, Block>

  /** What `mount` reads from the superblock. */
  datatype Geometry = Geometry(inodesPerGroup: nat, blocksPerGroup: nat, groups: nat)

  const BITS: nat := 8192
  const DESC_TABLE: nat := 2

  function ReadBlock(d: Disk, b: nat): Result<Block, Error> {
    if b in d then Ok(d[b]) else Err(AtaError)
  }

  // ---- Bitmaps ----

  predicate BitAt(b: Block, k: nat)
    requires k < BITS
  {
    Bit(b[k / 8], k % 8)
  }

  lemma ByteMask(k: nat)
    ensures Pow2(k % 8) < 0x100 == Pow2(8)
  {
    Pow2Of8();
    Pow2Mono(k % 8 + 1, 8);
  }

  /** One bit of a bitmap block changed, with `|=` and `&= !`. */
  function WithBit(b: Block, k: nat, value: bool): Block
    requires k < BITS
  {
    ByteMask(k);
    var byte := b[k / 8];
    if value then
      SetBit(byte, 8, k % 8, 0);
      b[k / 8 := Or(byte, Pow2(k % 8))]
    else
      ClearedBit(byte, 8, k % 8, 0);
      b[k / 8 := And(byte, Not(Pow2(k % 8), 8))]
  }

  lemma WithBitMeans(b: Block, k: nat, value: bool, j: nat)
    requires k < BITS && j < BITS
    ensures BitAt(WithBit(b, k, value), j) <==> if j == k then value else BitAt(b, j)
  {
    ByteMask(k);
    assert j == k <==> j / 8 == k / 8 && j % 8 == k % 8;
    SetBit(b[k / 8], 8, k % 8, j % 8);
    ClearedBit(b[k / 8], 8, k % 8, j % 8);
  }

  function FirstClear(b: Block, limit: nat, from: nat): (r: Option<nat>)
    requires from <= limit <= BITS
    ensures r.Some? ==> from <= r.value < limit && !BitAt(b, r.value) && forall j :: from <= j < r.value ==> BitAt(b, j)
    ensures r.None? ==> forall j :: from <= j < limit ==> BitAt(b, j)
    decreases limit - from
  {
    if from == limit then None
    else if !BitAt(b, from) then Some(from)
    else FirstClear(b, limit, from + 1)
  }

  lemma FirstClearIs(b: Block, limit: nat, k: nat)
    requires k < limit <= BITS && !BitAt(b, k) && forall j :: 0 <= j < k ==> BitAt(b, j)
    ensures FirstClear(b, limit, 0) == Some(k)
  {
    hide BitAt;
    var r := FirstClear(b, limit, 0);
    assert r.Some?;
  }

  function Limit(maxBits: nat): (n: nat)
    ensures n <= BITS
  {
    if maxBits <= BITS then maxBits else BITS
  }

  /** `bitmap_alloc`: on an error the disk is unchanged. */
  function BitmapAlloc(d: Disk, bitmap: nat, maxBits: nat): (r: Result<(Disk, nat), Error>)
    ensures r.Ok? ==> bitmap in d && r.value.1 < Limit(maxBits) && !BitAt(d[bitmap], r.value.1)
  {
    if bitmap !in d then Err(AtaError)
    else
      match FirstClear(d[bitmap], Limit(maxBits), 0)
      case None => Err(NoFreeBits)
      case Some(bit) => Ok((d[bitmap := WithBit(d[bitmap], bit, true)], bit))
  }

  /** `bitmap_set`. A bit beyond the block is an index error. */
  function BitmapSet(d: Disk, bitmap: nat, bit: nat, value: bool): Result<Disk, Error> {
    if bitmap !in d then Err(AtaError)
    else if bit >= BITS then Err(OutOfBounds)
    else Ok(d[bitmap := WithBit(d[bitmap], bit, value)])
  }

  // ---- Descriptors and inodes ----

  function DescBlock(group: nat): nat {
    DESC_TABLE + group / DESCS_PER_BLOCK
  }

  function ReadDesc(d: Disk, group: nat): Result<Desc, Error> {
    if DescBlock(group) !in d then Err(AtaError) else Ok(DescIn(d[DescBlock(group)], group % DESCS_PER_BLOCK))
  }

  function AllocBlock(d: Disk, geo: Geometry): Result<(Disk, nat), Error> {
    match ReadDesc(d, 0)
    case Err(e) => Err(e)
    case Ok(desc) => BitmapAlloc(d, desc.blockBitmap, geo.blocksPerGroup)
  }

  function FreeBlock(d: Disk, block: nat): Result<Disk, Error> {
    match ReadDesc(d, 0)
    case Err(e) => Err(e)
    case Ok(desc) => BitmapSet(d, desc.blockBitmap, block, false)
  }

  function AllocInode(d: Disk, geo: Geometry): (r: Result<(Disk, nat), Error>)
    ensures r.Ok? ==> 0 < r.value.1 <= Limit(geo.inodesPerGroup)
  {
    match ReadDesc(d, 0)
    case Err(e) => Err(e)
    case Ok(desc) =>
      match BitmapAlloc(d, desc.inodeBitmap, geo.inodesPerGroup)
      case Err(e) => Err(e)
      case Ok(r) => Ok((r.0, r.1 + 1))
  }

  /** Division, as repeated subtraction: `QuotientIsDivision` says that it is `/` and `%`. */
  function Quotient(n: nat, d: nat): nat
    requires d > 0
  {
    if n < d then 0 else 1 + Quotient(n - d, d)
  }

  function Remainder(n: nat, d: nat): (r: nat)
    requires d > 0
    ensures r < d
  {
    if n < d then n else Remainder(n - d, d)
  }

  lemma {:induction false} QuotientIsDivision(n: nat, d: nat)
    requires d > 0
    ensures Quotient(n, d) == n / d && Remainder(n, d) == n % d
  {
    if n < d {
      ModPlus(n, 0, d);
    } else {
      QuotientIsDivision(n - d, d);
      var q, r := (n - d) / d, (n - d) % d;
      MulMono(d, q, q);
      ModPlus(r, q + 1, d);
    }
  }

  lemma {:induction false} QuotientAndRemainder(a: nat, b: nat, d: nat)
    requires d > 0
    ensures a == b <==> Quotient(a, d) == Quotient(b, d) && Remainder(a, d) == Remainder(b, d)
  {
    if a >= d && b >= d {
      QuotientAndRemainder(a - d, b - d, d);
    }
  }

  function GroupOf(geo: Geometry, ino: nat): nat
    requires geo.inodesPerGroup > 0 && ino > 0
  {
    Quotient(ino - 1, geo.inodesPerGroup)
  }

  function IndexOf(geo: Geometry, ino: nat): (idx: nat)
    requires geo.inodesPerGroup > 0 && ino > 0
    ensures idx < geo.inodesPerGroup
  {
    Remainder(ino - 1, geo.inodesPerGroup)
  }

  /** The inode table block an inode lives in. */
  function InodeBlockOf(geo: Geometry, desc: Desc, ino: nat): nat
    requires geo.inodesPerGroup > 0 && ino > 0
  {
    desc.inodeTable + IndexOf(geo, ino) / INODES_PER_BLOCK
  }

  function ReadInode(d: Disk, geo: Geometry, ino: nat): Result<Inode, Error>
    requires geo.inodesPerGroup > 0 && ino > 0
  {
    match ReadDesc(d, GroupOf(geo, ino))
    case Err(e) => Err(e)
    case Ok(desc) =>
      var b := InodeBlockOf(geo, desc, ino);
      if b in d then Ok(InodeIn(d[b], IndexOf(geo, ino) % INODES_PER_BLOCK)) else Err(AtaError)
  }

  function WriteInode(d: Disk, geo: Geometry, ino: nat, x: Inode): Result<Disk, Error>
    requires geo.inodesPerGroup > 0 && ino > 0
  {
    match ReadDesc(d, GroupOf(geo, ino))
    case Err(e) => Err(e)
    case Ok(desc) =>
      var b := InodeBlockOf(geo, desc, ino);
      if b in d then Ok(d[b := WithInode(d[b], IndexOf(geo, ino) % INODES_PER_BLOCK, x)]) else Err(AtaError)
  }

  // ---- Reading files ----

  function BlocksFor(size: nat): nat {
    (size + BLOCK_SIZE - 1) / BLOCK_SIZE
  }

  /** `inode_block`. */
  function FileBlock(d: Disk, x: Inode, idx: nat): Result<nat, Error> {
    if idx < DIRECT then Ok(x.block[idx])
    else if idx < DIRECT + BLOCK_SIZE / 4 then
      if x.block[INDIRECT] == 0 then Err(HoleInFile)
      else
        match ReadBlock(d, x.block[INDIRECT])
        case Err(e) => Err(e)
        case Ok(b) => Ok(WordAt(b, (idx - DIRECT) * 4))
    else Err(NoDoubleIndirect)
  }

  function ChunkSize(size: nat, idx: nat): (n: nat)
    requires idx < BlocksFor(size)
    ensures 0 < n <= BLOCK_SIZE && idx * BLOCK_SIZE + n <= size
    ensures idx + 1 == BlocksFor(size) ==> idx * BLOCK_SIZE + n == size
    ensures idx + 1 < BlocksFor(size) ==> n == BLOCK_SIZE
  {
    if size - idx * BLOCK_SIZE < BLOCK_SIZE then size - idx * BLOCK_SIZE else BLOCK_SIZE
  }

  /** The piece of a file in its block `idx`; a hole reads as zeros. */
  function ReadChunk(d: Disk, x: Inode, idx: nat): Result<Bytes, Error>
    requires idx < BlocksFor(x.size)
  {
    var n := ChunkSize(x.size, idx);
    match FileBlock(d, x, idx)
    case Err(e) => Err(e)
    case Ok(b) =>
      if b == 0 then Ok(Zeros(n))
      else
        match ReadBlock(d, b)
        case Err(e) => Err(e)
        case Ok(block) => Ok(block[..n])
  }

  function ReadFrom(d: Disk, x: Inode, idx: nat): Result<Bytes, Error>
    requires idx <= BlocksFor(x.size)
    decreases BlocksFor(x.size) - idx
  {
    if idx == BlocksFor(x.size) then Ok([])
    else
      match ReadChunk(d, x, idx)
      case Err(e) => Err(e)
      case Ok(chunk) =>
        match ReadFrom(d, x, idx + 1)
        case Err(e) => Err(e)
        case Ok(rest) => Ok(chunk + rest)
  }

  /** `read_file_inode`. */
  function ReadFile(d: Disk, x: Inode): Result<Bytes, Error> {
    ReadFrom(d, x, 0)
  }

  // ---- Writing files ----

  /** The disk and the in-memory inode after a call that may fail half way. */
  datatype Written = Written(disk: Disk, inode: Inode, error: Option<Error>)

  /** The loop that allocates missing blocks. */
  function Grow(d: Disk, geo: Geometry, x: Inode, idx: nat, needed: nat): Written
    requires idx <= needed
    decreases needed - idx
  {
    if idx == needed then Written(d, x, None)
    else if idx < DIRECT && x.block[idx] != 0 then Grow(d, geo, x, idx + 1, needed)
    else
      match AllocBlock(d, geo)
      case Err(e) => Written(d, x, Some(e))
      case Ok((d', bit)) =>
        if idx < DIRECT then Grow(d', geo, x.(block := x.block[idx := bit + 1]), idx + 1, needed)
        else Written(d', x, Some(NoIndirectWrite))
  }

  /** Block `idx` of `data`, filled up with zeros. */
  function Padded(data: Bytes, idx: nat): Block
    requires idx < BlocksFor(|data|)
  {
    var n := ChunkSize(|data|, idx);
    data[idx * BLOCK_SIZE..idx * BLOCK_SIZE + n] + Zeros(BLOCK_SIZE - n)
  }

  /** The loop that writes the data. */
  function Fill(d: Disk, x: Inode, data: Bytes, idx: nat): (Disk, Option<Error>)
    requires idx <= BlocksFor(|data|)
    decreases BlocksFor(|data|) - idx
  {
    if idx == BlocksFor(|data|) then (d, None)
    else if idx >= DIRECT then (d, Some(NoIndirectWrite))
    else if x.block[idx] !in d then (d, Some(AtaError))
    else Fill(d[x.block[idx] := Padded(data, idx)], x, data, idx + 1)
  }

  /** The loop that frees the blocks of a file that shrank. */
  function Shrink(d: Disk, x: Inode, idx: nat, old_: nat): Written
    decreases old_ - idx
  {
    if idx >= old_ then Written(d, x, None)
    else if idx < DIRECT && x.block[idx] != 0 then
      match FreeBlock(d, x.block[idx])
      case Err(e) => Written(d, x, Some(e))
      case Ok(d') => Shrink(d', x.(block := x.block[idx := 0]), idx + 1, old_)
    else Shrink(d, x, idx + 1, old_)
  }

  /** `write_file_data`. */
  function WriteData(d: Disk, geo: Geometry, x: Inode, data: Bytes): Written {
    var needed := BlocksFor(|data|);
    var grown := Grow(d, geo, x, 0, needed);
    if grown.error.Some? then grown
    else
      var (filled, error) := Fill(grown.disk, grown.inode, data, 0);
      if error.Some? then Written(filled, grown.inode, error)
      else
        var shrunk := Shrink(filled, grown.inode, needed, BlocksFor(x.size));
        if shrunk.error.Some? then shrunk
        else shrunk.(inode := shrunk.inode.(size := |data| % 0x1_0000_0000))
  }
}
