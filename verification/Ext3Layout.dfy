/** On-disk structures: little-endian words, inodes and their slots, block group descriptors. */
module Ext3Layout {
  import opened Basics
  import opened Wire

  const BLOCK_SIZE: nat := 1024
  const DIRECT: nat := 12
  const INDIRECT: nat := 12
  const INODE_BLOCKS: nat := 15
  const INODE_SIZE: nat := 116
  const INODE_WORDS: nat := 29
  const INODES_PER_BLOCK: nat := 8
  const DESC_SIZE: nat := 32
  const DESCS_PER_BLOCK: nat := 32

  predicate IsBlock(b: Bytes) {
    |b| == BLOCK_SIZE
  }

  type Block = b: Bytes | IsBlock(b) ghost witness Zeros(BLOCK_SIZE)

  // ---- Little-endian words ----

  /** The number that the bytes spell, least significant first. */
  function Spelled(s: Bytes): (n: nat)
    ensures |s| <= 1 ==> n < 0x100
    ensures |s| <= 2 ==> n < 0x1_0000
    ensures |s| <= 3 ==> n < 0x100_0000
    ensures |s| <= 4 ==> n < 0x1_0000_0000
  {
    if s == [] then 0 else s[0] + 0x100 * Spelled(s[1..])
  }

  function Le16(a: Byte, b: Byte): U16 {
    Spelled([a, b])
  }

  function Le32(a: Byte, b: Byte, c: Byte, d: Byte): U32 {
    Spelled([a, b, c, d])
  }

  lemma Le16Is(a: Byte, b: Byte)
    ensures Le16(a, b) == a + 0x100 * b
  {
    assert [a, b][1..] == [b] && [b][1..] == [];
    assert Spelled([b]) == b;
  }

  lemma Le32Is(a: Byte, b: Byte, c: Byte, d: Byte)
    ensures Le32(a, b, c, d) == a + 0x100 * b + 0x1_0000 * c + 0x100_0000 * d
  {
    assert [a, b, c, d][1..] == [b, c, d];
    assert [b, c, d][1..] == [c, d];
    Le16Is(c, d);
    assert Spelled([b, c, d]) == b + 0x100 * Spelled([c, d]);
  }

  function Word16At(s: Bytes, at: nat): U16
    requires at + 2 <= |s|
  {
    Le16(s[at], s[at + 1])
  }

  function WordAt(s: Bytes, at: nat): U32
    requires at + 4 <= |s|
  {
    Le32(s[at], s[at + 1], s[at + 2], s[at + 3])
  }

  /** Byte `k` of a word. */
  function ByteOf(w: U32, k: nat): Byte {
    if k == 0 then Lo(Lo16(w)) else if k == 1 then Hi(Lo16(w)) else if k == 2 then Lo(Hi16(w)) else Hi(Hi16(w))
  }

  lemma WordOfBytes(w: U32)
    ensures Le32(ByteOf(w, 0), ByteOf(w, 1), ByteOf(w, 2), ByteOf(w, 3)) == w
  {
    Le32Is(ByteOf(w, 0), ByteOf(w, 1), ByteOf(w, 2), ByteOf(w, 3));
  }

  function BytesOf(words: seq<U32>): (s: Bytes)
    ensures |s| == 4 * |words|
  {
    seq(4 * |words|, k requires 0 <= k < 4 * |words| => ByteOf(words[k / 4], k % 4))
  }

  function WordsOf(s: Bytes, at: nat, n: nat): (words: seq<U32>)
    requires at + 4 * n <= |s|
    ensures |words| == n
  {
    seq(n, k requires 0 <= k < n => WordAt(s, at + 4 * k))
  }

  /** Replace the bytes from `at` on. */
  function Patched(s: Bytes, at: nat, data: Bytes): (r: Bytes)
    requires at + |data| <= |s|
    ensures |r| == |s|
    ensures forall k :: at <= k < at + |data| ==> r[k] == data[k - at]
    ensures forall k :: 0 <= k < at || at + |data| <= k < |s| ==> r[k] == s[k]
  {
    s[..at] + data + s[at + |data|..]
  }

  lemma WordsOfPatched(s: Bytes, at: nat, words: seq<U32>)
    requires at + 4 * |words| <= |s|
    ensures WordsOf(Patched(s, at, BytesOf(words)), at, |words|) == words
  {
    hide Le32, ByteOf, BytesOf, Patched;
    var data, r := BytesOf(words), Patched(s, at, BytesOf(words));
    forall k | 0 <= k < |words| ensures WordAt(r, at + 4 * k) == words[k] {
      WordOfBytes(words[k]);
      WordBytes(words, k);
      forall j | 0 <= j < 4 ensures r[at + 4 * k + j] == ByteOf(words[k], j) {
        assert r[at + 4 * k + j] == data[4 * k + j];
      }
      assert r[at + 4 * k] == r[at + 4 * k + 0];
    }
  }

  lemma WordBytes(words: seq<U32>, k: nat)
    requires k < |words|
    ensures forall j :: 0 <= j < 4 ==> BytesOf(words)[4 * k + j] == ByteOf(words[k], j)
  {
  }

  /** A patch elsewhere leaves words as they are. */
  lemma WordsBesidePatch(s: Bytes, at: nat, data: Bytes, from: nat, n: nat)
    requires at + |data| <= |s| && from + 4 * n <= |s|
    requires from + 4 * n <= at || at + |data| <= from
    ensures WordsOf(Patched(s, at, data), from, n) == WordsOf(s, from, n)
  {
    hide Le32, Patched;
    forall k | 0 <= k < n ensures WordAt(Patched(s, at, data), from + 4 * k) == WordAt(s, from + 4 * k) {
    }
  }

  // ---- Inodes ----

  predicate IsPointers(s: seq<U32>) {
    |s| == INODE_BLOCKS
  }

  type Pointers = s: seq<U32> | IsPointers(s) ghost witness seq(INODE_BLOCKS, _ => 0)

  datatype Inode = Inode(
    mode: U16, uid: U16, size: U32, atime: U32, ctime: U32, mtime: U32, dtime: U32,
    gid: U16, links: U16, sectors: U32, flags: U32, osd1: U32, block: Pointers,
    generation: U32, fileAcl: U32, sizeHigh: U32, faddr: U32)

  function Pair(lo: U16, hi: U16): U32 {
    lo + hi * 0x1_0000
  }

  /** The packed struct, as the 29 words it occupies. */
  function InodeWords(x: Inode): (words: seq<U32>)
    ensures |words| == INODE_WORDS
  {
    [Pair(x.mode, x.uid), x.size, x.atime, x.ctime, x.mtime, x.dtime, Pair(x.gid, x.links), x.sectors, x.flags, x.osd1]
      + x.block + [x.generation, x.fileAcl, x.sizeHigh, x.faddr]
  }

  function InodeOf(w: seq<U32>): Inode
    requires |w| == INODE_WORDS
  {
    Inode(Lo16(w[0]), Hi16(w[0]), w[1], w[2], w[3], w[4], w[5], Lo16(w[6]), Hi16(w[6]), w[7], w[8], w[9],
      w[10..25], w[25], w[26], w[27], w[28])
  }

  lemma InodeRoundTrip(x: Inode)
    ensures InodeOf(InodeWords(x)) == x
  {
    PairParts(x.mode, x.uid);
    PairParts(x.gid, x.links);
    assert InodeWords(x)[10..25] == x.block;
  }

  lemma PairParts(lo: U16, hi: U16)
    ensures Lo16(Pair(lo, hi)) == lo && Hi16(Pair(lo, hi)) == hi
  {
  }

  /** The inode in slot `k` of an inode table block. */
  function InodeIn(b: Block, k: nat): Inode
    requires k < INODES_PER_BLOCK
  {
    InodeOf(WordsOf(b, k * INODE_SIZE, INODE_WORDS))
  }

  function WithInode(b: Block, k: nat, x: Inode): Block
    requires k < INODES_PER_BLOCK
  {
    Patched(b, k * INODE_SIZE, BytesOf(InodeWords(x)))
  }

  /** A written inode reads back, and its neighbours in the block are unchanged. */
  lemma SlotRoundTrip(b: Block, k: nat, x: Inode, j: nat)
    requires k < INODES_PER_BLOCK && j < INODES_PER_BLOCK
    ensures InodeIn(WithInode(b, k, x), j) == if j == k then x else InodeIn(b, j)
  {
    hide InodeOf, InodeWords, Le32;
    if j == k {
      WordsOfPatched(b, k * INODE_SIZE, InodeWords(x));
      InodeRoundTrip(x);
    } else {
      WordsBesidePatch(b, k * INODE_SIZE, BytesOf(InodeWords(x)), j * INODE_SIZE, INODE_WORDS);
    }
  }

  // ---- Block group descriptors ----

  datatype Desc = Desc(blockBitmap: U32, inodeBitmap: U32, inodeTable: U32)

  function DescIn(b: Block, k: nat): Desc
    requires k < DESCS_PER_BLOCK
  {
    var at := k * DESC_SIZE;
    Desc(WordAt(b, at), WordAt(b, at + 4), WordAt(b, at + 8))
  }
}
