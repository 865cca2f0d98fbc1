/** The physical frame bitmap: 64-bit words that stand for the set of free frames. */
module FrameBitmap {
  import opened HeapMath
  import opened Bits
  import opened RawMemory

  function WordCount(n: nat): nat {
    (n + 63) / 64
  }

  /** Words for `n` frames, with no bit set beyond the last of them. */
  ghost predicate Bitmap(words: seq<Word>, n: nat) {
    |words| == WordCount(n) && forall i :: n <= i < 64 * |words| ==> !IsFree(words, i)
  }

  predicate IsFree(words: seq<Word>, i: nat)
    requires i < 64 * |words|
  {
    Bit(words[i / 64], i % 64)
  }

  ghost function FreeSet(words: seq<Word>, n: nat): set<nat>
    requires n <= 64 * |words|
  {
    set i | 0 <= i < n && IsFree(words, i)
  }

  predicate IsFrame(i: nat, n: nat) {
    i < n
  }

  ghost function AllFrames(n: nat): set<nat> {
    set i | 0 <= i < n && IsFrame(i, n)
  }

  lemma MaskFits(i: nat)
    ensures Pow2(i % 64) < WORD_LIMIT == Pow2(64)
  {
    Pow2Of64();
    Pow2Mono(i % 64 + 1, 64);
  }

  /** `fetch_and(!mask)` on the word of frame `i`. */
  function WithUsed(words: seq<Word>, i: nat): (r: seq<Word>)
    requires i < 64 * |words|
    ensures |r| == |words|
  {
    MaskFits(i);
    ClearedBit(words[i / 64], 64, i % 64, 0);
    words[i / 64 := And(words[i / 64], Not(Pow2(i % 64), 64))]
  }

  /** `fetch_or(mask)`. */
  function WithFree(words: seq<Word>, i: nat): (r: seq<Word>)
    requires i < 64 * |words|
    ensures |r| == |words|
  {
    MaskFits(i);
    SetBit(words[i / 64], 64, i % 64, 0);
    words[i / 64 := Or(words[i / 64], Pow2(i % 64))]
  }

  lemma SameFrame(i: nat, j: nat)
    ensures i == j <==> i / 64 == j / 64 && i % 64 == j % 64
  {
  }

  lemma UsedMeans(words: seq<Word>, i: nat, j: nat)
    requires i < 64 * |words| && j < 64 * |words|
    ensures IsFree(WithUsed(words, i), j) <==> IsFree(words, j) && j != i
  {
    MaskFits(i);
    ClearedBit(words[i / 64], 64, i % 64, j % 64);
    SameFrame(i, j);
  }

  lemma FreeMeans(words: seq<Word>, i: nat, j: nat)
    requires i < 64 * |words| && j < 64 * |words|
    ensures IsFree(WithFree(words, i), j) <==> IsFree(words, j) || j == i
  {
    MaskFits(i);
    SetBit(words[i / 64], 64, i % 64, j % 64);
    SameFrame(i, j);
  }

  /** The atomic operations on the words are removal from, and addition to, the set of free frames, for
      any number of frames: the spare bits of a partial last word stay clear. */
  lemma WordsRefineSet(words: seq<Word>, n: nat, i: nat)
    requires Bitmap(words, n) && i < n
    ensures Bitmap(WithUsed(words, i), n) && FreeSet(WithUsed(words, i), n) == FreeSet(words, n) - {i}
    ensures Bitmap(WithFree(words, i), n) && FreeSet(WithFree(words, i), n) == FreeSet(words, n) + {i}
  {
    forall j | 0 <= j < 64 * |words|
      ensures IsFree(WithUsed(words, i), j) <==> IsFree(words, j) && j != i
      ensures IsFree(WithFree(words, i), j) <==> IsFree(words, j) || j == i
    {
      UsedMeans(words, i, j);
      FreeMeans(words, i, j);
    }
  }

  /** Words of ones, the last one cut to the frames that exist. */
  predicate Filled(words: seq<Word>, n: nat) {
    |words| == WordCount(n) && forall v :: 0 <= v < |words| ==>
      words[v] == if v == |words| - 1 && n % 64 > 0 then And(WORD_LIMIT - 1, Pow2(n % 64) - 1) else WORD_LIMIT - 1
  }

  lemma FilledBit(words: seq<Word>, n: nat, i: nat)
    requires Filled(words, n) && i < 64 * |words|
    ensures IsFree(words, i) <==> i < n
  {
    hide Bit, And, Pow2;
    Pow2Of64();
    BitOfOnes(64, i % 64);
    BitOfOnes(n % 64, i % 64);
    BitOfAnd(WORD_LIMIT - 1, Pow2(n % 64) - 1, i % 64);
  }

  lemma FilledIsAllFree(words: seq<Word>, n: nat)
    requires Filled(words, n)
    ensures Bitmap(words, n) && FreeSet(words, n) == AllFrames(n)
  {
    hide Filled, IsFree, WordCount;
    FilledLength(words, n);
    forall i | 0 <= i < 64 * |words| ensures IsFree(words, i) <==> i < n {
      FilledBit(words, n, i);
    }
  }

  lemma FilledLength(words: seq<Word>, n: nat)
    requires Filled(words, n)
    ensures |words| == WordCount(n) && n <= 64 * |words|
  {
  }

  /** `prev & mask != 0`. */
  lemma MaskTests(words: seq<Word>, i: nat)
    requires i < 64 * |words|
    ensures And(words[i / 64], Pow2(i % 64)) != 0 <==> IsFree(words, i)
  {
    AndOneBit(words[i / 64], i % 64);
  }
}

/** `paging.rs` as one caller sees it. */
module Frames {
  import opened Basics
  import opened HeapMath
  import opened Bits
  import opened RawMemory
  import opened FrameBitmap

  const PHYS_BASE: nat := 0x0040_0000
  const KERNEL_START: nat := 0x0010_0000
  const PAGE_SIZE: nat := 4096

  function FrameAddress(i: nat): nat {
    PHYS_BASE + i * PAGE_SIZE
  }

  function FrameCount(physEnd: nat): nat {
    if physEnd <= PHYS_BASE then 0 else (physEnd - PHYS_BASE) / PAGE_SIZE
  }

  function PageIndex(phys: nat, physEnd: nat): Option<nat> {
    if phys < PHYS_BASE || phys >= physEnd then None else Some((phys - PHYS_BASE) / PAGE_SIZE)
  }

  /** Frame addresses and frame numbers are the same thing: every address handed out is page-aligned, in
      range, and leads back to its frame. */
  lemma AddressOfFrame(i: nat, physEnd: nat)
    requires i < FrameCount(physEnd)
    ensures FrameAddress(i) % PAGE_SIZE == 0 && PHYS_BASE <= FrameAddress(i) && FrameAddress(i) + PAGE_SIZE <= physEnd
    ensures PageIndex(FrameAddress(i), physEnd) == Some(i)
  {
    assert PHYS_BASE == 1024 * PAGE_SIZE;
    ModPlus(0, i + 1024, PAGE_SIZE);
    ModPlus(0, i, PAGE_SIZE);
  }

  ghost predicate IsLeast(i: nat, s: set<nat>) {
    i in s && forall j :: j in s ==> i <= j
  }

  class FrameAllocator {
    const physEnd: nat
    const frameCount: nat
    const bitmap: array<Word>
    var initialized: bool

    ghost predicate Valid()
      reads this, bitmap
    {
      frameCount == FrameCount(physEnd) && Bitmap(bitmap[..], frameCount)
    }

    /** The frames that may be handed out. */
    ghost function FreeFrames(): set<nat>
      requires Valid()
      reads this, bitmap
    {
      FreeSet(bitmap[..], frameCount)
    }

    /** The static bitmap, all zero. */
    constructor (end: nat)
      ensures Valid() && FreeFrames() == {} && !initialized && physEnd == end && fresh(bitmap)
    {
      physEnd, frameCount := end, FrameCount(end);
      bitmap := new Word[WordCount(FrameCount(end))](_ => 0);
      initialized := false;
      new;
      forall i | 0 <= i < 64 * bitmap.Length ensures !IsFree(bitmap[..], i) {
        NoBits(i % 64);
      }
    }

    method SetBit(idx: nat, free: bool)
      requires Valid()
      modifies bitmap
      ensures Valid()
      ensures FreeFrames() ==
        if idx >= frameCount then old(FreeFrames()) else if free then old(FreeFrames()) + {idx}
          else old(FreeFrames()) - {idx}
    {
      if idx >= frameCount {
        return;
      }
      WordsRefineSet(bitmap[..], frameCount, idx);
      if free {
        FetchOr(idx);
      } else {
        var prev := FetchAndNot(idx);
      }
    }

    method FetchOr(i: nat)
      requires i < 64 * bitmap.Length
      modifies bitmap
      ensures bitmap[..] == WithFree(old(bitmap[..]), i)
    {
      MaskFits(i);
      Bits.SetBit(bitmap[i / 64], 64, i % 64, 0);
      bitmap[i / 64] := Or(bitmap[i / 64], Pow2(i % 64));
    }

    method FetchAndNot(i: nat) returns (prev: Word)
      requires i < 64 * bitmap.Length
      modifies bitmap
      ensures bitmap[..] == WithUsed(old(bitmap[..]), i) && prev == old(bitmap[i / 64])
    {
      MaskFits(i);
      ClearedBit(bitmap[i / 64], 64, i % 64, 0);
      prev := bitmap[i / 64];
      bitmap[i / 64] := And(prev, Not(Pow2(i % 64), 64));
    }

    method TestBit(idx: nat) returns (free: bool)
      requires Valid()
      ensures free <==> idx in FreeFrames()
    {
      if idx >= frameCount {
        return false;
      }
      MaskTests(bitmap[..], idx);
      return And(bitmap[idx / 64], Pow2(idx % 64)) != 0;
    }

    method MarkUsed(phys: nat)
      requires Valid()
      modifies bitmap
      ensures Valid()
      ensures var idx := PageIndex(phys, physEnd);
        FreeFrames() == if idx.Some? then old(FreeFrames()) - {idx.value} else old(FreeFrames())
    {
      var idx := PageIndex(phys, physEnd);
      if idx.Some? {
        SetBit(idx.value, false);
      }
    }

    /** `init`: every frame becomes free. The pages of the kernel image lie below the first frame, so the
        loop that reserves them changes nothing. */
    method Init()
      requires Valid()
      modifies this`initialized, bitmap
      ensures Valid() && initialized && FreeFrames() == AllFrames(frameCount)
    {
      FillWords();
      var addr := KERNEL_START;
      while addr < PHYS_BASE
        invariant Valid() && FreeFrames() == AllFrames(frameCount)
      {
        MarkUsed(addr);
        addr := addr + PAGE_SIZE;
      }
      initialized := true;
    }

    method FillWords()
      requires Valid()
      modifies bitmap
      ensures Valid() && FreeFrames() == AllFrames(frameCount)
    {
      for w := 0 to bitmap.Length
        invariant forall v :: 0 <= v < w ==> bitmap[v] == WORD_LIMIT - 1
      {
        bitmap[w] := WORD_LIMIT - 1;
      }
      var remainder := frameCount % 64;
      Pow2Of64();
      if remainder > 0 && bitmap.Length > 0 {
        Pow2Mono(remainder, 64);
        AndBelow(bitmap[bitmap.Length - 1], Pow2(remainder) - 1);
        bitmap[bitmap.Length - 1] := And(bitmap[bitmap.Length - 1], Pow2(remainder) - 1);
      }
      FilledIsAllFree(bitmap[..], frameCount);
    }

    /** `alloc_frame`: the least free frame's address; 0 before `init`, or when none is free. */
    method AllocFrame() returns (phys: nat)
      requires Valid()
      modifies bitmap
      ensures Valid()
      ensures if !initialized || old(FreeFrames()) == {} then phys == 0 && FreeFrames() == old(FreeFrames())
        else exists i ::
          IsLeast(i, old(FreeFrames())) && phys == FrameAddress(i) && FreeFrames() == old(FreeFrames()) - {i}
    {
      if !initialized {
        return 0;
      }
      for i := 0 to frameCount
        invariant Valid() && FreeFrames() == old(FreeFrames())
        invariant forall j :: 0 <= j < i ==> j !in FreeFrames()
      {
        MaskTests(bitmap[..], i);
        WordsRefineSet(bitmap[..], frameCount, i);
        var prev := FetchAndNot(i);
        if And(prev, Pow2(i % 64)) != 0 {
          assert i in old(FreeFrames());
          return FrameAddress(i);
        }
      }
      return 0;
    }

    /** `free_frame`. */
    method FreeFrame(phys: nat)
      requires Valid()
      modifies bitmap
      ensures Valid()
      ensures var idx := PageIndex(phys, physEnd);
        FreeFrames() ==
          if phys % PAGE_SIZE == 0 && idx.Some? && idx.value < frameCount then old(FreeFrames()) + {idx.value}
            else old(FreeFrames())
    {
      if phys % PAGE_SIZE != 0 {
        return;
      }
      var idx := PageIndex(phys, physEnd);
      if idx.Some? {
        SetBit(idx.value, true);
      }
    }

    /** `stats`. */
    method Stats() returns (total: nat, free: nat, used: nat)
      requires Valid()
      ensures total == frameCount && free == |FreeFrames()| && used == total - free
    {
      free := 0;
      ghost var seen: set<nat> := {};
      for i := 0 to frameCount
        invariant seen == (set j | 0 <= j < i && j in FreeFrames()) && free == |seen|
        invariant free <= i
      {
        var isFree := TestBit(i);
        if isFree {
          free := free + 1;
          seen := seen + {i};
        }
      }
      assert seen == FreeFrames();
      return frameCount, free, frameCount - free;
    }
  }
}
