/** Where the allocator's promises end: for each condition on the clients, what happens exactly without it. */
module HeapLimits {
  import opened Basics
  import opened HeapMath
  import opened HeapModel
  import opened HeapRuns

  // ---- Small requests served by the large list ----

  /** What a fallback hands out, and what its release does. */
  lemma FallbackAndBack(h: Heap, size: nat, align: nat, k: nat)
    requires Inv(h) && size <= 2048 && ServingBucket(h, size, align).None?
    requires FirstFit(h.large, Max(size, 8), Max(align, 8)) == Some(k)
    ensures var s, a := Max(size, 8), Max(align, 8); var p := AlignUp(h.large[k].start, a);
      var h1 := Alloc(h, size, align).0;
      && Alloc(h, size, align).1 == Some(p) && p in h1.live && h1.live[p] == size && |h1.stacks| == BUCKET_COUNT
      && h1.large == Carve(h.large, k, s, a) && h1.used == h.used + s
      && Free(h1, p).large == h1.large && Free(h1, p).used == SaturatingSub(h.used + s, Span(size))
      && Free(h1, p).stacks[BucketIndex(s).value] == [p] + h.stacks[BucketIndex(s).value]
  {
    hide AlignUp, Carve, Inv;
    StacksCount(h);
  }

  /** The bucket block that a small fallback becomes on release is made of bytes taken from the region,
      none of them still in the large list, exactly when the size requested is the bucket's, or the whole
      region was handed out and holds the bucket block. */
  lemma FallbackIsSoundExactly(h: Heap, size: nat, align: nat, k: nat)
    requires Inv(h) && size <= 2048 && ServingBucket(h, size, align).None?
    requires FirstFit(h.large, Max(size, 8), Max(align, 8)) == Some(k)
    ensures |Alloc(h, size, align).0.stacks| == BUCKET_COUNT
    ensures AlignUp(h.large[k].start, Max(align, 8)) in Alloc(h, size, align).0.live
    ensures var s, a, r := Max(size, 8), Max(align, 8), h.large[k]; var p := AlignUp(r.start, a);
      (forall y :: p <= y < p + Span(size) ==> TakenOver(h, Free(Alloc(h, size, align).0, p), y))
      <==> s == Span(size) || (Rest(r, s, a) == [] && p + Span(size) <= r.End())
  {
    hide AlignUp, Inv, Rest, Carve;
    var s, a, r := Max(size, 8), Max(align, 8), h.large[k];
    var p := AlignUp(r.start, a);
    FallbackAndBack(h, size, align, k);
    AlignUpIsLeast(r.start, a);
    var h2 := Free(Alloc(h, size, align).0, p);
    if s == Span(size) || (Rest(r, s, a) == [] && p + Span(size) <= r.End()) {
      forall y | p <= y < p + Span(size) ensures TakenOver(h, h2, y) {
        TakenFromRegion(h, k, s, a, y);
      }
    } else if Rest(r, s, a) != [] {
      TailStays(h, k, s, a);
      assert !TakenOver(h, h2, p + s);
    } else {
      NothingBehind(h, k);
      assert !TakenOver(h, h2, r.End());
    }
  }

  /** A byte of the large list before, and of no region of it after. */
  ghost predicate TakenOver(h: Heap, h': Heap, y: int) {
    y in h.owner && h.owner[y].InLarge? && !Covers(h'.large, y)
  }

  lemma TakenFromRegion(h: Heap, k: nat, size: nat, align: nat, y: int)
    requires Inv(h) && align > 0 && size > 0 && k < |h.large| && Fits(h.large[k], size, align)
    requires AlignUp(h.large[k].start, align) <= y < h.large[k].End()
    requires y < AlignUp(h.large[k].start, align) + size || Rest(h.large[k], size, align) == []
    ensures y in h.owner && h.owner[y].InLarge? && !Covers(Carve(h.large, k, size, align), y)
  {
    AlignUpIsLeast(h.large[k].start, align);
    assert Covers(h.large, y);
    assert y in h.owner by {
      assert h.lo <= h.large[k].start && h.large[k].End() <= h.hi;
    }
    CarveTakes(h.large, k, size, align, y);
  }

  lemma TailStays(h: Heap, k: nat, size: nat, align: nat)
    requires align > 0 && size > 0 && k < |h.large| && Fits(h.large[k], size, align)
    requires Rest(h.large[k], size, align) != []
    ensures Covers(Carve(h.large, k, size, align), AlignUp(h.large[k].start, align) + size)
  {
    hide AlignUp;
    AlignUpIsLeast(h.large[k].start, align);
    var rest := Rest(h.large[k], size, align);
    assert Carve(h.large, k, size, align)[k + |rest| - 1] == rest[|rest| - 1];
  }

  /** The byte behind a region is in no region. */
  lemma NothingBehind(h: Heap, k: nat)
    requires Inv(h) && k < |h.large|
    ensures !Covers(h.large, h.large[k].End())
    ensures h.large[k].End() in h.owner ==> !h.owner[h.large[k].End()].InLarge?
  {
    var e := h.large[k].End();
    forall j | 0 <= j < |h.large| ensures !(h.large[j].start <= e < h.large[j].End()) {
    }
  }

  /** `used` comes back to what it was exactly when the size is the bucket's, or nothing was in use. */
  lemma FallbackUsesExactly(h: Heap, size: nat, align: nat, k: nat)
    requires Inv(h) && size <= 2048 && ServingBucket(h, size, align).None?
    requires FirstFit(h.large, Max(size, 8), Max(align, 8)) == Some(k)
    ensures var h1, p := Alloc(h, size, align).0, AlignUp(h.large[k].start, Max(align, 8));
      && |h1.stacks| == BUCKET_COUNT && p in h1.live
      && (Free(h1, p).used == h.used <==> Max(size, 8) == Span(size) || h.used == 0)
  {
    hide AlignUp, Inv, Carve;
    FallbackAndBack(h, size, align, k);
  }

  /** An allocation keeps the invariant exactly when it is one of those that runs allow, or fails, or is for
      at most 8 bytes and takes the last bytes of its region. */
  lemma AllocKeepsExactly(h: Heap, size: nat, align: nat)
    requires Inv(h) && IsPow2(align)
    ensures |h.stacks| == BUCKET_COUNT
    ensures var s, a := Max(size, 8), Max(align, 8); var k := FirstFit(h.large, s, a);
      Inv(Alloc(h, size, align).0) <==>
        Safe(h, size, align) || k.None? || (size <= 8 && Rest(h.large[k.value], s, a) == [])
  {
    hide AlignUp, Inv, Rest, Carve, Sound;
    StacksCount(h);
    var s, a := Max(size, 8), Max(align, 8);
    var k := FirstFit(h.large, s, a);
    if Safe(h, size, align) {
      AllocKeeps(h, size, align);
    } else if k.Some? {
      if s != Span(size) {
        UsedTooLow(h, size, align, k.value);
      } else if Rest(h.large[k.value], s, a) != [] {
        TailOffGrid(h, size, align, k.value);
      } else if size > 8 {
        LiveOffGrid(h, size, align, k.value);
      } else {
        LastBytesKeep(h, size, align, k.value);
      }
    }
  }

  lemma LiveOffGrid(h: Heap, size: nat, align: nat, k: nat)
    requires Inv(h) && k < |h.large| && Fits(h.large[k], Max(size, 8), Max(align, 8))
    requires size > 8 && Max(size, 8) == Span(size) && size % NODE_SIZE != 0
    ensures !Inv(TakeFromLarge(h, k, size, Max(align, 8)))
  {
    hide AlignUp, LargeOk, BucketsOk, Paint, Carve, Rest;
    var p := AlignUp(h.large[k].start, Max(align, 8));
    assert size > 2048 && !Sound(Region(p, size));
    assert p in TakeFromLarge(h, k, size, Max(align, 8)).live;
  }

  lemma LastBytesKeep(h: Heap, size: nat, align: nat, k: nat)
    requires Inv(h) && IsPow2(align) && k < |h.large| && Fits(h.large[k], 8, Max(align, 8))
    requires size <= 8 && Rest(h.large[k], 8, Max(align, 8)) == []
    ensures Inv(TakeFromLarge(h, k, size, Max(align, 8)))
  {
    hide LiveOk, BucketsOk, LargeOk, AlignUp, Carve;
    var a := Max(align, 8);
    var h', p := TakeFromLarge(h, k, size, a), AlignUp(h.large[k].start, a);
    CutWasLarge(h, k, 8, a);
    assert p in h.owner && h.owner[p] == InLarge;
    NotLive(h, p);
    TotalAdds(h.live, p, size);
    BucketsUnmoved(h, h');
    WholeRegionLargeOk(h, k, size, a);
    WholeRegionLiveOk(h, k, size, a);
  }

  lemma WholeRegionLargeOk(h: Heap, k: nat, size: nat, align: nat)
    requires HeapOk(h) && LargeOk(h) && align > 0 && k < |h.large| && Fits(h.large[k], Max(size, 8), align)
    requires Rest(h.large[k], Max(size, 8), align) == []
    ensures LargeOk(TakeFromLarge(h, k, size, align))
  {
    hide AlignUp, Sound, Rest;
    var h' := TakeFromLarge(h, k, size, align);
    AlignUpIsLeast(h.large[k].start, align);
    forall j | 0 <= j < |h'.large| ensures h'.large[j] in h.large {
      assert h'.large[j] == if j < k then h.large[j] else h.large[j + 1];
    }
    CarveTakes(h.large, k, Max(size, 8), align, 0);
    forall x | x in h'.owner ensures h'.owner[x].InLarge? <==> Covers(h'.large, x) {
      CarveTakes(h.large, k, Max(size, 8), align, x);
    }
  }

  lemma SpanOfSmallest(size: nat)
    requires size <= 8
    ensures Span(size) == 8
  {
  }

  lemma WholeRegionLiveOk(h: Heap, k: nat, size: nat, align: nat)
    requires HeapOk(h) && LargeOk(h) && LiveOk(h) && align > 0 && k < |h.large| && Fits(h.large[k], 8, align)
    requires size <= 8 && Rest(h.large[k], 8, align) == []
    ensures LiveOk(TakeFromLarge(h, k, size, align))
  {
    hide AlignUp, Rest, Carve, LiveOk, Covers, Coalesced, Span, Owned, Paint;
    SpanOfSmallest(size);
    var r := h.large[k];
    var p := AlignUp(r.start, align);
    CutWasLarge(h, k, 8, align);
    AlignUpIsLeast(r.start, align);
    RegionLostLiveOk(h, r.start, r.size);
    PaintedInside(h.owner, r.start, r.size, Lost, p, 8);
    var mid := h.(owner := Paint(h.owner, r.start, r.size, Lost));
    TakenLiveOk(mid, p, size, Lost);
    SameLiveOk(mid.(live := h.live[p := size], owner := Paint(mid.owner, p, 8, InLive(p))),
      TakeFromLarge(h, k, size, align));
  }

  lemma UsedTooLow(h: Heap, size: nat, align: nat, k: nat)
    requires Inv(h) && k < |h.large| && Fits(h.large[k], Max(size, 8), Max(align, 8)) && Max(size, 8) != Span(size)
    ensures !Inv(TakeFromLarge(h, k, size, Max(align, 8)))
  {
    hide AlignUp, Carve, Paint, Rest;
    var s, a := Max(size, 8), Max(align, 8);
    var p := AlignUp(h.large[k].start, a);
    CutWasLarge(h, k, s, a);
    assert p in h.owner && h.owner[p] == InLarge;
    NotLive(h, p);
    TotalAdds(h.live, p, size);
  }

  lemma TailOffGrid(h: Heap, size: nat, align: nat, k: nat)
    requires Inv(h) && IsPow2(align) && k < |h.large| && Fits(h.large[k], Max(size, 8), Max(align, 8))
    requires Max(size, 8) % NODE_SIZE != 0 && Rest(h.large[k], Max(size, 8), Max(align, 8)) != []
    ensures !Inv(TakeFromLarge(h, k, size, Max(align, 8)))
  {
    hide AlignUp, Inv, Paint, Rest, Carve, Sound;
    var s, a, r := Max(size, 8), Max(align, 8), h.large[k];
    PowersUsed();
    RegionSound(h, k);
    TailIsOff(r, s, a);
    CarveIs(h.large, k, s, a);
    var rest, h' := Rest(r, s, a), TakeFromLarge(h, k, size, a);
    assert h'.large[k + |rest| - 1] == rest[|rest| - 1];
    if Inv(h') {
      RegionSound(h', k + |rest| - 1);
    }
  }

  lemma RegionSound(h: Heap, k: nat)
    requires Inv(h) && k < |h.large|
    ensures Sound(h.large[k])
  {
  }

  lemma CarveIs(large: seq<Region>, k: nat, size: nat, align: nat)
    requires align > 0 && k < |large| && Fits(large[k], size, align)
    ensures Carve(large, k, size, align) == large[..k] + Rest(large[k], size, align) + large[k + 1..]
  {
  }

  lemma TailIsOff(r: Region, size: nat, align: nat)
    requires Sound(r) && IsPow2(align) && align >= 8 && size % NODE_SIZE != 0
    requires Fits(r, size, align) && Rest(r, size, align) != []
    ensures !Sound(Rest(r, size, align)[|Rest(r, size, align)| - 1])
  {
    hide AlignUp, IsPow2;
    AlignedSound(r, align);
    var p := AlignUp(r.start, align);
    assert Rest(r, size, align)[|Rest(r, size, align)| - 1].start == p + size;
    assert (p + size) % NODE_SIZE == size % NODE_SIZE;
  }

  /** It does happen: on the kernel's heap the first request for 24 bytes aligned to 64 leaves, on its
      release, a block on the 32-byte list that shares bytes with the large list. */
  lemma FirstCallOverlaps(lo: nat)
    requires InitArgs(lo, 0x20_0000)
    ensures var h1 := Alloc(Carved(lo, 0x20_0000), 24, 64).0; var p := lo + BUCKETS_END;
      && Alloc(Carved(lo, 0x20_0000), 24, 64).1 == Some(p) && |h1.stacks| == BUCKET_COUNT && p in h1.live
      && p in Free(h1, p).stacks[2] && BUCKET_SIZES[2] == 32 && Covers(Free(h1, p).large, p + 24)
  {
    hide Inv, CarvedOwner, CarvedStack;
    var h, r := Carved(lo, 0x20_0000), Region(lo + BUCKETS_END, 0x20_0000 - BUCKETS_END);
    CarvedInv(lo, 0x20_0000);
    assert BucketIndex(24) == Some(2) && h.large == [r];
    PowersUsed();
    BucketsEndAligned(lo, 64);
    assert Fits(r, 24, 64) && FirstFit(h.large, 24, 64) == Some(0);
    FallbackAndBack(h, 24, 64, 0);
    TailStays(h, 0, 24, 64);
  }

  /** Where the large list begins is a multiple of every power of two up to 2048. */
  lemma BucketsEndAligned(lo: nat, a: nat)
    requires lo % 4096 == 0 && IsPow2(a) && a <= 2048
    ensures (lo + BUCKETS_END) % a == 0 && AlignUp(lo + BUCKETS_END, a) == lo + BUCKETS_END
  {
    hide AlignUp;
    PowersUsed();
    Pow2Divides(lo, 4096, a);
    MultipleMod(511, 2048);
    Pow2Divides(BUCKETS_END, 2048, a);
    MultiplesAdd(lo, BUCKETS_END, a);
    AlignUpIsLeast(lo + BUCKETS_END, a);
  }

  // ---- Requests of odd sizes ----

  /** Two large requests on the heap that `init` made, the second aligned to 16: every free region is left
      with room for its header exactly when the first size is a multiple of 16. */
  lemma HeadersFitExactly(lo: nat, size: nat, n1: nat, n2: nat)
    requires InitArgs(lo, size) && 2048 < n1 && 2048 < n2 && BUCKETS_END + n1 + n2 + 2 * NODE_SIZE <= size
    ensures var h1 := Alloc(Carved(lo, size), n1, 8).0; |h1.stacks| == BUCKET_COUNT
    ensures var h2 := Alloc(Alloc(Carved(lo, size), n1, 8).0, n2, 16).0;
      (forall k :: 0 <= k < |h2.large| ==> h2.large[k].size >= NODE_SIZE) <==> n1 % NODE_SIZE == 0
  {
    hide AlignUp, Paint, CarvedOwner, IsPow2, Alloc, CarvedStack;
    var r := Region(lo + BUCKETS_END, size - BUCKETS_END);
    var r1 := Region(r.start + n1, r.size - n1);
    PowersUsed();
    BucketsEndAligned(lo, 8);
    BucketsEndAligned(lo, 16);
    assert Carved(lo, size).large == [r];
    OneRegion(Carved(lo, size), r, n1, 8);
    assert Alloc(Carved(lo, size), n1, 8).0.large == [r1];
    var p := AlignUp(r1.start, 16);
    AlignUpIsLeast(r1.start, 16);
    GapBefore(r.start, n1);
    OneRegion(Alloc(Carved(lo, size), n1, 8).0, r1, n2, 16);
    var large := Alloc(Alloc(Carved(lo, size), n1, 8).0, n2, 16).0.large;
    var tail := Region(p + n2, r1.End() - p - n2);
    assert large == if p == r1.start then [tail] else [Region(r1.start, p - r1.start), tail];
    assert large[0] == if p == r1.start then tail else Region(r1.start, p - r1.start);
  }

  lemma OneRegion(h: Heap, r: Region, size: nat, align: nat)
    requires |h.stacks| == BUCKET_COUNT && h.large == [r] && size > 2048 && align >= 8 && r.End() < WORD_LIMIT
    requires AlignUp(r.start, align) + size + NODE_SIZE <= r.End() && r.start <= AlignUp(r.start, align)
    ensures var p := AlignUp(r.start, align);
      && |Alloc(h, size, align).0.stacks| == BUCKET_COUNT
      && Alloc(h, size, align).0.large == Remainder(r, p, p + size)
  {
    hide AlignUp, Paint, Remainder;
    assert Fits(r, size, align) && FirstFit(h.large, size, align) == Some(0);
  }

  lemma GapBefore(start: nat, n: nat)
    requires start % NODE_SIZE == 0
    ensures AlignUp(start + n, NODE_SIZE) == start + n <==> n % NODE_SIZE == 0
    ensures AlignUp(start + n, NODE_SIZE) < start + n + NODE_SIZE
  {
  }
}
