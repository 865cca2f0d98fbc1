/** Where every byte of the heap goes: which bytes one call drops, and that free, live and dropped bytes
    always add up to the heap. */
module HeapBytes {
  import opened Basics
  import opened HeapMath
  import opened HeapModel
  import opened HeapRuns

  // ---- Which bytes are dropped ----

  /** A byte is newly lost exactly when the request is served from a region of which too little is left, and
      the byte is one of the region's but not one of the block's. */
  lemma NewlyLostExactly(h: Heap, size: nat, align: nat, x: int)
    requires Inv(h) && Safe(h, size, align) && x in h.owner
    ensures x in Alloc(h, size, align).0.owner
    ensures var s, a := Max(size, 8), Max(align, 8); var k := FirstFit(h.large, s, a);
      Alloc(h, size, align).0.owner[x].Lost? && !h.owner[x].Lost? <==>
        && ServingBucket(h, size, align).None? && k.Some? && Rest(h.large[k.value], s, a) == []
        && h.large[k.value].start <= x < h.large[k.value].End()
        && !(AlignUp(h.large[k.value].start, a) <= x < AlignUp(h.large[k.value].start, a) + s)
  {
    hide AlignUp, LiveOk, BucketsOk, Coalesced, Sound, Carve, Rest, IsPow2;
    var s, a := Max(size, 8), Max(align, 8);
    var k := FirstFit(h.large, s, a);
    if ServingBucket(h, size, align).None? && k.Some? {
      CutWasLarge(h, k.value, s, a);
    }
  }

  /** Whatever runs allow, a lost byte stays lost. */
  lemma LostStaysLost(h: Heap, c: Call, x: int)
    requires Inv(h) && Allowed(h, c) && x in h.owner && h.owner[x].Lost?
    ensures x in After(h, c).owner && After(h, c).owner[x].Lost?
  {
    hide AlignUp, Coalesced, Sound, Carve, IsPow2, Insert, Span, BucketIndex, Covers;
    match c
    case AllocCall(size, align) =>
      var s, a := Max(size, 8), Max(align, 8);
      var i, k := ServingBucket(h, size, align), FirstFit(h.large, s, a);
      if i.Some? {
        HeadOwned(h, i.value);
      } else if k.Some? {
        CutWasLarge(h, k.value, s, a);
      }
    case FreeCall(p) => LiveOwned(h, p);
  }

  lemma HeadOwned(h: Heap, i: nat)
    requires Inv(h) && i < BUCKET_COUNT && h.stacks[i] != []
    ensures Owned(h.owner, h.stacks[i][0], BUCKET_SIZES[i], InBucket(i, h.stacks[i][0]))
  {
    assert h.stacks[i][0] in h.stacks[i];
  }

  /** The bytes that a release hands over are the block's own. */
  lemma LiveOwned(h: Heap, p: nat)
    requires Inv(h) && p in h.live
    ensures var s := Max(h.live[p], 8); var i := BucketIndex(s);
      Owned(h.owner, p, if i.Some? then BUCKET_SIZES[i.value] else s, InLive(p))
  {
    assert Owned(h.owner, p, Span(h.live[p]), InLive(p));
  }

  // ---- Sums ----

  ghost function LostBytes(h: Heap): set<int> {
    set x | x in h.owner && h.owner[x].Lost?
  }

  ghost function LargeBytes(large: seq<Region>): nat {
    if large == [] then 0 else large[0].size + LargeBytes(large[1..])
  }

  /** Bytes in the blocks of the first `n` buckets. */
  ghost function BucketBytes(stacks: seq<seq<nat>>, n: nat): nat
    requires |stacks| == BUCKET_COUNT && n <= BUCKET_COUNT
  {
    if n == 0 then 0 else BucketBytes(stacks, n - 1) + |stacks[n - 1]| * BUCKET_SIZES[n - 1]
  }

  ghost function AllBytes(h: Heap): nat
    requires |h.stacks| == BUCKET_COUNT
  {
    BucketBytes(h.stacks, BUCKET_COUNT) + LargeBytes(h.large) + h.used + |LostBytes(h)|
  }

  ghost function Bytes(a: int, n: nat): (s: set<int>)
    ensures forall x :: x in s <==> a <= x < a + n
    ensures |s| == n
  {
    if n == 0 then {} else Bytes(a, n - 1) + {a + n - 1}
  }

  lemma {:induction false} LargeBytesConcat(a: seq<Region>, b: seq<Region>)
    ensures LargeBytes(a + b) == LargeBytes(a) + LargeBytes(b)
  {
    if a == [] {
      assert a + b == b;
    } else {
      assert (a + b)[1..] == a[1..] + b;
      LargeBytesConcat(a[1..], b);
    }
  }

  lemma LargeBytesSplice(large: seq<Region>, first: nat, last: nat, mid: seq<Region>)
    requires first <= last <= |large|
    ensures LargeBytes(large[..first] + mid + large[last..]) + LargeBytes(large[first..last]) ==
      LargeBytes(large) + LargeBytes(mid)
  {
    LargeBytesConcat(large[..first] + mid, large[last..]);
    LargeBytesConcat(large[..first], mid);
    LargeBytesConcat(large[..first], large[first..last]);
    LargeBytesConcat(large[..first] + large[first..last], large[last..]);
    assert large[..first] + large[first..last] + large[last..] == large;
  }

  lemma CarveBytes(large: seq<Region>, k: nat, size: nat, align: nat)
    requires align > 0 && k < |large| && Fits(large[k], size, align)
    ensures size <= large[k].size
    ensures LargeBytes(Carve(large, k, size, align)) +
      (if Rest(large[k], size, align) == [] then large[k].size else size) == LargeBytes(large)
  {
    hide AlignUp, Rest, LargeBytes;
    var r, rest := large[k], Rest(large[k], size, align);
    LargeBytesSplice(large, k, k + 1, rest);
    assert large[k..k + 1] == [r];
    OneRegionBytes(r);
    RestBytes(r, size, align);
  }

  lemma OneRegionBytes(r: Region)
    ensures LargeBytes([r]) == r.size
  {
    assert [r][1..] == [];
  }

  lemma TwoRegionBytes(r: Region, s: Region)
    ensures LargeBytes([r, s]) == r.size + s.size
  {
    assert [r, s][1..] == [s];
    OneRegionBytes(s);
  }

  lemma RestBytes(r: Region, size: nat, align: nat)
    requires align > 0 && Fits(r, size, align)
    ensures size <= r.size
    ensures LargeBytes(Rest(r, size, align)) + (if Rest(r, size, align) == [] then r.size else size) == r.size
  {
    hide AlignUp, LargeBytes;
    AlignUpIsLeast(r.start, align);
    var p := AlignUp(r.start, align);
    var tail := Region(p + size, r.End() - p - size);
    OneRegionBytes(tail);
    TwoRegionBytes(Region(r.start, p - r.start), tail);
    NoRegionBytes();
  }

  lemma NoRegionBytes()
    ensures LargeBytes([]) == 0
  {
  }

  lemma InsertBytes(large: seq<Region>, addr: nat, size: nat)
    requires Coalesced(large) && size > 0 && forall k :: 0 <= k < |large| ==> large[k].size > 0
    requires forall y :: addr <= y < addr + size ==> !Covers(large, y)
    ensures LargeBytes(Insert(large, addr, size)) == LargeBytes(large) + size
  {
    hide Position, LargeBytes;
    var n := Position(large, addr);
    Between(large, addr, size);
    var first, last, joined := First(large, n, addr), Last(large, n, addr + size), Joined(large, n, addr, size);
    LargeBytesSplice(large, first, last, [joined]);
    OneRegionBytes(joined);
    StretchBytes(large, first, n, last);
  }

  /** A stretch of at most one region before and one behind a position. */
  lemma StretchBytes(large: seq<Region>, first: nat, n: nat, last: nat)
    requires first <= n <= last <= |large| && n <= first + 1 && last <= n + 1
    ensures LargeBytes(large[first..last]) ==
      (if first < n then large[first].size else 0) + (if n < last then large[n].size else 0)
  {
    assert large[first..last] == large[first..n] + large[n..last];
    LargeBytesConcat(large[first..n], large[n..last]);
    NoRegionBytes();
    if first < n {
      assert large[first..n] == [large[first]];
      OneRegionBytes(large[first]);
    }
    if n < last {
      assert large[n..last] == [large[n]];
      OneRegionBytes(large[n]);
    }
  }

  lemma {:induction false} BucketBytesUpdate(stacks: seq<seq<nat>>, i: nat, t: seq<nat>, n: nat)
    requires |stacks| == BUCKET_COUNT && i < BUCKET_COUNT && n <= BUCKET_COUNT
    ensures BucketBytes(stacks[i := t], n) ==
      BucketBytes(stacks, n) + if i < n then |t| * BUCKET_SIZES[i] - |stacks[i]| * BUCKET_SIZES[i] else 0
  {
    if n > 0 {
      BucketBytesUpdate(stacks, i, t, n - 1);
    }
  }

  // ---- Every call conserves bytes ----

  lemma SameLost(h: Heap, h': Heap)
    requires forall x :: x in h.owner <==> x in h'.owner
    requires forall x :: x in h.owner ==> (h.owner[x].Lost? <==> h'.owner[x].Lost?)
    ensures LostBytes(h') == LostBytes(h)
  {
    forall x ensures x in LostBytes(h') <==> x in LostBytes(h) {
    }
  }

  lemma TakeFromBucketConserves(h: Heap, i: nat, size: nat)
    requires Inv(h) && i < BUCKET_COUNT && h.stacks[i] != []
    ensures |TakeFromBucket(h, i, size).stacks| == BUCKET_COUNT && AllBytes(TakeFromBucket(h, i, size)) == AllBytes(h)
  {
    hide LargeOk, LiveOk, BucketsOk, BucketBytes, LargeBytes;
    HeadOwned(h, i);
    BucketBytesUpdate(h.stacks, i, h.stacks[i][1..], BUCKET_COUNT);
    SameLost(h, TakeFromBucket(h, i, size));
  }

  lemma TakeFromLargeConserves(h: Heap, k: nat, size: nat, align: nat)
    requires Inv(h) && align > 0 && k < |h.large| && Fits(h.large[k], Max(size, 8), align)
    ensures |TakeFromLarge(h, k, size, align).stacks| == BUCKET_COUNT
    ensures AllBytes(TakeFromLarge(h, k, size, align)) == AllBytes(h)
  {
    hide Inv, BucketBytes, LargeBytes, LostBytes, AlignUp, Carve, Rest;
    StacksCount(h);
    CarveBytes(h.large, k, Max(size, 8), align);
    CutDrops(h, k, size, align);
  }

  /** When too little is left of a region, all its bytes but the block's join the lost ones. */
  lemma CutDrops(h: Heap, k: nat, size: nat, align: nat)
    requires Inv(h) && align > 0 && k < |h.large| && Fits(h.large[k], Max(size, 8), align)
    ensures |LostBytes(TakeFromLarge(h, k, size, align))| ==
      |LostBytes(h)| + if Rest(h.large[k], Max(size, 8), align) == [] then h.large[k].size - Max(size, 8) else 0
  {
    hide LiveOk, BucketsOk, AlignUp, Carve, Rest, Covers, Coalesced, Sound, LostBytes;
    var s, r, h' := Max(size, 8), h.large[k], TakeFromLarge(h, k, size, align);
    var p := AlignUp(r.start, align);
    AlignUpIsLeast(r.start, align);
    CutWasLarge(h, k, s, align);
    if Rest(r, s, align) == [] {
      DropsAround(h, h', r, p, s);
    } else {
      SameLost(h, h');
    }
  }

  lemma DropsAround(h: Heap, h': Heap, r: Region, p: nat, s: nat)
    requires r.start <= p && p + s <= r.End() && Owned(h.owner, r.start, r.size, InLarge)
    requires h'.owner == Paint(Paint(h.owner, r.start, r.size, Lost), p, s, InLive(p))
    ensures |LostBytes(h')| == |LostBytes(h)| + r.size - s
  {
    var region, block := Bytes(r.start, r.size), Bytes(p, s);
    DroppedAre(h, h', r, p, s);
    assert LostBytes(h) !! region && block <= region;
    CountsAdd(LostBytes(h), region, block);
  }

  lemma CountsAdd(lost: set<int>, region: set<int>, block: set<int>)
    requires lost !! region && block <= region
    ensures |lost + (region - block)| == |lost| + |region| - |block|
  {
    assert region == (region - block) + block;
  }

  lemma DroppedAre(h: Heap, h': Heap, r: Region, p: nat, s: nat)
    requires r.start <= p && p + s <= r.End() && Owned(h.owner, r.start, r.size, InLarge)
    requires h'.owner == Paint(Paint(h.owner, r.start, r.size, Lost), p, s, InLive(p))
    ensures LostBytes(h') == LostBytes(h) + (Bytes(r.start, r.size) - Bytes(p, s))
  {
    forall x ensures x in LostBytes(h') <==> x in LostBytes(h) + (Bytes(r.start, r.size) - Bytes(p, s)) {
    }
  }

  lemma FreeConserves(h: Heap, p: nat)
    requires Inv(h) && p in h.live
    ensures |Free(h, p).stacks| == BUCKET_COUNT && AllBytes(Free(h, p)) == AllBytes(h)
  {
    hide Inv, BucketBytes, LargeBytes, LostBytes, Insert, Sound, Total;
    StacksCount(h);
    FreeKeeps(h, p);
    FreeLosesNothing(h, p);
    var i := BucketIndex(Max(h.live[p], 8));
    if i.Some? {
      BucketBytesUpdate(h.stacks, i.value, [p] + h.stacks[i.value], BUCKET_COUNT);
    } else {
      FreedApart(h, p);
      InsertBytes(h.large, p, h.live[p]);
    }
  }

  lemma FreeLosesNothing(h: Heap, p: nat)
    requires Inv(h) && p in h.live
    ensures LostBytes(Free(h, p)) == LostBytes(h)
  {
    hide LargeOk, BucketsOk, Insert, Span, BucketIndex, LostBytes;
    LiveOwned(h, p);
    SameLost(h, Free(h, p));
  }

  /** A live large block lies in the heap and shares no byte with the large list. */
  lemma FreedApart(h: Heap, p: nat)
    requires Inv(h) && p in h.live && h.live[p] > 2048
    ensures h.lo <= p && p + h.live[p] <= h.hi
    ensures Coalesced(h.large) && forall k :: 0 <= k < |h.large| ==> h.large[k].size > 0
    ensures forall y :: p <= y < p + h.live[p] ==> !Covers(h.large, y)
  {
    var s := h.live[p];
    RegionsPositive(h);
    assert Owned(h.owner, p, s, InLive(p));
    assert p in h.owner && p + s - 1 in h.owner;
  }

  lemma RegionsPositive(h: Heap)
    requires Inv(h)
    ensures Coalesced(h.large) && forall k :: 0 <= k < |h.large| ==> h.large[k].size > 0
  {
    forall k | 0 <= k < |h.large| ensures h.large[k].size > 0 {
      assert Sound(h.large[k]);
    }
  }

  lemma CallConserves(h: Heap, c: Call)
    requires Inv(h) && Allowed(h, c)
    ensures |After(h, c).stacks| == BUCKET_COUNT && AllBytes(After(h, c)) == AllBytes(h)
  {
    hide LargeOk, LiveOk, BucketsOk, AllBytes, TakeFromBucket, TakeFromLarge, Free, IsPow2, AlignUp;
    match c
    case AllocCall(size, align) =>
      var i, k := ServingBucket(h, size, align), FirstFit(h.large, Max(size, 8), Max(align, 8));
      if i.Some? {
        TakeFromBucketConserves(h, i.value, size);
      } else if k.Some? {
        TakeFromLargeConserves(h, k.value, size, Max(align, 8));
      }
    case FreeCall(p) => FreeConserves(h, p);
  }

  lemma {:induction false} CarvedBuckets(lo: nat, size: nat, n: nat)
    requires InitArgs(lo, size) && n <= BUCKET_COUNT
    ensures BucketBytes(Carved(lo, size).stacks, n) == OFFSETS[n]
  {
    hide CarvedOwner, IsPow2;
    if n > 0 {
      CarvedBuckets(lo, size, n - 1);
      OffsetsFollow(n - 1);
    }
  }

  lemma CarvedLost(lo: nat, size: nat)
    requires InitArgs(lo, size)
    ensures |LostBytes(Carved(lo, size))| == if size - BUCKETS_END > NODE_SIZE then 0 else size - BUCKETS_END
  {
    hide BucketAt, CarvedStack;
    var h, rest := Carved(lo, size), size - BUCKETS_END;
    var lost := Bytes(lo + BUCKETS_END, if rest > NODE_SIZE then 0 else rest);
    forall x ensures x in LostBytes(h) <==> x in lost {
    }
    assert LostBytes(h) == lost;
  }

  lemma CarvedBytes(lo: nat, size: nat)
    requires InitArgs(lo, size)
    ensures |Carved(lo, size).stacks| == BUCKET_COUNT && AllBytes(Carved(lo, size)) == size
  {
    hide BucketBytes, CarvedStack, CarvedOwner, LostBytes;
    CarvedBuckets(lo, size, BUCKET_COUNT);
    CarvedLost(lo, size);
    assert LargeBytes(Carved(lo, size).large) == if size - BUCKETS_END > NODE_SIZE then size - BUCKETS_END else 0;
  }

  /** In every state of every run the bytes in bucket blocks, those in large regions, `used` and the dropped
      bytes add up to the size of the heap. */
  lemma {:induction false} BytesAddUp(lo: nat, size: nat, trace: seq<Heap>, calls: seq<Call>, m: nat)
    requires IsRun(lo, size, trace, calls) && m < |trace|
    ensures |trace[m].stacks| == BUCKET_COUNT
    ensures BucketBytes(trace[m].stacks, BUCKET_COUNT) + LargeBytes(trace[m].large) + trace[m].used +
      |LostBytes(trace[m])| == size
  {
    hide BucketBytes, LargeBytes, LostBytes, Carved, After;
    if m == 0 {
      CarvedBytes(lo, size);
    } else {
      BytesAddUp(lo, size, trace, calls, m - 1);
      RunKeepsInv(lo, size, trace, calls, m - 1);
      assert CallAt(trace, calls, m - 1);
      CallConserves(trace[m - 1], calls[m - 1]);
    }
  }
}
