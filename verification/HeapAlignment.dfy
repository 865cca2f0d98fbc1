/** Which heaps keep their promise of alignment for ever, and a run that ends up with one that does not. */
module HeapAlignment {
  import opened Basics
  import opened HeapMath
  import opened HeapModel
  import opened HeapRuns
  import opened HeapLimits

  // ---- A heap serves every client aligned exactly when it is natural ----

  /** A call that runs allow and that asks, when it is small, for its block's natural alignment. */
  predicate Asked(h: Heap, c: Call)
    requires |h.stacks| == BUCKET_COUNT
  {
    Allowed(h, c) && (c.AllocCall? && c.size <= 2048 ==> c.align >= Span(c.size))
  }

  predicate ServedAligned(h: Heap, c: Call)
    requires |h.stacks| == BUCKET_COUNT && Allowed(h, c)
  {
    c.AllocCall? ==> var r := Alloc(h, c.size, c.align).1; r.Some? ==> r.value % c.align == 0
  }

  lemma AfterStacks(h: Heap, c: Call)
    requires |h.stacks| == BUCKET_COUNT && Allowed(h, c)
    ensures |After(h, c).stacks| == BUCKET_COUNT
  {
    hide AlignUp, Carve, Paint, Insert, FirstFit, Span, IsPow2;
  }

  /** Every pointer of a sequence of calls is aligned as asked, up to the first call that is not `Asked`. */
  ghost predicate ServesAligned(h: Heap, calls: seq<Call>)
    requires |h.stacks| == BUCKET_COUNT
    decreases |calls|
  {
    calls != [] && Asked(h, calls[0]) ==>
      ServedAligned(h, calls[0]) && (AfterStacks(h, calls[0]); ServesAligned(After(h, calls[0]), calls[1..]))
  }

  lemma AskedIsNatural(h: Heap, c: Call)
    requires |h.stacks| == BUCKET_COUNT && Asked(h, c)
    ensures NaturalCall(h, c)
  {
    hide Span, IsPow2;
    if c.AllocCall? {
      NaturalAlignmentSuffices(h, c.size, c.align);
    }
  }

  lemma {:induction false} NaturalServesAligned(h: Heap, calls: seq<Call>)
    requires Inv(h) && Natural(h)
    ensures ServesAligned(h, calls)
    decreases |calls|
  {
    hide LiveOk, LargeOk, BucketsOk, Natural, Alloc, Free, NaturalCall, Span, IsPow2;
    if calls != [] && Asked(h, calls[0]) {
      var c := calls[0];
      if c.AllocCall? {
        AllocIsAligned(h, c.size, c.align);
      }
      AskedIsNatural(h, c);
      NaturalExactly(h, c);
      CallKeepsInv(h, c);
      NaturalServesAligned(After(h, c), calls[1..]);
    }
  }

  /** Requests that take the blocks of bucket `i` one by one. */
  function Pops(i: nat, n: nat): seq<Call>
    requires i < BUCKET_COUNT
  {
    if n == 0 then [] else [AllocCall(BUCKET_SIZES[i], BUCKET_SIZES[i])] + Pops(i, n - 1)
  }

  lemma BlockSizes(i: nat)
    requires i < BUCKET_COUNT
    ensures var n := BUCKET_SIZES[i];
      BucketIndex(n) == Some(i) && Span(n) == Max(n, 8) == n >= 8 && (i > 0 ==> n % NODE_SIZE == 0)
  {
    hide BucketIndex, Span;
    IndexOfSize(i);
    SpanOfSize(i);
  }

  lemma IndexOfSize(i: nat)
    requires i < BUCKET_COUNT
    ensures BucketIndex(BUCKET_SIZES[i]) == Some(i)
  {
    hide BucketIndexFrom;
    var n := BUCKET_SIZES[i];
    var r := BucketIndexFrom(n, 0);
    assert r.Some?;
  }

  lemma SpanOfSize(i: nat)
    requires i < BUCKET_COUNT
    ensures Span(BUCKET_SIZES[i]) == BUCKET_SIZES[i]
  {
    hide BucketIndex;
    IndexOfSize(i);
  }

  lemma BucketServesItsSize(h: Heap, i: nat, align: nat)
    requires |h.stacks| == BUCKET_COUNT && i < BUCKET_COUNT && h.stacks[i] != [] && IsPow2(align)
    requires align <= BUCKET_SIZES[i]
    ensures var n := BUCKET_SIZES[i];
      Span(n) == n > 0 && IsPow2(n) && ServingBucket(h, n, align) == Some(i) && Allowed(h, AllocCall(n, align))
  {
    hide IsPow2;
    OffsetsFollow(i);
    BlockSizes(i);
  }

  /** Taking blocks from a bucket hands out, sooner or later, each of them. */
  lemma {:induction false} PopsReach(h: Heap, i: nat, k: nat)
    requires |h.stacks| == BUCKET_COUNT && i < BUCKET_COUNT && k < |h.stacks[i]|
    requires h.stacks[i][k] % BUCKET_SIZES[i] != 0
    ensures !ServesAligned(h, Pops(i, k + 1))
    decreases k
  {
    hide Span, Paint, IsPow2, BucketIndex;
    var n := BUCKET_SIZES[i];
    var c, calls := AllocCall(n, n), Pops(i, k + 1);
    OffsetsFollow(i);
    BucketServesItsSize(h, i, n);
    assert calls[0] == c && calls[1..] == Pops(i, k);
    if k > 0 {
      AfterStacks(h, c);
      assert After(h, c).stacks[i] == h.stacks[i][1..];
      PopsReach(After(h, c), i, k - 1);
    }
  }

  /** A live block off its size comes back to the next request once it is released. */
  lemma ReleaseReaches(h: Heap, p: nat)
    requires |h.stacks| == BUCKET_COUNT && p in h.live && h.live[p] <= 2048 && p % Span(h.live[p]) != 0
    ensures !ServesAligned(h, [FreeCall(p), AllocCall(Span(h.live[p]), Span(h.live[p]))])
  {
    hide Paint, IsPow2, Span;
    var i := BucketIndex(Max(h.live[p], 8)).value;
    var c := FreeCall(p);
    SpanIsPow2(h.live[p]);
    var h' := After(h, c);
    assert h'.stacks[i] == [p] + h.stacks[i];
    PopsReach(h', i, 0);
    assert [FreeCall(p), AllocCall(Span(h.live[p]), Span(h.live[p]))][1..] == Pops(i, 1);
  }

  /** All continuations of a heap, in which small requests ask for natural alignment, are served aligned
      exactly when its bucket blocks and its small live blocks sit on multiples of their sizes. */
  lemma ServesAlignedExactly(h: Heap)
    requires Inv(h)
    ensures |h.stacks| == BUCKET_COUNT
    ensures Natural(h) <==> forall calls: seq<Call> :: ServesAligned(h, calls)
  {
    hide ServesAligned, LargeOk, LiveOk, BucketsOk, Span;
    if Natural(h) {
      forall calls: seq<Call> ensures ServesAligned(h, calls) {
        NaturalServesAligned(h, calls);
      }
    } else if i, a :| 0 <= i < BUCKET_COUNT && a in h.stacks[i] && a % BUCKET_SIZES[i] != 0 {
      var k :| 0 <= k < |h.stacks[i]| && h.stacks[i][k] == a;
      PopsReach(h, i, k);
    } else {
      var p: nat :| p in h.live && h.live[p] <= 2048 && p % Span(h.live[p]) != 0;
      ReleaseReaches(h, p);
    }
  }

  /** Blocks of 8 and 16 bytes are never placed off their size. */
  lemma SmallestStayNatural(h: Heap, size: nat, align: nat)
    requires Inv(h) && Safe(h, size, align) && size <= 16
    ensures NaturalCall(h, AllocCall(size, align))
  {
    hide AlignUp, LiveOk, BucketsOk, Coalesced, Covers;
    PowersUsed();
    var a := Max(align, 8);
    var k := FirstFit(h.large, Max(size, 8), a);
    if ServingBucket(h, size, align).None? && k.Some? {
      AlignedSound(h.large[k.value], a);
      Pow2Divides(AlignUp(h.large[k.value].start, a), 16, 8);
    }
  }

  // ---- From init to a misaligned pointer ----

  /** A run and one call more. */
  lemma RunExtends(lo: nat, size: nat, trace: seq<Heap>, calls: seq<Call>, c: Call)
    requires IsRun(lo, size, trace, calls)
    requires |trace[|calls|].stacks| == BUCKET_COUNT && Allowed(trace[|calls|], c)
    ensures IsRun(lo, size, trace + [After(trace[|calls|], c)], calls + [c])
  {
    hide After, Allowed, Carved, InitArgs;
    var trace', calls' := trace + [After(trace[|calls|], c)], calls + [c];
    forall i | 0 <= i < |calls'| ensures CallAt(trace', calls', i) {
      assert i < |calls| ==> CallAt(trace, calls, i);
    }
  }

  /** Emptying a bucket changes no other bucket and not the large list. */
  lemma {:induction false} Drain(lo: nat, size: nat, trace: seq<Heap>, calls: seq<Call>, i: nat)
      returns (trace': seq<Heap>, calls': seq<Call>)
    requires IsRun(lo, size, trace, calls) && i < BUCKET_COUNT && |trace[|calls|].stacks| == BUCKET_COUNT
    ensures IsRun(lo, size, trace', calls')
    ensures |calls'| == |calls| + |trace[|calls|].stacks[i]| && calls <= calls'
    ensures forall j :: |calls| <= j < |calls'| ==> calls'[j] == AllocCall(BUCKET_SIZES[i], 8)
    ensures trace'[|calls'|].stacks == trace[|calls|].stacks[i := []] && trace'[|calls'|].large == trace[|calls|].large
    decreases |trace[|calls|].stacks[i]|
  {
    hide CallAt, Carved, InitArgs, Span, Paint, IsPow2, BucketIndex;
    var h := trace[|calls|];
    if h.stacks[i] == [] {
      trace', calls' := trace, calls;
      assert h.stacks[i := []] == h.stacks;
    } else {
      var c := AllocCall(BUCKET_SIZES[i], 8);
      OffsetsFollow(i);
      PowersUsed();
      BucketServesItsSize(h, i, 8);
      RunExtends(lo, size, trace, calls, c);
      AfterStacks(h, c);
      assert After(h, c).stacks == h.stacks[i := h.stacks[i][1..]];
      trace', calls' := Drain(lo, size, trace + [After(h, c)], calls + [c], i);
    }
  }

  /** A request that its empty bucket sends to the large list, where the first region has room. */
  lemma FallsBack(h: Heap, i: nat, r: Region)
    requires |h.stacks| == BUCKET_COUNT && i < BUCKET_COUNT && h.stacks[i] == [] && |h.large| > 0 && h.large[0] == r
    requires r.End() < WORD_LIMIT && r.start % 8 == 0 && r.size >= BUCKET_SIZES[i] > 8
    ensures var n := BUCKET_SIZES[i]; var c := AllocCall(n, 8);
      && Allowed(h, c) && Alloc(h, n, 8).1 == Some(r.start) && After(h, c).stacks == h.stacks
      && After(h, c).live == h.live[r.start := n] && Span(n) == n
  {
    hide Paint, Carve, AlignUp, IsPow2;
    PowersUsed();
    BlockSizes(i);
    AlignUpIsLeast(r.start, 8);
    assert Fits(r, BUCKET_SIZES[i], 8);
    assert FirstFit(h.large, BUCKET_SIZES[i], 8) == Some(0);
  }

  lemma LargeRequest(h: Heap, r: Region, size: nat)
    requires |h.stacks| == BUCKET_COUNT && h.large == [r] && r.start % 8 == 0 && r.End() < WORD_LIMIT
    requires size > 2048 && size % NODE_SIZE == 0 && r.size >= size + NODE_SIZE
    ensures var c := AllocCall(size, 8);
      && Allowed(h, c) && After(h, c).stacks == h.stacks && After(h, c).large == [Region(r.start + size, r.size - size)]
  {
    hide Paint, AlignUp;
    PowersUsed();
    AlignUpIsLeast(r.start, 8);
    assert Rest(r, size, 8) == [Region(r.start + size, r.size - size)];
    assert FirstFit(h.large, size, 8) == Some(0);
  }

  lemma GivesBack(h: Heap, i: nat, p: nat)
    requires |h.stacks| == BUCKET_COUNT && i < BUCKET_COUNT && p in h.live && h.live[p] == BUCKET_SIZES[i]
    ensures var n, h1 := BUCKET_SIZES[i], After(h, FreeCall(p));
      && |h1.stacks| == BUCKET_COUNT && Allowed(h1, AllocCall(n, n)) && Alloc(h1, n, n).1 == Some(p)
  {
    hide Paint, IsPow2, Span;
    OffsetsFollow(i);
    var h1 := After(h, FreeCall(p));
    assert BucketIndex(BUCKET_SIZES[i]) == Some(i);
    assert h1.stacks[i] == [p] + h.stacks[i];
    BucketServesItsSize(h1, i, BUCKET_SIZES[i]);
  }

  /** From `init` on, for every block size from 32 bytes up: after one request for 2064 bytes and 257 for
      blocks, a block released and asked for again with its natural alignment comes back 16 bytes off it. */
  lemma RunMisaligns(lo: nat, size: nat, i: nat) returns (trace: seq<Heap>, calls: seq<Call>, p: nat)
    requires InitArgs(lo, size) && 2 <= i < BUCKET_COUNT && size - BUCKETS_END >= 2064 + 2048 + NODE_SIZE
    ensures IsRun(lo, size, trace, calls) && |calls| == 260
    ensures calls[0] == AllocCall(2064, 8) && forall j :: 1 <= j <= 257 ==> calls[j] == AllocCall(BUCKET_SIZES[i], 8)
    ensures calls[258] == FreeCall(p) && calls[259] == AllocCall(BUCKET_SIZES[i], BUCKET_SIZES[i])
    ensures |trace[259].stacks| == BUCKET_COUNT && Alloc(trace[259], BUCKET_SIZES[i], BUCKET_SIZES[i]).1 == Some(p)
    ensures p % BUCKET_SIZES[i] == 16
  {
    hide CallAt, After, Allowed, Alloc, Carved, InitArgs;
    var n := BUCKET_SIZES[i];
    trace, calls, p := RunOverflows(lo, size, i);
    var h := trace[258];
    SixteenOff(lo, size, i);
    GivesBack(h, i, p);
    FreeIsAllowed(h, p);
    RunExtends(lo, size, trace, calls, FreeCall(p));
    trace, calls := trace + [After(h, FreeCall(p))], calls + [FreeCall(p)];
    assert trace[259] == After(h, FreeCall(p));
    RunExtends(lo, size, trace, calls, AllocCall(n, n));
    trace, calls := trace + [After(trace[259], AllocCall(n, n))], calls + [AllocCall(n, n)];
  }

  lemma RunOverflows(lo: nat, size: nat, i: nat) returns (trace: seq<Heap>, calls: seq<Call>, p: nat)
    requires InitArgs(lo, size) && 2 <= i < BUCKET_COUNT && size - BUCKETS_END >= 2064 + 2048 + NODE_SIZE
    ensures IsRun(lo, size, trace, calls) && |calls| == 258 && p == lo + BUCKETS_END + 2064
    ensures calls[0] == AllocCall(2064, 8) && forall j :: 1 <= j <= 257 ==> calls[j] == AllocCall(BUCKET_SIZES[i], 8)
    ensures |trace[258].stacks| == BUCKET_COUNT && p in trace[258].live && trace[258].live[p] == BUCKET_SIZES[i]
  {
    hide CallAt, After, Allowed, Alloc, Carved;
    var c := AllocCall(BUCKET_SIZES[i], 8);
    var start := StartedRun(lo, size);
    trace, calls := Drain(lo, size, start, [AllocCall(2064, 8)], i);
    var h := trace[257];
    SixteenOff(lo, size, i);
    p := lo + BUCKETS_END + 2064;
    FallsBack(h, i, Region(p, size - BUCKETS_END - 2064));
    RunExtends(lo, size, trace, calls, c);
    trace, calls := trace + [After(h, c)], calls + [c];
  }

  /** `init` and the request for 2064 bytes. */
  lemma StartedRun(lo: nat, size: nat) returns (trace: seq<Heap>)
    requires InitArgs(lo, size) && size - BUCKETS_END >= 2064 + 2048 + NODE_SIZE
    ensures IsRun(lo, size, trace, [AllocCall(2064, 8)])
    ensures |trace[1].stacks| == BUCKET_COUNT
      && forall i :: 0 <= i < BUCKET_COUNT ==> |trace[1].stacks[i]| == BLOCKS_PER_BUCKET
    ensures trace[1].large == [Region(lo + BUCKETS_END + 2064, size - BUCKETS_END - 2064)]
  {
    hide After, Allowed, CarvedOwner, IsPow2;
    var h, c := Carved(lo, size), AllocCall(2064, 8);
    PowersUsed();
    BucketsEndAligned(lo, 8);
    LargeRequest(h, h.large[0], 2064);
    trace := [h, After(h, c)];
    assert CallAt(trace, [c], 0);
  }

  /** From `init` on, 256 requests for 8 bytes empty their bucket; the next one is cut from the start of the
      large region, where there is no room for the header of what is left. */
  lemma RunLeavesNoRoom(lo: nat, size: nat) returns (trace: seq<Heap>, calls: seq<Call>)
    requires InitArgs(lo, size) && size - BUCKETS_END >= 8 + NODE_SIZE
    ensures IsRun(lo, size, trace, calls) && |calls| == 256 && forall j :: 0 <= j < 256 ==> calls[j] == AllocCall(8, 8)
    ensures var h := trace[256];
      |h.stacks| == BUCKET_COUNT && ServingBucket(h, 8, 8) == None && !FitHasRoom(h.large, 8, 8)
  {
    hide CallAt, After, Allowed, Alloc, CarvedOwner, AlignUp, IsPow2;
    var h := Carved(lo, size);
    trace, calls := Drain(lo, size, [h], [], 0);
    PowersUsed();
    BucketsEndAligned(lo, 8);
    AlignUpIsLeast(lo + BUCKETS_END, 8);
    BlockSizes(0);
    assert FirstFit(h.large, 8, 8) == Some(0);
  }

  lemma SixteenOff(lo: nat, size: nat, i: nat)
    requires InitArgs(lo, size) && 2 <= i < BUCKET_COUNT
    ensures (lo + BUCKETS_END + 2064) % BUCKET_SIZES[i] == 16 && (lo + BUCKETS_END + 2064) % 8 == 0
  {
    hide IsPow2;
    var n, start := BUCKET_SIZES[i], lo + BUCKETS_END;
    PowersUsed();
    OffsetsFollow(i);
    BucketsEndAligned(lo, n);
    BucketsEndAligned(lo, 8);
    Pow2Divides(2048, 2048, n);
    MultiplesAdd(start, 2048, n);
    MultiplesAdd(start, 2064, 8);
    ModPlus(16, (start + 2048) / n, n);
  }

  lemma FreeIsAllowed(h: Heap, p: nat)
    requires |h.stacks| == BUCKET_COUNT && p in h.live
    ensures Allowed(h, FreeCall(p))
  {
  }
}
