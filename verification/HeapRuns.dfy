/** Every run of allocations and releases, from the moment the heap is carved up. */
module HeapRuns {
  import opened Basics
  import opened HeapMath
  import opened HeapModel

  // ---- init ----

  /** Where each bucket's blocks start, as an offset from the heap's start: 2048 * (2^i - 1). */
  const OFFSETS: seq<nat> := [0, 2048, 6144, 14336, 30720, 63488, 129024, 260096, 522240, 1046528]
  const BUCKETS_END: nat := 1046528

  lemma OffsetsFollow(i: nat)
    requires i < BUCKET_COUNT
    ensures OFFSETS[i + 1] == OFFSETS[i] + BLOCKS_PER_BUCKET * BUCKET_SIZES[i] <= BUCKETS_END
    ensures OFFSETS[i] % BUCKET_SIZES[i] == 0 && IsPow2(BUCKET_SIZES[i]) && 8 <= BUCKET_SIZES[i] <= 2048
    ensures forall j :: i < j <= BUCKET_COUNT ==> OFFSETS[i + 1] <= OFFSETS[j]
  {
    hide IsPow2;
    BlockSizePow2(i);
  }

  lemma BlockSizePow2(i: nat)
    requires i < BUCKET_COUNT
    ensures IsPow2(BUCKET_SIZES[i])
  {
    assert IsPow2(8) && IsPow2(16) && IsPow2(32) && IsPow2(64) && IsPow2(128) && IsPow2(256);
    assert IsPow2(512) && IsPow2(1024) && IsPow2(2048);
  }

  function CarvedStack(lo: nat, i: nat): seq<nat>
    requires i < BUCKET_COUNT
  {
    seq(BLOCKS_PER_BUCKET, k requires 0 <= k < BLOCKS_PER_BUCKET => lo + OFFSETS[i] + k * BUCKET_SIZES[i])
  }

  /** The bucket whose blocks lie at offset `d`. */
  function BucketAt(d: nat, i: nat): (j: nat)
    requires i < BUCKET_COUNT && OFFSETS[i] <= d < BUCKETS_END
    ensures i <= j < BUCKET_COUNT && OFFSETS[j] <= d < OFFSETS[j + 1]
    decreases BUCKET_COUNT - i
  {
    if d < OFFSETS[i + 1] then i else BucketAt(d, i + 1)
  }

  function BlockStart(e: nat, n: nat): nat
    requires n > 0
  {
    e / n * n
  }

  function CarvedOwner(lo: nat, size: nat, x: int): Owner
    requires lo <= x < lo + size
  {
    var d := x - lo;
    if d >= BUCKETS_END then if size - BUCKETS_END > NODE_SIZE then InLarge else Lost
    else
      var i := BucketAt(d, 0);
      InBucket(i, lo + OFFSETS[i] + BlockStart(d - OFFSETS[i], BUCKET_SIZES[i]))
  }

  /** The heap after `init`. */
  function Carved(lo: nat, size: nat): Heap
    requires size >= BUCKETS_END
  {
    Heap(lo, lo + size,
      seq(BUCKET_COUNT, i requires 0 <= i < BUCKET_COUNT => CarvedStack(lo, i)),
      if size - BUCKETS_END > NODE_SIZE then [Region(lo + BUCKETS_END, size - BUCKETS_END)] else [],
      0, map[], map x | lo <= x < lo + size :: CarvedOwner(lo, size, x))
  }

  predicate InitArgs(lo: nat, size: nat) {
    0 < lo && lo % 4096 == 0 && size % NODE_SIZE == 0 && size >= BUCKETS_END && lo + size < 0x8000_0000_0000_0000
  }

  lemma BucketAtIs(d: nat, i: nat)
    requires i < BUCKET_COUNT && OFFSETS[i] <= d < OFFSETS[i + 1] && d < BUCKETS_END
    ensures BucketAt(d, 0) == i
  {
    var j := BucketAt(d, 0);
    OffsetsFollow(i);
    OffsetsFollow(j);
  }

  lemma BlockOf(e: nat, n: nat, k: nat)
    requires k < BLOCKS_PER_BUCKET && n > 0 && k * n <= e < k * n + n
    ensures e / n == k && e < BLOCKS_PER_BUCKET * n
  {
    ModPlus(e - k * n, k, n);
    MulMono(n, k + 1, BLOCKS_PER_BUCKET);
    MulMono(n, k, k);
  }

  lemma CarvedBlock(lo: nat, size: nat, i: nat, k: nat, x: int)
    requires InitArgs(lo, size) && i < BUCKET_COUNT && k < BLOCKS_PER_BUCKET
    requires CarvedStack(lo, i)[k] <= x < CarvedStack(lo, i)[k] + BUCKET_SIZES[i]
    ensures lo <= x < lo + size && CarvedOwner(lo, size, x) == InBucket(i, CarvedStack(lo, i)[k])
  {
    hide BucketAt, IsPow2;
    var n, d := BUCKET_SIZES[i], x - lo;
    var e := d - OFFSETS[i];
    assert CarvedStack(lo, i)[k] == lo + OFFSETS[i] + k * n;
    BlockOf(e, n, k);
    OffsetsFollow(i);
    BucketAtIs(d, i);
  }

  lemma CarvedBucketsOk(lo: nat, size: nat)
    requires InitArgs(lo, size)
    ensures BucketsOk(Carved(lo, size))
  {
    var h := Carved(lo, size);
    forall i | 0 <= i < BUCKET_COUNT ensures NoRepeats(h.stacks[i]) {
      forall j, k | 0 <= j < k < BLOCKS_PER_BUCKET ensures h.stacks[i][j] != h.stacks[i][k] {
        MulMono(BUCKET_SIZES[i], j + 1, k);
        MulMono(BUCKET_SIZES[i], j, j);
      }
    }
    forall i, a | 0 <= i < BUCKET_COUNT && a in h.stacks[i] ensures Owned(h.owner, a, BUCKET_SIZES[i], InBucket(i, a)) {
      var k :| 0 <= k < BLOCKS_PER_BUCKET && h.stacks[i][k] == a;
      forall x | a <= x < a + BUCKET_SIZES[i] ensures x in h.owner && h.owner[x] == InBucket(i, a) {
        CarvedBlock(lo, size, i, k, x);
      }
    }
    forall x | x in h.owner && h.owner[x].InBucket?
      ensures var i, a := h.owner[x].i, h.owner[x].a;
        i < BUCKET_COUNT && a in h.stacks[i] && a <= x < a + BUCKET_SIZES[i]
    {
      CarvedByteInBlock(lo, size, x);
    }
  }

  lemma CarvedByteInBlock(lo: nat, size: nat, x: int)
    requires InitArgs(lo, size) && lo <= x < lo + BUCKETS_END
    ensures var o := CarvedOwner(lo, size, x);
      o.InBucket? && o.i < BUCKET_COUNT && o.a in CarvedStack(lo, o.i) && o.a <= x < o.a + BUCKET_SIZES[o.i]
  {
    var d := x - lo;
    var i := BucketAt(d, 0);
    OffsetsFollow(i);
    var n, e := BUCKET_SIZES[i], d - OFFSETS[i];
    BlockIndex(e, n);
    assert CarvedStack(lo, i)[e / n] == lo + OFFSETS[i] + e / n * n;
  }

  lemma BlockIndex(e: nat, n: nat)
    requires n > 0 && e < BLOCKS_PER_BUCKET * n
    ensures 0 <= e / n < BLOCKS_PER_BUCKET && e / n * n <= e < e / n * n + n
  {
    var k := e / n;
    assert e == n * k + e % n;
    if k >= BLOCKS_PER_BUCKET {
      MulMono(n, BLOCKS_PER_BUCKET, k);
    }
  }

  lemma CarvedLargeOk(lo: nat, size: nat)
    requires InitArgs(lo, size)
    ensures LargeOk(Carved(lo, size))
  {
    var h := Carved(lo, size);
    forall x | lo <= x < lo + size ensures CarvedOwner(lo, size, x).InLarge? <==> Covers(h.large, x) {
      if x - lo < BUCKETS_END {
        CarvedByteInBlock(lo, size, x);
      }
      if h.large != [] {
        CoversOne(h.large[0], x);
      }
    }
    MultiplesOf16(lo, BUCKETS_END);
    MultiplesOf16(size, BUCKETS_END);
  }

  lemma CarvedLiveOk(lo: nat, size: nat)
    requires InitArgs(lo, size)
    ensures LiveOk(Carved(lo, size))
  {
    forall x | lo <= x < lo + size ensures !CarvedOwner(lo, size, x).InLive? {
    }
  }

  /** `init` establishes the invariant. */
  lemma CarvedInv(lo: nat, size: nat)
    requires InitArgs(lo, size)
    ensures Inv(Carved(lo, size))
  {
    CarvedBucketsOk(lo, size);
    CarvedLargeOk(lo, size);
    CarvedLiveOk(lo, size);
  }

  // ---- Runs ----

  datatype Call = AllocCall(size: nat, align: nat) | FreeCall(p: nat)

  /** Calls a client may make: requests that are safe to serve, and releases of live blocks. */
  predicate Allowed(h: Heap, c: Call)
    requires |h.stacks| == BUCKET_COUNT
  {
    match c
    case AllocCall(size, align) => Safe(h, size, align)
    case FreeCall(p) => p in h.live
  }

  function After(h: Heap, c: Call): Heap
    requires |h.stacks| == BUCKET_COUNT && Allowed(h, c)
  {
    match c
    case AllocCall(size, align) => Alloc(h, size, align).0
    case FreeCall(p) => Free(h, p)
  }

  ghost predicate CallAt(trace: seq<Heap>, calls: seq<Call>, i: nat)
    requires |trace| == |calls| + 1 && i < |calls|
  {
    |trace[i].stacks| == BUCKET_COUNT && Allowed(trace[i], calls[i]) && trace[i + 1] == After(trace[i], calls[i])
  }

  ghost predicate IsRun(lo: nat, size: nat, trace: seq<Heap>, calls: seq<Call>) {
    && InitArgs(lo, size)
    && |trace| == |calls| + 1
    && trace[0] == Carved(lo, size)
    && forall i :: 0 <= i < |calls| ==> CallAt(trace, calls, i)
  }

  lemma CallKeepsInv(h: Heap, c: Call)
    requires Inv(h) && Allowed(h, c)
    ensures Inv(After(h, c)) && After(h, c).lo == h.lo && After(h, c).hi == h.hi
  {
    hide LiveOk, BucketsOk, LargeOk, AlignUp, FirstFit, Insert, Paint, Carve, IsPow2;
    match c
    case AllocCall(n, align) => AllocKeeps(h, n, align);
    case FreeCall(p) => FreeKeeps(h, p);
  }

  lemma {:induction false} RunKeepsInv(lo: nat, size: nat, trace: seq<Heap>, calls: seq<Call>, m: nat)
    requires IsRun(lo, size, trace, calls) && m < |trace|
    ensures Inv(trace[m]) && trace[m].lo == lo && trace[m].hi == lo + size
  {
    hide Inv, After, Allowed, CarvedStack, CarvedOwner;
    if m == 0 {
      CarvedInv(lo, size);
    } else {
      RunKeepsInv(lo, size, trace, calls, m - 1);
      assert CallAt(trace, calls, m - 1);
      CallKeepsInv(trace[m - 1], calls[m - 1]);
    }
  }

  lemma StacksCount(h: Heap)
    requires Inv(h)
    ensures |h.stacks| == BUCKET_COUNT
  {
  }

  // ---- What the invariant means for clients ----

  /** The pieces the heap is made of. */
  datatype Piece = LivePiece(p: nat) | BucketPiece(i: nat, k: nat) | LargePiece(k: nat)

  predicate Present(h: Heap, x: Piece)
    requires |h.stacks| == BUCKET_COUNT
  {
    match x
    case LivePiece(p) => p in h.live
    case BucketPiece(i, k) => i < BUCKET_COUNT && k < |h.stacks[i]|
    case LargePiece(k) => k < |h.large|
  }

  function Extent(h: Heap, x: Piece): Region
    requires |h.stacks| == BUCKET_COUNT && Present(h, x)
  {
    match x
    case LivePiece(p) => Region(p, Span(h.live[p]))
    case BucketPiece(i, k) => Region(h.stacks[i][k], BUCKET_SIZES[i])
    case LargePiece(k) => h.large[k]
  }

  function Header(x: Piece): nat {
    match x
    case LivePiece(_) => 0
    case BucketPiece(_, _) => 8
    case LargePiece(_) => NODE_SIZE
  }

  ghost predicate Disjoint(a: Region, b: Region) {
    a.End() <= b.start || b.End() <= a.start
  }

  /** Who owns the first byte of a piece. */
  lemma PieceOwner(h: Heap, x: Piece, y: int)
    requires Inv(h) && Present(h, x) && Extent(h, x).start <= y < Extent(h, x).End()
    ensures y in h.owner && h.owner[y] ==
      match x
      case LivePiece(p) => InLive(p)
      case BucketPiece(i, k) => InBucket(i, h.stacks[i][k])
      case LargePiece(_) => InLarge
  {
    match x
    case LivePiece(p) => assert Owned(h.owner, p, Span(h.live[p]), InLive(p));
    case BucketPiece(i, k) =>
      assert h.stacks[i][k] in h.stacks[i];
      assert Owned(h.owner, h.stacks[i][k], BUCKET_SIZES[i], InBucket(i, h.stacks[i][k]));
    case LargePiece(k) => assert Covers(h.large, y);
  }

  /** Two different pieces never share a byte. */
  lemma PiecesDisjoint(h: Heap, a: Piece, b: Piece)
    requires Inv(h) && Present(h, a) && Present(h, b) && a != b
    ensures Disjoint(Extent(h, a), Extent(h, b))
  {
    var ra, rb := Extent(h, a), Extent(h, b);
    if !Disjoint(ra, rb) {
      var y := Max(ra.start, rb.start);
      PieceSize(h, a);
      PieceSize(h, b);
      PieceOwner(h, a, y);
      PieceOwner(h, b, y);
    }
  }

  lemma PieceSize(h: Heap, x: Piece)
    requires Inv(h) && Present(h, x)
    ensures var r := Extent(h, x); h.lo <= r.start && r.End() <= h.hi && Header(x) <= r.size && 0 < r.size
  {
    var r := Extent(h, x);
    PieceOwner(h, x, r.start);
    PieceOwner(h, x, r.End() - 1);
  }

  /** In every run, however buckets run dry, overflow to the large list and get those blocks back:
      live blocks, bucket blocks and large regions lie inside the heap, no two share a byte, every
      free-list header lies inside its own block or region, the large list is in address order with
      a gap between any two regions, and `used` is the number of bytes owned by live blocks. */
  lemma HeapIsSeparated(lo: nat, size: nat, trace: seq<Heap>, calls: seq<Call>, m: nat)
    requires IsRun(lo, size, trace, calls) && m < |trace|
    ensures |trace[m].stacks| == BUCKET_COUNT
    ensures forall a, b :: Present(trace[m], a) && Present(trace[m], b) && a != b ==>
      Disjoint(Extent(trace[m], a), Extent(trace[m], b))
    ensures forall a :: Present(trace[m], a) ==>
      var r := Extent(trace[m], a); lo <= r.start && r.End() <= lo + size && Header(a) <= r.size
    ensures Coalesced(trace[m].large) && trace[m].used == Total(trace[m].live)
  {
    RunKeepsInv(lo, size, trace, calls, m);
    var h := trace[m];
    forall a, b | Present(h, a) && Present(h, b) && a != b ensures Disjoint(Extent(h, a), Extent(h, b)) {
      PiecesDisjoint(h, a, b);
    }
    forall a | Present(h, a)
      ensures var r := Extent(h, a); lo <= r.start && r.End() <= lo + size && Header(a) <= r.size
    {
      PieceSize(h, a);
    }
  }

  /** Every byte of the heap lies in a piece, or was dropped; by `HeapIsSeparated`, in only one. */
  lemma EveryByteAccounted(lo: nat, size: nat, trace: seq<Heap>, calls: seq<Call>, m: nat, y: int)
    requires IsRun(lo, size, trace, calls) && m < |trace| && lo <= y < lo + size
    ensures |trace[m].stacks| == BUCKET_COUNT && y in trace[m].owner
    ensures trace[m].owner[y].Lost? <==>
      !exists a :: Present(trace[m], a) && Extent(trace[m], a).start <= y < Extent(trace[m], a).End()
  {
    RunKeepsInv(lo, size, trace, calls, m);
    var h := trace[m];
    match h.owner[y]
    case InLarge =>
      var k :| 0 <= k < |h.large| && h.large[k].start <= y < h.large[k].End();
      assert Present(h, LargePiece(k)) && Extent(h, LargePiece(k)) == h.large[k];
    case InBucket(i, a) =>
      var k :| 0 <= k < |h.stacks[i]| && h.stacks[i][k] == a;
      assert Present(h, BucketPiece(i, k)) && Extent(h, BucketPiece(i, k)).start == a;
    case InLive(p) =>
      assert Present(h, LivePiece(p)) && Extent(h, LivePiece(p)).start == p;
    case Lost =>
      forall a | Present(h, a) && Extent(h, a).start <= y < Extent(h, a).End() ensures false {
        PieceOwner(h, a, y);
      }
  }

  // ---- First fit ----

  lemma RoundingIsMonotone(a: nat, b: nat, align: nat)
    requires a <= b && align > 0
    ensures AlignUp(a, align) <= AlignUp(b, align)
  {
    AlignUpIsLeast(a, align);
    AlignUpIsLeast(b, align);
  }

  /** `alloc_large` fails only when no region fits: the word-overflow exit loses nothing. */
  lemma {:induction false} FirstFitFindsAny(large: seq<Region>, size: nat, align: nat, k: nat)
    requires align > 0 && k < |large| && Fits(large[k], size, align) && large[k].End() < WORD_LIMIT
    requires forall j :: 0 <= j <= k ==> large[j].start <= large[k].start
    ensures FirstFit(large, size, align).Some?
  {
    RoundingIsMonotone(large[0].start, large[k].start, align);
    if k > 0 && !Fits(large[0], size, align) {
      FirstFitFindsAny(large[1..], size, align, k - 1);
    }
  }

  // ---- Bytes lost ----

  lemma PowersUsed()
    ensures IsPow2(8) && IsPow2(16) && IsPow2(64) && IsPow2(2048) && IsPow2(4096)
  {
    assert IsPow2(16) && IsPow2(256);
  }

  /** With alignments up to 16 nothing is dropped at all. */
  lemma NothingLost(h: Heap, size: nat, align: nat, x: int)
    requires Inv(h) && Safe(h, size, align) && align <= NODE_SIZE && x in h.owner
    ensures x in Alloc(h, size, align).0.owner && (Alloc(h, size, align).0.owner[x].Lost? ==> h.owner[x].Lost?)
  {
    hide LiveOk, BucketsOk, Covers, Coalesced, Carve, AlignUp, Span, IsPow2;
    var i := ServingBucket(h, size, align);
    var k := FirstFit(h.large, Max(size, 8), Max(align, 8));
    if i.None? && k.Some? {
      var r := h.large[k.value];
      PowersUsed();
      Pow2Divides(r.start, 16, Max(align, 8));
      AlignUpIsLeast(r.start, Max(align, 8));
      MultiplesOf16(r.size, Max(size, 8));
    }
  }

  lemma CallLosesNothing(h: Heap, c: Call, x: int)
    requires Inv(h) && Allowed(h, c) && (c.AllocCall? ==> c.align <= NODE_SIZE) && x in h.owner
    ensures x in After(h, c).owner && (After(h, c).owner[x].Lost? ==> h.owner[x].Lost?)
  {
    match c
    case AllocCall(n, align) => NothingLost(h, n, align, x);
    case FreeCall(p) =>
  }

  lemma CarvedLosesNothing(lo: nat, size: nat, x: int)
    requires InitArgs(lo, size) && lo <= x < lo + size && size - BUCKETS_END > NODE_SIZE
    ensures x in Carved(lo, size).owner && !Carved(lo, size).owner[x].Lost?
  {
  }

  lemma {:induction false} RunLosesNothing(lo: nat, size: nat, trace: seq<Heap>, calls: seq<Call>, m: nat, x: int)
    requires IsRun(lo, size, trace, calls) && m < |trace| && lo <= x < lo + size
    requires size - BUCKETS_END > NODE_SIZE
    requires forall j :: 0 <= j < |calls| && calls[j].AllocCall? ==> calls[j].align <= NODE_SIZE
    ensures x in trace[m].owner && !trace[m].owner[x].Lost?
  {
    if m == 0 {
      CarvedLosesNothing(lo, size, x);
    } else {
      RunLosesNothing(lo, size, trace, calls, m - 1, x);
      RunKeepsInv(lo, size, trace, calls, m - 1);
      assert CallAt(trace, calls, m - 1);
      CallLosesNothing(trace[m - 1], calls[m - 1], x);
    }
  }

  // ---- Alignment ----

  /** Bucket blocks, and live blocks on their way back to a bucket, sit on multiples of their size. */
  ghost predicate Natural(h: Heap)
    requires |h.stacks| == BUCKET_COUNT
  {
    && (forall i, a :: 0 <= i < BUCKET_COUNT && a in h.stacks[i] ==> a % BUCKET_SIZES[i] == 0)
    && forall p :: p in h.live && h.live[p] <= 2048 ==> p % Span(h.live[p]) == 0
  }

  /** A small request that reaches the large list is given a multiple of its bucket's size. */
  predicate NaturalCall(h: Heap, c: Call)
    requires |h.stacks| == BUCKET_COUNT
  {
    c.AllocCall? && c.size <= 2048 && ServingBucket(h, c.size, c.align).None? ==>
      var k := FirstFit(h.large, Max(c.size, 8), Max(c.align, 8));
      k.Some? ==> AlignUp(h.large[k.value].start, Max(c.align, 8)) % Span(c.size) == 0
  }

  lemma CarvedNatural(lo: nat, size: nat)
    requires InitArgs(lo, size)
    ensures Natural(Carved(lo, size))
  {
    hide CarvedOwner;
    var h := Carved(lo, size);
    forall i, a | 0 <= i < BUCKET_COUNT && a in h.stacks[i] ensures a % BUCKET_SIZES[i] == 0 {
      var n := BUCKET_SIZES[i];
      var k :| 0 <= k < BLOCKS_PER_BUCKET && h.stacks[i][k] == a;
      CarvedBlockNatural(lo, i, k);
    }
  }

  lemma CarvedBlockNatural(lo: nat, i: nat, k: nat)
    requires lo % 4096 == 0 && i < BUCKET_COUNT && k < BLOCKS_PER_BUCKET
    ensures (lo + OFFSETS[i] + k * BUCKET_SIZES[i]) % BUCKET_SIZES[i] == 0
  {
    hide IsPow2;
    var n := BUCKET_SIZES[i];
    OffsetsFollow(i);
    PowersUsed();
    Pow2Divides(lo, 4096, n);
    MultiplesAdd(lo, OFFSETS[i], n);
    MultipleMod(k, n);
    MultiplesAdd(lo + OFFSETS[i], k * n, n);
  }

  lemma SpanIsPow2(size: nat)
    requires size <= 2048
    ensures IsPow2(Span(size)) && Span(size) >= 8
    ensures BucketIndex(Max(size, 8)).Some? && BUCKET_SIZES[BucketIndex(Max(size, 8)).value] == Span(size)
  {
    OffsetsFollow(BucketIndex(Max(size, 8)).value);
  }

  /** From a natural heap every pointer handed out is a multiple of the alignment asked for. */
  lemma AllocIsAligned(h: Heap, size: nat, align: nat)
    requires Inv(h) && Natural(h) && Safe(h, size, align)
    ensures Alloc(h, size, align).1.Some? ==> Alloc(h, size, align).1.value % align == 0
  {
    var i, a := ServingBucket(h, size, align), Max(align, 8);
    var k := FirstFit(h.large, Max(size, 8), a);
    assert IsPow2(8);
    if i.Some? {
      SpanIsPow2(size);
      assert h.stacks[i.value][0] in h.stacks[i.value];
      Pow2Divides(h.stacks[i.value][0], Span(size), align);
    } else if k.Some? {
      AlignUpIsLeast(h.large[k.value].start, a);
      Pow2Divides(AlignUp(h.large[k.value].start, a), a, align);
    }
  }

  lemma BucketKeepsNatural(h: Heap, i: nat, size: nat, align: nat)
    requires |h.stacks| == BUCKET_COUNT && Natural(h) && ServingBucket(h, size, align) == Some(i)
    ensures Natural(TakeFromBucket(h, i, size))
  {
    var h' := TakeFromBucket(h, i, size);
    assert h.stacks[i][0] in h.stacks[i];
    forall j, a | 0 <= j < BUCKET_COUNT && a in h'.stacks[j] ensures a % BUCKET_SIZES[j] == 0 {
      assert a in h.stacks[j];
    }
  }

  lemma LargeKeepsNatural(h: Heap, k: nat, size: nat, align: nat)
    requires |h.stacks| == BUCKET_COUNT && Natural(h)
    requires align > 0 && k < |h.large| && Fits(h.large[k], Max(size, 8), align)
    ensures Natural(TakeFromLarge(h, k, size, align)) <==>
      (size <= 2048 ==> AlignUp(h.large[k].start, align) % Span(size) == 0)
  {
    hide AlignUp, Paint, Carve, Span;
    var h', p := TakeFromLarge(h, k, size, align), AlignUp(h.large[k].start, align);
    assert h'.stacks == h.stacks && h'.live == h.live[p := size];
    assert p in h'.live;
  }

  lemma FreeKeepsNatural(h: Heap, p: nat)
    requires Inv(h) && Natural(h) && p in h.live
    ensures Natural(Free(h, p))
  {
    hide LiveOk, LargeOk, IsPow2, Insert;
    if h.live[p] <= 2048 {
      SpanIsPow2(h.live[p]);
    }
  }

  /** A call keeps the heap natural exactly when it does not place a small block off its size. */
  lemma NaturalExactly(h: Heap, c: Call)
    requires Inv(h) && Natural(h) && Allowed(h, c)
    ensures |After(h, c).stacks| == BUCKET_COUNT && (Natural(After(h, c)) <==> NaturalCall(h, c))
  {
    hide AlignUp, LiveOk, LargeOk, BucketsOk, Insert, Carve;
    match c
    case AllocCall(n, align) =>
      var i, k := ServingBucket(h, n, align), FirstFit(h.large, Max(n, 8), Max(align, 8));
      if i.Some? {
        BucketKeepsNatural(h, i.value, n, align);
      } else if k.Some? {
        LargeKeepsNatural(h, k.value, n, Max(align, 8));
      }
    case FreeCall(p) => FreeKeepsNatural(h, p);
  }

  /** A small request that asks for its natural alignment itself is such a call. */
  lemma NaturalAlignmentSuffices(h: Heap, size: nat, align: nat)
    requires |h.stacks| == BUCKET_COUNT && Safe(h, size, align) && (size <= 2048 ==> align >= Span(size))
    ensures NaturalCall(h, AllocCall(size, align))
  {
    var a := Max(align, 8);
    var k := FirstFit(h.large, Max(size, 8), a);
    if size <= 2048 && k.Some? {
      SpanIsPow2(size);
      AlignUpIsLeast(h.large[k.value].start, a);
      Pow2Divides(AlignUp(h.large[k.value].start, a), a, Span(size));
    }
  }

  ghost predicate NaturalAt(trace: seq<Heap>, calls: seq<Call>, i: nat)
    requires |trace| == |calls| + 1 && i < |calls|
  {
    |trace[i].stacks| == BUCKET_COUNT && NaturalCall(trace[i], calls[i])
  }

  lemma {:induction false} RunIsNatural(lo: nat, size: nat, trace: seq<Heap>, calls: seq<Call>, m: nat)
    requires IsRun(lo, size, trace, calls) && m < |trace|
    requires forall j :: 0 <= j < m ==> NaturalAt(trace, calls, j)
    ensures |trace[m].stacks| == BUCKET_COUNT && Natural(trace[m])
  {
    if m == 0 {
      CarvedNatural(lo, size);
    } else {
      RunIsNatural(lo, size, trace, calls, m - 1);
      RunKeepsInv(lo, size, trace, calls, m - 1);
      assert CallAt(trace, calls, m - 1) && NaturalAt(trace, calls, m - 1);
      NaturalExactly(trace[m - 1], calls[m - 1]);
    }
  }

  /** In every run in which no earlier call placed a small block off its size, every pointer returned is
      a multiple of the alignment requested. */
  lemma RunIsAligned(lo: nat, size: nat, trace: seq<Heap>, calls: seq<Call>, m: nat)
    requires IsRun(lo, size, trace, calls) && m < |calls| && calls[m].AllocCall?
    requires forall j :: 0 <= j < m ==> NaturalAt(trace, calls, j)
    ensures |trace[m].stacks| == BUCKET_COUNT
    ensures var r := Alloc(trace[m], calls[m].size, calls[m].align).1;
      r.Some? ==> calls[m].align > 0 && r.value % calls[m].align == 0
  {
    RunIsNatural(lo, size, trace, calls, m);
    RunKeepsInv(lo, size, trace, calls, m);
    assert CallAt(trace, calls, m);
    AllocIsAligned(trace[m], calls[m].size, calls[m].align);
  }
}
