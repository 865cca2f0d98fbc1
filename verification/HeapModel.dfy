/** The heap as the allocator's contract sees it: free blocks, free regions, live blocks, and the
    owner of every byte. */
module HeapModel {
  import opened Basics
  import opened HeapMath

  const BUCKET_SIZES: seq<nat> := [8, 16, 32, 64, 128, 256, 512, 1024, 2048]
  const BUCKET_COUNT: nat := 9
  const BLOCKS_PER_BUCKET: nat := 256

  /** The size of a free region's header; smaller left-overs are dropped. */
  const NODE_SIZE: nat := 16

  datatype Region = Region(start: nat, size: nat) {
    function End(): nat { start + size }
  }

  datatype Owner = InLarge | InBucket(i: nat, a: nat) | InLive(p: nat) | Lost

  /** `stacks[i]` is bucket `i`'s free list, first block first; `live` maps each block handed out to
      the size requested. `owner` says whose each heap byte is. */
  datatype Heap = Heap(
    lo: nat, hi: nat,
    stacks: seq<seq<nat>>, large: seq<Region>, used: nat,
    live: map<nat, nat>, owner: map<int, Owner>)

  // ---- Requests ----

  function BucketIndexFrom(size: nat, i: nat): (r: Option<nat>)
    requires i <= BUCKET_COUNT
    ensures r.Some? ==> i <= r.value < BUCKET_COUNT && size <= BUCKET_SIZES[r.value]
    ensures r.Some? ==> forall j :: i <= j < r.value ==> BUCKET_SIZES[j] < size
    ensures r.None? ==> forall j :: i <= j < BUCKET_COUNT ==> BUCKET_SIZES[j] < size
    decreases BUCKET_COUNT - i
  {
    if i == BUCKET_COUNT then None
    else if size <= BUCKET_SIZES[i] then Some(i)
    else BucketIndexFrom(size, i + 1)
  }

  function BucketIndex(size: nat): (r: Option<nat>)
    ensures r.Some? ==> r.value < BUCKET_COUNT && size <= BUCKET_SIZES[r.value]
    ensures r.Some? <==> size <= 2048
  {
    BucketIndexFrom(size, 0)
  }

  function Max(a: nat, b: nat): nat {
    if a >= b then a else b
  }

  /** The bytes a request for `size` bytes should own: a whole bucket block when it is small. */
  function Span(size: nat): (n: nat)
    ensures n >= size && n > 0
  {
    var s := Max(size, 8);
    var i := BucketIndex(s);
    if i.Some? then BUCKET_SIZES[i.value] else s
  }

  // ---- The large free list ----

  predicate Fits(r: Region, size: nat, align: nat)
    requires align > 0
  {
    AlignUp(r.start, align) + size <= r.End()
  }

  /** The first region that fits; None as well when an end address overflows a word on the way. */
  function FirstFit(large: seq<Region>, size: nat, align: nat): (k: Option<nat>)
    requires align > 0
    ensures k.Some? ==> k.value < |large| && Fits(large[k.value], size, align)
    ensures k.Some? ==> forall j :: 0 <= j < k.value ==> !Fits(large[j], size, align)
  {
    hide AlignUp;
    if large == [] || AlignUp(large[0].start, align) + size >= WORD_LIMIT then None
    else if Fits(large[0], size, align) then Some(0)
    else
      var k := FirstFit(large[1..], size, align);
      if k.None? then None else Some(k.value + 1)
  }

  /** What is left of a region after the bytes from `start` to `end` are cut out of it: too small a
      tail drops the whole region. */
  function Remainder(r: Region, start: nat, end: nat): seq<Region>
    requires r.start <= start <= end <= r.End()
  {
    if r.End() - end < NODE_SIZE then []
    else if start == r.start then [Region(end, r.End() - end)]
    else [Region(r.start, start - r.start), Region(end, r.End() - end)]
  }

  function Rest(r: Region, size: nat, align: nat): seq<Region>
    requires align > 0 && Fits(r, size, align)
  {
    AlignUpIsLeast(r.start, align);
    Remainder(r, AlignUp(r.start, align), AlignUp(r.start, align) + size)
  }

  /** A block inside a region: the header of what is left behind it does not lie on the region's own. */
  predicate Room(r: Region, start: nat, end: nat) {
    && r.start <= start <= end <= r.End()
    && (r.End() - end >= NODE_SIZE ==> r.start + NODE_SIZE <= if start == r.start then end else start)
  }

  predicate FitHasRoom(large: seq<Region>, size: nat, align: nat)
    requires align > 0
  {
    var k := FirstFit(large, size, align);
    k.Some? ==>
      var start := AlignUp(large[k.value].start, align);
      Room(large[k.value], start, start + size)
  }

  function Carve(large: seq<Region>, k: nat, size: nat, align: nat): seq<Region>
    requires align > 0 && k < |large| && Fits(large[k], size, align)
  {
    large[..k] + Rest(large[k], size, align) + large[k + 1..]
  }

  /** How many regions start below `addr`. */
  function Position(large: seq<Region>, addr: nat): (n: nat)
    ensures n <= |large|
    ensures forall j :: 0 <= j < n ==> large[j].start < addr
    ensures n < |large| ==> addr <= large[n].start
  {
    if large == [] || addr <= large[0].start then 0 else 1 + Position(large[1..], addr)
  }

  predicate JoinsPrev(large: seq<Region>, n: nat, addr: nat)
    requires n <= |large|
  {
    n > 0 && large[n - 1].End() == addr
  }

  predicate JoinsNext(large: seq<Region>, n: nat, end: nat)
    requires n <= |large|
  {
    n < |large| && end == large[n].start
  }

  /** The stretch of the list that a freed interval at position `n` is merged with. */
  function First(large: seq<Region>, n: nat, addr: nat): (first: nat)
    requires n <= |large|
    ensures first <= n
  {
    if JoinsPrev(large, n, addr) then n - 1 else n
  }

  function Last(large: seq<Region>, n: nat, end: nat): (last: nat)
    requires n <= |large|
    ensures n <= last <= |large|
  {
    if JoinsNext(large, n, end) then n + 1 else n
  }

  function Joined(large: seq<Region>, n: nat, addr: nat, size: nat): Region
    requires n <= |large|
  {
    var before := if JoinsPrev(large, n, addr) then large[n - 1].size else 0;
    var after := if JoinsNext(large, n, addr + size) then large[n].size else 0;
    Region(addr - before, before + size + after)
  }

  /** Put a freed interval back in address order, joined with whichever neighbours it touches. Freeing
      the start of a region that is already free only rewrites that region's size. */
  function Insert(large: seq<Region>, addr: nat, size: nat): seq<Region> {
    var n := Position(large, addr);
    if n < |large| && large[n].start == addr then large[n := Region(addr, size)]
    else large[..First(large, n, addr)] + [Joined(large, n, addr, size)] + large[Last(large, n, addr + size)..]
  }

  // ---- Allocation and release ----

  function Paint(owner: map<int, Owner>, a: int, n: nat, o: Owner): map<int, Owner> {
    map x | x in owner :: if a <= x < a + n then o else owner[x]
  }

  /** The bucket that serves a request, when one does. */
  function ServingBucket(h: Heap, size: nat, align: nat): (r: Option<nat>)
    requires |h.stacks| == BUCKET_COUNT
    ensures r.Some? ==>
      r.value < BUCKET_COUNT && h.stacks[r.value] != [] && BUCKET_SIZES[r.value] == Span(size) >= align
  {
    var i := BucketIndex(Max(size, 8));
    if i.Some? && BUCKET_SIZES[i.value] >= Max(align, 8) && h.stacks[i.value] != [] then i else None
  }

  function TakeFromBucket(h: Heap, i: nat, size: nat): Heap
    requires |h.stacks| == BUCKET_COUNT && i < BUCKET_COUNT && h.stacks[i] != []
  {
    var p := h.stacks[i][0];
    h.(stacks := h.stacks[i := h.stacks[i][1..]], used := h.used + BUCKET_SIZES[i],
       live := h.live[p := size], owner := Paint(h.owner, p, BUCKET_SIZES[i], InLive(p)))
  }

  function TakeFromLarge(h: Heap, k: nat, size: nat, align: nat): Heap
    requires align > 0 && k < |h.large| && Fits(h.large[k], Max(size, 8), align)
  {
    var s, r := Max(size, 8), h.large[k];
    var p := AlignUp(r.start, align);
    var dropped := if Rest(r, s, align) == [] then Paint(h.owner, r.start, r.size, Lost) else h.owner;
    h.(large := Carve(h.large, k, s, align), used := h.used + s,
       live := h.live[p := size], owner := Paint(dropped, p, s, InLive(p)))
  }

  function Alloc(h: Heap, size: nat, align: nat): (Heap, Option<nat>)
    requires |h.stacks| == BUCKET_COUNT
  {
    var i := ServingBucket(h, size, align);
    if i.Some? then (TakeFromBucket(h, i.value, size), Some(h.stacks[i.value][0]))
    else
      var k := FirstFit(h.large, Max(size, 8), Max(align, 8));
      if k.None? then (h, None)
      else (TakeFromLarge(h, k.value, size, Max(align, 8)), Some(AlignUp(h.large[k.value].start, Max(align, 8))))
  }

  function SaturatingSub(a: nat, b: nat): nat {
    if a >= b then a - b else 0
  }

  /** Release of a block with the size it was requested with. */
  function Free(h: Heap, p: nat): Heap
    requires |h.stacks| == BUCKET_COUNT && p in h.live
  {
    var s := Max(h.live[p], 8);
    var gone := h.(live := h.live - {p});
    match BucketIndex(s)
    case Some(i) =>
      gone.(stacks := h.stacks[i := [p] + h.stacks[i]], used := SaturatingSub(h.used, BUCKET_SIZES[i]),
            owner := Paint(h.owner, p, BUCKET_SIZES[i], InBucket(i, p)))
    case None =>
      if p < h.lo || p + s > h.hi then gone
      else gone.(large := Insert(h.large, p, s), used := SaturatingSub(h.used, s),
        owner := Paint(h.owner, p, s, InLarge))
  }

  // ---- The invariant ----

  ghost predicate Covers(large: seq<Region>, x: int) {
    exists k :: 0 <= k < |large| && large[k].start <= x < large[k].End()
  }

  /** Address order, and a gap between any two regions: neighbours are always merged. */
  ghost predicate Coalesced(large: seq<Region>) {
    forall j, k :: 0 <= j < k < |large| ==> large[j].End() < large[k].start
  }

  /** A region whose 16-byte header is aligned and lies inside it. */
  predicate Sound(r: Region) {
    r.start % NODE_SIZE == 0 && r.size % NODE_SIZE == 0 && r.size >= NODE_SIZE
  }

  ghost predicate Owned(owner: map<int, Owner>, a: int, n: nat, o: Owner) {
    forall x :: a <= x < a + n ==> x in owner && owner[x] == o
  }

  ghost predicate HeapOk(h: Heap) {
    && 0 < h.lo <= h.hi < 0x8000_0000_0000_0000
    && |h.stacks| == BUCKET_COUNT
    && forall x :: x in h.owner <==> h.lo <= x < h.hi
  }

  ghost predicate LargeOk(h: Heap) {
    && Coalesced(h.large)
    && (forall k :: 0 <= k < |h.large| ==> Sound(h.large[k]) && h.lo <= h.large[k].start && h.large[k].End() <= h.hi)
    && forall x :: x in h.owner ==> (h.owner[x].InLarge? <==> Covers(h.large, x))
  }

  ghost predicate NoRepeats(s: seq<nat>) {
    forall j, k :: 0 <= j < k < |s| ==> s[j] != s[k]
  }

  ghost predicate BucketsOk(h: Heap)
    requires |h.stacks| == BUCKET_COUNT
  {
    && (forall i :: 0 <= i < BUCKET_COUNT ==> NoRepeats(h.stacks[i]))
    && (forall i, a :: 0 <= i < BUCKET_COUNT && a in h.stacks[i] ==> Owned(h.owner, a, BUCKET_SIZES[i], InBucket(i, a)))
    && forall x :: x in h.owner && h.owner[x].InBucket? ==>
      var i, a := h.owner[x].i, h.owner[x].a; i < BUCKET_COUNT && a in h.stacks[i] && a <= x < a + BUCKET_SIZES[i]
  }

  ghost predicate LiveOk(h: Heap) {
    && (forall p :: p in h.live ==> Owned(h.owner, p, Span(h.live[p]), InLive(p)))
    && (forall p :: p in h.live && h.live[p] > 2048 ==> Sound(Region(p, h.live[p])))
    && forall x :: x in h.owner && h.owner[x].InLive? ==>
      var p := h.owner[x].p; p in h.live && p <= x < p + Span(h.live[p])
  }

  /** Bytes owned by live blocks. */
  ghost function Total(live: map<nat, nat>): nat
    decreases |live|
  {
    if live == map[] then 0 else var p :| p in live; Span(live[p]) + Total(live - {p})
  }

  ghost predicate Inv(h: Heap) {
    HeapOk(h) && LargeOk(h) && BucketsOk(h) && LiveOk(h) && h.used == Total(h.live)
  }

  /** A request the allocator can serve and later take back: a bucket serves it, or it is as long as
      the block its size stands for and a multiple of 16. */
  predicate Safe(h: Heap, size: nat, align: nat)
    requires |h.stacks| == BUCKET_COUNT
  {
    && IsPow2(align)
    && (ServingBucket(h, size, align).Some? || (Max(size, 8) == Span(size) && Max(size, 8) % NODE_SIZE == 0))
  }

  // ---- Live bytes ----

  lemma {:induction false} TotalSplit(live: map<nat, nat>, p: nat)
    requires p in live
    ensures Total(live) == Span(live[p]) + Total(live - {p})
    decreases |live|
  {
    var q :| q in live && Total(live) == Span(live[q]) + Total(live - {q});
    if q != p {
      TotalSplit(live - {q}, p);
      TotalSplit(live - {p}, q);
      assert live - {q} - {p} == live - {p} - {q};
    }
  }

  lemma TotalAdds(live: map<nat, nat>, p: nat, size: nat)
    requires p !in live
    ensures Total(live[p := size]) == Total(live) + Span(size)
  {
    TotalSplit(live[p := size], p);
    assert live[p := size] - {p} == live;
  }

  // ---- Buckets keep the invariant ----

  /** Handing over bytes of a single owner disturbs no one else. */
  lemma PaintOwned(owner: map<int, Owner>, a: int, n: nat, o: Owner, a': int, n': nat, o': Owner, was: Owner)
    requires Owned(owner, a, n, was) && Owned(owner, a', n', o') && was != o'
    ensures Owned(Paint(owner, a, n, o), a', n', o')
  {
  }

  lemma TakeFromBucketKeeps(h: Heap, i: nat, size: nat)
    requires Inv(h) && i < BUCKET_COUNT && h.stacks[i] != [] && Span(size) == BUCKET_SIZES[i] && size <= 2048
    ensures Inv(TakeFromBucket(h, i, size))
  {
    var p, n := h.stacks[i][0], BUCKET_SIZES[i];
    assert p in h.stacks[i];
    assert Owned(h.owner, p, n, InBucket(i, p));
    assert p in h.owner && h.owner[p] == InBucket(i, p);
    TotalAdds(h.live, p, size);
    TakenBucketsOk(h, i, size);
    TakenLiveOk(h, p, size, InBucket(i, p));
  }

  lemma TakenLiveOk(h: Heap, p: nat, size: nat, was: Owner)
    requires LiveOk(h) && Owned(h.owner, p, Span(size), was) && !was.InLive?
    requires size > 2048 ==> Sound(Region(p, size))
    ensures LiveOk(h.(live := h.live[p := size], owner := Paint(h.owner, p, Span(size), InLive(p))))
  {
    hide Sound, Span;
    assert p in h.owner && h.owner[p] == was;
    forall q | q in h.live ensures Owned(Paint(h.owner, p, Span(size), InLive(p)), q, Span(h.live[q]), InLive(q)) {
      PaintOwned(h.owner, p, Span(size), InLive(p), q, Span(h.live[q]), InLive(q), was);
    }
  }

  lemma TakenBucketsOk(h: Heap, i: nat, size: nat)
    requires HeapOk(h) && BucketsOk(h) && i < BUCKET_COUNT && h.stacks[i] != []
    ensures BucketsOk(TakeFromBucket(h, i, size))
  {
    var h' := TakeFromBucket(h, i, size);
    var p, n := h.stacks[i][0], BUCKET_SIZES[i];
    assert p in h.stacks[i];
    forall j, a | 0 <= j < BUCKET_COUNT && a in h'.stacks[j]
      ensures Owned(h'.owner, a, BUCKET_SIZES[j], InBucket(j, a))
    {
      assert a in h.stacks[j];
      if j == i {
        var k :| 0 <= k < |h'.stacks[i]| && h'.stacks[i][k] == a;
        assert h.stacks[i][0] != h.stacks[i][k + 1];
      }
      PaintOwned(h.owner, p, n, InLive(p), a, BUCKET_SIZES[j], InBucket(j, a), InBucket(i, p));
    }
    forall x | x in h'.owner && h'.owner[x].InBucket?
      ensures var j, a := h'.owner[x].i, h'.owner[x].a;
        j < BUCKET_COUNT && a in h'.stacks[j] && a <= x < a + BUCKET_SIZES[j]
    {
      var j, a := h.owner[x].i, h.owner[x].a;
      assert a in h.stacks[j] && a <= x < a + BUCKET_SIZES[j];
      if j == i {
        assert a != p;
        var k :| 0 <= k < |h.stacks[i]| && h.stacks[i][k] == a;
        assert h'.stacks[i][k - 1] == a;
      }
    }
  }

  lemma FreedBucketsOk(h: Heap, i: nat, p: nat)
    requires HeapOk(h) && BucketsOk(h) && i < BUCKET_COUNT && Owned(h.owner, p, BUCKET_SIZES[i], InLive(p))
    ensures BucketsOk(h.(stacks := h.stacks[i := [p] + h.stacks[i]],
      owner := Paint(h.owner, p, BUCKET_SIZES[i], InBucket(i, p))))
  {
    var n := BUCKET_SIZES[i];
    var h' := h.(stacks := h.stacks[i := [p] + h.stacks[i]], owner := Paint(h.owner, p, n, InBucket(i, p)));
    assert p in h.owner && h.owner[p] == InLive(p);
    assert forall j :: 0 <= j < BUCKET_COUNT ==> p !in h.stacks[j];
    forall j, a | 0 <= j < BUCKET_COUNT && a in h'.stacks[j]
      ensures Owned(h'.owner, a, BUCKET_SIZES[j], InBucket(j, a))
    {
      if a in h.stacks[j] {
        PaintOwned(h.owner, p, n, InBucket(i, p), a, BUCKET_SIZES[j], InBucket(j, a), InLive(p));
      }
    }
    assert h'.stacks[i][0] == p;
    forall x | x in h'.owner && h'.owner[x].InBucket?
      ensures var j, a := h'.owner[x].i, h'.owner[x].a;
        j < BUCKET_COUNT && a in h'.stacks[j] && a <= x < a + BUCKET_SIZES[j]
    {
      if !(p <= x < p + n) {
        var j, a := h.owner[x].i, h.owner[x].a;
        assert a in h.stacks[j];
        assert a in h'.stacks[j];
      }
    }
  }

  lemma FreeToBucketKeeps(h: Heap, p: nat)
    requires Inv(h) && p in h.live && h.live[p] <= 2048
    ensures Inv(Free(h, p)) && Free(h, p).used == h.used - Span(h.live[p])
  {
    var i := BucketIndex(Max(h.live[p], 8)).value;
    assert Owned(h.owner, p, BUCKET_SIZES[i], InLive(p));
    TotalSplit(h.live, p);
    FreedBucketsOk(h, i, p);
    FreedLiveOk(h, p, BUCKET_SIZES[i], InBucket(i, p));
  }

  /** Giving a live block's bytes to anyone else leaves the other live blocks alone. */
  lemma FreedLiveOk(h: Heap, p: nat, n: nat, o: Owner)
    requires LiveOk(h) && p in h.live && n == Span(h.live[p]) && !o.InLive?
    ensures LiveOk(h.(live := h.live - {p}, owner := Paint(h.owner, p, n, o)))
  {
    forall q | q in h.live - {p} ensures Owned(Paint(h.owner, p, n, o), q, Span(h.live[q]), InLive(q)) {
      PaintOwned(h.owner, p, n, o, q, Span(h.live[q]), InLive(q), InLive(p));
    }
  }

  // ---- The large list: which bytes, in which order ----

  lemma CoversConcat(a: seq<Region>, b: seq<Region>, x: int)
    ensures Covers(a + b, x) <==> Covers(a, x) || Covers(b, x)
  {
    if Covers(a, x) {
      var k :| 0 <= k < |a| && a[k].start <= x < a[k].End();
      assert (a + b)[k] == a[k];
    }
    if Covers(b, x) {
      var k :| 0 <= k < |b| && b[k].start <= x < b[k].End();
      assert (a + b)[|a| + k] == b[k];
    }
  }

  lemma CoversOne(r: Region, x: int)
    ensures Covers([r], x) <==> r.start <= x < r.End()
  {
    if r.start <= x < r.End() {
      assert [r][0] == r;
    }
  }

  lemma CoalescedConcat(a: seq<Region>, b: seq<Region>)
    requires Coalesced(a) && Coalesced(b)
    requires forall j, k :: 0 <= j < |a| && 0 <= k < |b| ==> a[j].End() < b[k].start
    ensures Coalesced(a + b)
  {
  }

  /** Splitting a list around a stretch of it splits the bytes it covers. */
  lemma CoversAround(large: seq<Region>, first: nat, last: nat, mid: seq<Region>, x: int)
    requires first <= last <= |large|
    ensures Covers(large[..first] + mid + large[last..], x) <==>
      Covers(large[..first], x) || Covers(mid, x) || Covers(large[last..], x)
  {
    CoversConcat(large[..first] + mid, large[last..], x);
    CoversConcat(large[..first], mid, x);
  }

  /** In a coalesced list a byte of one stretch is in no other. */
  lemma CoversOnce(large: seq<Region>, first: nat, last: nat, x: int)
    requires first <= last <= |large| && Coalesced(large) && Covers(large[first..last], x)
    ensures !Covers(large[..first], x) && !Covers(large[last..], x)
  {
    var k :| 0 <= k < last - first && large[first..last][k].start <= x < large[first..last][k].End();
    assert large[first..last][k] == large[first + k];
  }

  /** The bytes the list loses when `size` bytes are cut out of region `r`. */
  predicate Cut(r: Region, size: nat, align: nat, x: int)
    requires align > 0 && Fits(r, size, align)
  {
    if Rest(r, size, align) == [] then r.start <= x < r.End()
    else AlignUp(r.start, align) <= x < AlignUp(r.start, align) + size
  }

  lemma RestCovers(r: Region, size: nat, align: nat, x: int)
    requires align > 0 && Fits(r, size, align) && size > 0
    ensures Covers(Rest(r, size, align), x) <==> r.start <= x < r.End() && !Cut(r, size, align, x)
    ensures Coalesced(Rest(r, size, align))
    ensures forall k :: 0 <= k < |Rest(r, size, align)| ==>
      r.start <= Rest(r, size, align)[k].start && Rest(r, size, align)[k].End() <= r.End()
  {
    AlignUpIsLeast(r.start, align);
    var start := AlignUp(r.start, align);
    var rest := Rest(r, size, align);
    if rest != [] {
      var tail := Region(start + size, r.End() - start - size);
      var head: seq<Region> := if start == r.start then [] else [Region(r.start, start - r.start)];
      assert rest == head + [tail];
      CoversConcat(head, [tail], x);
      CoversOne(tail, x);
      if head != [] {
        CoversOne(head[0], x);
      }
    }
  }

  /** `alloc_large` takes exactly the bytes it should off the list, and keeps the list coalesced. */
  lemma CarveTakes(large: seq<Region>, k: nat, size: nat, align: nat, x: int)
    requires align > 0 && k < |large| && Fits(large[k], size, align) && size > 0 && Coalesced(large)
    ensures Coalesced(Carve(large, k, size, align))
    ensures Covers(Carve(large, k, size, align), x) <==> Covers(large, x) && !Cut(large[k], size, align, x)
  {
    hide AlignUp, Rest, Covers;
    var r, rest := large[k], Rest(large[k], size, align);
    RestCovers(r, size, align, x);
    CoversAround(large, k, k + 1, rest, x);
    CoversAround(large, k, k + 1, [r], x);
    assert large[..k] + [r] + large[k + 1..] == large;
    CoversOne(r, x);
    AlignUpIsLeast(r.start, align);
    if r.start <= x < r.End() {
      assert large[k..k + 1] == [r];
      CoversOnce(large, k, k + 1, x);
    }
    CoalescedConcat(large[..k], rest);
    CoalescedConcat(large[..k] + rest, large[k + 1..]);
  }

  /** An interval with no byte in the list lies between two of its regions. */
  lemma Between(large: seq<Region>, addr: nat, size: nat)
    requires Coalesced(large) && size > 0
    requires forall k :: 0 <= k < |large| ==> large[k].size > 0
    requires forall x :: addr <= x < addr + size ==> !Covers(large, x)
    ensures Apart(large, Position(large, addr), addr, addr + size)
  {
    var n := Position(large, addr);
    assert n > 0 && large[n - 1].start <= addr < large[n - 1].End() ==> Covers(large, addr);
    assert n < |large| ==> Covers(large, large[n].start);
  }

  /** `dealloc_large` adds exactly the freed bytes to the list, whichever neighbours they touch, and
      keeps the list ordered and coalesced. */
  lemma InsertAdds(large: seq<Region>, addr: nat, size: nat, x: int)
    requires Coalesced(large) && size > 0
    requires forall k :: 0 <= k < |large| ==> large[k].size > 0
    requires forall y :: addr <= y < addr + size ==> !Covers(large, y)
    ensures Coalesced(Insert(large, addr, size))
    ensures Covers(Insert(large, addr, size), x) <==> Covers(large, x) || addr <= x < addr + size
  {
    Between(large, addr, size);
    var n := Position(large, addr);
    JoinedFitsIn(large, n, addr, size);
    JoinedCovers(large, n, addr, size, x);
    SplicedCovers(large, First(large, n, addr), Last(large, n, addr + size), Joined(large, n, addr, size), x);
  }

  lemma SplicedCovers(large: seq<Region>, first: nat, last: nat, r: Region, x: int)
    requires first <= last <= |large|
    ensures Covers(large[..first] + [r] + large[last..], x) <==>
      Covers(large[..first], x) || r.start <= x < r.End() || Covers(large[last..], x)
    ensures Covers(large, x) <==> Covers(large[..first], x) || Covers(large[first..last], x) || Covers(large[last..], x)
  {
    CoversAround(large, first, last, [r], x);
    CoversOne(r, x);
    CoversAround(large, first, last, large[first..last], x);
    assert large[..first] + large[first..last] + large[last..] == large;
  }

  ghost predicate Apart(large: seq<Region>, n: nat, addr: nat, end: nat)
    requires n <= |large|
  {
    (n > 0 ==> large[n - 1].End() <= addr) && (n < |large| ==> end <= large[n].start)
  }

  /** The merged region keeps a gap to everything on either side. */
  lemma JoinedFitsIn(large: seq<Region>, n: nat, addr: nat, size: nat)
    requires Coalesced(large) && n <= |large| && size > 0 && Apart(large, n, addr, addr + size)
    requires forall k :: 0 <= k < |large| ==> large[k].size > 0
    ensures Coalesced(large[..First(large, n, addr)] + [Joined(large, n, addr, size)] +
      large[Last(large, n, addr + size)..])
  {
    var first, last, joined := First(large, n, addr), Last(large, n, addr + size), Joined(large, n, addr, size);
    forall j | 0 <= j < first ensures large[j].End() < joined.start {
      if first == n && j < n - 1 {
        assert large[j].End() < large[n - 1].start;
      }
    }
    forall k | last <= k < |large| ensures joined.End() < large[k].start {
      if last == n && k > n {
        assert large[n].End() < large[k].start;
      }
    }
    CoalescedConcat(large[..first], [joined]);
    CoalescedConcat(large[..first] + [joined], large[last..]);
  }

  /** The merged region covers its neighbours and the freed interval, and nothing else. */
  lemma JoinedCovers(large: seq<Region>, n: nat, addr: nat, size: nat, x: int)
    requires n <= |large| && size > 0 && Apart(large, n, addr, addr + size)
    ensures var joined := Joined(large, n, addr, size);
      joined.start <= x < joined.End() <==>
        Covers(large[First(large, n, addr)..Last(large, n, addr + size)], x) || addr <= x < addr + size
  {
    var prev, next := JoinsPrev(large, n, addr), JoinsNext(large, n, addr + size);
    if prev {
      CoversOne(large[n - 1], x);
    }
    if next {
      CoversOne(large[n], x);
    }
    if prev && next {
      assert large[n - 1..n + 1] == [large[n - 1]] + [large[n]];
      CoversConcat([large[n - 1]], [large[n]], x);
    } else if prev {
      assert large[n - 1..n] == [large[n - 1]];
    } else if next {
      assert large[n..n + 1] == [large[n]];
    }
  }

  // ---- The large list keeps the invariant ----

  /** Bytes change hands without any bucket's bytes among them, before or after. */
  lemma BucketsUnmoved(h: Heap, h': Heap)
    requires |h.stacks| == BUCKET_COUNT && BucketsOk(h) && h'.stacks == h.stacks
    requires forall x :: x in h.owner <==> x in h'.owner
    requires forall x :: x in h.owner && (h.owner[x].InBucket? || h'.owner[x].InBucket?) ==> h'.owner[x] == h.owner[x]
    ensures BucketsOk(h')
  {
  }

  /** Whatever power of two a block is aligned to, it starts on a multiple of 16. */
  lemma AlignedSound(r: Region, align: nat)
    requires Sound(r) && IsPow2(align) && align >= 8
    ensures AlignUp(r.start, align) % NODE_SIZE == 0 && r.start <= AlignUp(r.start, align)
  {
    AlignUpIsLeast(r.start, align);
    assert IsPow2(16) by {
      assert IsPow2(8);
    }
    if align <= 16 {
      Pow2Divides(r.start, 16, align);
    } else {
      Pow2Divides(AlignUp(r.start, align), align, 16);
    }
  }

  lemma MultiplesOf16(a: nat, b: nat)
    requires a % NODE_SIZE == 0 && b % NODE_SIZE == 0
    ensures (a + b) % NODE_SIZE == 0 && (a >= b ==> (a - b) % NODE_SIZE == 0) && (a > b ==> a - b >= NODE_SIZE)
  {
    MultiplesAdd(a, b, NODE_SIZE);
    if a > b {
      MultiplesSubtract(a, b, NODE_SIZE);
    }
  }

  lemma RestSound(r: Region, size: nat, align: nat)
    requires Sound(r) && IsPow2(align) && align >= 8 && Fits(r, size, align) && size % NODE_SIZE == 0
    ensures forall j :: 0 <= j < |Rest(r, size, align)| ==> Sound(Rest(r, size, align)[j])
  {
    AlignedSound(r, align);
    var start := AlignUp(r.start, align);
    MultiplesOf16(start, r.start);
    MultiplesOf16(r.start, r.size);
    MultiplesOf16(start, size);
    MultiplesOf16(r.End(), start + size);
  }

  lemma CarveSound(large: seq<Region>, k: nat, size: nat, align: nat)
    requires forall j :: 0 <= j < |large| ==> Sound(large[j])
    requires IsPow2(align) && align >= 8 && k < |large| && Fits(large[k], size, align) && size % NODE_SIZE == 0
    ensures forall j :: 0 <= j < |Carve(large, k, size, align)| ==> Sound(Carve(large, k, size, align)[j])
  {
    RestSound(large[k], size, align);
  }

  lemma CarveLargeOk(h: Heap, k: nat, size: nat, align: nat)
    requires HeapOk(h) && LargeOk(h) && IsPow2(align) && align >= 8 && size > 0 && size % NODE_SIZE == 0
    requires k < |h.large| && Fits(h.large[k], Max(size, 8), align) && Max(size, 8) == size
    ensures LargeOk(TakeFromLarge(h, k, size, align))
  {
    var h' := TakeFromLarge(h, k, size, align);
    CarveSound(h.large, k, size, align);
    RestCovers(h.large[k], size, align, 0);
    CarveTakes(h.large, k, size, align, 0);
    forall x | x in h'.owner ensures h'.owner[x].InLarge? <==> Covers(h'.large, x) {
      CarveTakes(h.large, k, size, align, x);
    }
  }

  /** Every byte cut out of the list belonged to it. */
  lemma CutWasLarge(h: Heap, k: nat, size: nat, align: nat)
    requires HeapOk(h) && LargeOk(h) && align > 0 && k < |h.large| && Fits(h.large[k], size, align)
    ensures Owned(h.owner, h.large[k].start, h.large[k].size, InLarge)
    ensures Owned(h.owner, AlignUp(h.large[k].start, align), size, InLarge)
  {
    AlignUpIsLeast(h.large[k].start, align);
    forall x | h.large[k].start <= x < h.large[k].End() ensures x in h.owner && h.owner[x] == InLarge {
      assert Covers(h.large, x);
    }
  }

  lemma TakeFromLargeKeeps(h: Heap, k: nat, size: nat, align: nat)
    requires Inv(h) && IsPow2(align) && align >= 8
    requires Max(size, 8) == Span(size) && size % NODE_SIZE == 0 && size > 0
    requires k < |h.large| && Fits(h.large[k], Max(size, 8), align)
    ensures Inv(TakeFromLarge(h, k, size, align))
  {
    hide LiveOk, BucketsOk, AlignUp, Coalesced, Sound, Carve;
    var h', r := TakeFromLarge(h, k, size, align), h.large[k];
    var p := AlignUp(r.start, align);
    CutWasLarge(h, k, size, align);
    assert p in h.owner && h.owner[p] == InLarge;
    CarveLargeOk(h, k, size, align);
    BucketsUnmoved(h, h');
    AlignedSound(r, align);
    NotLive(h, p);
    TotalAdds(h.live, p, size);
    LargeTakenLiveOk(h, k, size, align);
  }

  lemma NotLive(h: Heap, p: nat)
    requires LiveOk(h) && p in h.owner && !h.owner[p].InLive?
    ensures p !in h.live
  {
    assert p in h.live ==> Owned(h.owner, p, Span(h.live[p]), InLive(p));
  }

  /** Live blocks do not mind whose the bytes of a region become. */
  lemma RegionLostLiveOk(h: Heap, a: nat, n: nat)
    requires LiveOk(h) && Owned(h.owner, a, n, InLarge)
    ensures LiveOk(h.(owner := Paint(h.owner, a, n, Lost)))
  {
    hide Sound, Span;
    forall q | q in h.live ensures Owned(Paint(h.owner, a, n, Lost), q, Span(h.live[q]), InLive(q)) {
      PaintOwned(h.owner, a, n, Lost, q, Span(h.live[q]), InLive(q), InLarge);
    }
  }

  lemma SameLiveOk(h: Heap, h': Heap)
    requires LiveOk(h) && h'.live == h.live && h'.owner == h.owner
    ensures LiveOk(h')
  {
  }

  lemma PaintedInside(owner: map<int, Owner>, a: int, n: nat, o: Owner, p: int, s: nat)
    requires Owned(owner, a, n, InLarge) && a <= p && p + s <= a + n
    ensures Owned(Paint(owner, a, n, o), p, s, o)
  {
  }

  lemma LargeTakenLiveOk(h: Heap, k: nat, size: nat, align: nat)
    requires Inv(h) && IsPow2(align) && align >= 8
    requires Max(size, 8) == Span(size) == size && size % NODE_SIZE == 0
    requires k < |h.large| && Fits(h.large[k], size, align)
    ensures LiveOk(TakeFromLarge(h, k, size, align))
  {
    hide AlignUp, LiveOk, BucketsOk, Covers, Coalesced, Rest, Carve, Owned, Paint;
    var r := h.large[k];
    var p := AlignUp(r.start, align);
    var dropped := if Rest(r, size, align) == [] then Paint(h.owner, r.start, r.size, Lost) else h.owner;
    CutWasLarge(h, k, size, align);
    AlignedSound(r, align);
    RegionLostLiveOk(h, r.start, r.size);
    PaintedInside(h.owner, r.start, r.size, Lost, p, size);
    var mid := h.(owner := dropped);
    TakenLiveOk(mid, p, size, if Rest(r, size, align) == [] then Lost else InLarge);
    SameLiveOk(mid.(live := h.live[p := size], owner := Paint(dropped, p, size, InLive(p))),
      TakeFromLarge(h, k, size, align));
  }

  lemma InsertSound(large: seq<Region>, addr: nat, size: nat)
    requires forall j :: 0 <= j < |large| ==> Sound(large[j])
    requires Sound(Region(addr, size))
    ensures forall j :: 0 <= j < |Insert(large, addr, size)| ==> Sound(Insert(large, addr, size)[j])
  {
    hide Position;
    var n := Position(large, addr);
    var prev, next := JoinsPrev(large, n, addr), JoinsNext(large, n, addr + size);
    assert prev ==> Sound(large[n - 1]);
    assert next ==> Sound(large[n]);
    var before := if prev then large[n - 1].size else 0;
    var after := if next then large[n].size else 0;
    MultiplesOf16(before, size);
    MultiplesOf16(before + size, after);
    MultiplesOf16(addr, before);
    assert Sound(Joined(large, n, addr, size));
  }

  lemma InsertWithin(h: Heap, addr: nat, size: nat)
    requires forall k :: 0 <= k < |h.large| ==> h.lo <= h.large[k].start && h.large[k].End() <= h.hi
    requires h.lo <= addr && addr + size <= h.hi
    ensures var large := Insert(h.large, addr, size);
      forall k :: 0 <= k < |large| ==> h.lo <= large[k].start && large[k].End() <= h.hi
  {
    hide Position;
    var n, large := Position(h.large, addr), Insert(h.large, addr, size);
    var joined := Joined(h.large, n, addr, size);
    assert JoinsPrev(h.large, n, addr) ==> h.lo <= h.large[n - 1].start;
    assert JoinsNext(h.large, n, addr + size) ==> h.large[n].End() <= h.hi;
    assert h.lo <= joined.start && joined.End() <= h.hi;
    forall k | 0 <= k < |large| ensures h.lo <= large[k].start && large[k].End() <= h.hi {
      assert large[k] in h.large || large[k] == joined || large[k] == Region(addr, size);
    }
  }

  lemma InsertLargeOk(h: Heap, p: nat, size: nat)
    requires HeapOk(h) && LargeOk(h) && Sound(Region(p, size)) && Owned(h.owner, p, size, InLive(p))
    ensures LargeOk(h.(large := Insert(h.large, p, size), owner := Paint(h.owner, p, size, InLarge)))
  {
    var large := Insert(h.large, p, size);
    assert p in h.owner && p + size - 1 in h.owner;
    InsertSound(h.large, p, size);
    InsertWithin(h, p, size);
    InsertAdds(h.large, p, size, 0);
    var owner := Paint(h.owner, p, size, InLarge);
    forall x | x in owner ensures owner[x].InLarge? <==> Covers(large, x) {
      InsertAdds(h.large, p, size, x);
    }
  }

  lemma FreeToLargeKeeps(h: Heap, p: nat)
    requires Inv(h) && p in h.live && h.live[p] > 2048
    ensures Inv(Free(h, p)) && Free(h, p).used == h.used - Span(h.live[p])
  {
    var size := h.live[p];
    assert Owned(h.owner, p, size, InLive(p));
    assert Sound(Region(p, size));
    assert p in h.owner && p + size - 1 in h.owner;
    TotalSplit(h.live, p);
    InsertLargeOk(h, p, size);
    BucketsUnmoved(h, Free(h, p));
    FreedLiveOk(h, p, size, InLarge);
  }

  // ---- Every safe call keeps the invariant ----

  lemma AllocKeeps(h: Heap, size: nat, align: nat)
    requires Inv(h) && Safe(h, size, align)
    ensures Inv(Alloc(h, size, align).0)
  {
    var i := ServingBucket(h, size, align);
    if i.Some? {
      TakeFromBucketKeeps(h, i.value, size);
    } else {
      var k := FirstFit(h.large, Max(size, 8), Max(align, 8));
      assert IsPow2(Max(align, 8)) by {
        assert IsPow2(8);
      }
      if k.Some? {
        TakeFromLargeKeeps(h, k.value, size, Max(align, 8));
      }
    }
  }

  lemma FreeKeeps(h: Heap, p: nat)
    requires Inv(h) && p in h.live
    ensures Inv(Free(h, p)) && Free(h, p).used == h.used - Span(h.live[p])
  {
    if h.live[p] <= 2048 {
      FreeToBucketKeeps(h, p);
    } else {
      FreeToLargeKeeps(h, p);
    }
  }
}
