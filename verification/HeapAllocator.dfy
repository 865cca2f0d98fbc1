/** The allocator itself: free lists threaded through the heap's own memory. */
module HeapAllocator {
  import opened Basics
  import opened RawMemory
  import opened HeapMath
  import opened HeapModel
  import opened HeapRuns

  // ---- Lists in memory ----

  /** `head` starts a list of bucket blocks: each block's first word points to the next, 0 ends it. */
  ghost predicate FreeChain(mem: Memory, head: int, stack: seq<nat>)
    decreases |stack|
  {
    if stack == [] then head == 0
    else head == stack[0] != 0 && FreeChain(mem, Load(mem, head), stack[1..])
  }

  /** From `from` to `to` lead the regions `large`, each headed by its size and a pointer to the next. */
  ghost predicate LargeChain(mem: Memory, from: int, large: seq<Region>, to: int)
    decreases |large|
  {
    if large == [] then from == to
    else
      && from == large[0].start != 0 && Load(mem, from) == large[0].size
      && LargeChain(mem, Load(mem, from + 8), large[1..], to)
  }

  lemma {:induction false} FreeChainFrame(mem: Memory, mem': Memory, head: int, stack: seq<nat>)
    requires FreeChain(mem, head, stack)
    requires forall a :: a in stack ==> Load(mem', a) == Load(mem, a)
    ensures FreeChain(mem', head, stack)
    decreases |stack|
  {
    if stack != [] {
      FreeChainFrame(mem, mem', Load(mem, head), stack[1..]);
    }
  }

  ghost predicate SameHeaders(mem: Memory, mem': Memory, large: seq<Region>) {
    forall k :: 0 <= k < |large| ==>
      Load(mem', large[k].start) == Load(mem, large[k].start)
        && Load(mem', large[k].start + 8) == Load(mem, large[k].start + 8)
  }

  lemma {:induction false} LargeChainFrame(mem: Memory, mem': Memory, from: int, large: seq<Region>, to: int)
    requires LargeChain(mem, from, large, to) && SameHeaders(mem, mem', large)
    ensures LargeChain(mem', from, large, to)
    decreases |large|
  {
    if large != [] {
      assert SameHeaders(mem, mem', large[1..]) by {
        forall k | 0 <= k < |large| - 1 ensures large[1..][k] == large[k + 1] {
        }
      }
      LargeChainFrame(mem, mem', Load(mem, from + 8), large[1..], to);
    }
  }

  lemma {:induction false} LargeChainConcat(mem: Memory, from: int, a: seq<Region>, mid: int, b: seq<Region>, to: int)
    requires LargeChain(mem, from, a, mid) && LargeChain(mem, mid, b, to)
    ensures LargeChain(mem, from, a + b, to)
    decreases |a|
  {
    if a == [] {
      assert a + b == b;
    } else {
      assert (a + b)[1..] == a[1..] + b;
      LargeChainConcat(mem, Load(mem, from + 8), a[1..], mid, b, to);
    }
  }

  lemma {:induction false} LargeChainSplit(mem: Memory, from: int, a: seq<Region>, b: seq<Region>, to: int)
    returns (mid: int)
    requires LargeChain(mem, from, a + b, to)
    ensures LargeChain(mem, from, a, mid) && LargeChain(mem, mid, b, to)
    decreases |a|
  {
    if a == [] {
      assert a + b == b;
      mid := from;
    } else {
      assert (a + b)[1..] == a[1..] + b;
      mid := LargeChainSplit(mem, Load(mem, from + 8), a[1..], b, to);
    }
  }

  /** Where the pointer to the region after `large` is stored: in the last region, or in the head. */
  ghost function Slot(large: seq<Region>): int {
    if large == [] then 0 else large[|large| - 1].start
  }

  /** Redirecting the last pointer of a chain redirects the chain. */
  lemma {:induction false} LargeChainRedirect(mem: Memory, mem': Memory, from: int, large: seq<Region>, to: int,
      to': int)
    requires LargeChain(mem, from, large, to) && large != []
    requires forall k :: 0 <= k < |large| ==> Load(mem', large[k].start) == Load(mem, large[k].start)
    requires forall k :: 0 <= k < |large| - 1 ==> Load(mem', large[k].start + 8) == Load(mem, large[k].start + 8)
    requires Load(mem', Slot(large) + 8) == to'
    ensures LargeChain(mem', from, large, to')
    decreases |large|
  {
    var rest := large[1..];
    if rest != [] {
      forall k | 0 <= k < |rest| ensures rest[k] == large[k + 1] {
      }
      assert Slot(rest) == Slot(large);
      LargeChainRedirect(mem, mem', Load(mem, from + 8), rest, to, to');
    }
  }

  /** Replacing the stretch `all[first..last]` of the list by `mid`, with writes only between the
      regions on either side, and in the pointer that leads there. */
  lemma Splice(mem: Memory, mem': Memory, head: int, head': int, all: seq<Region>, first: nat, last: nat,
               lo: int, hi: int, mid: seq<Region>, was: int, entry: int, after: int)
    requires first <= last <= |all| && Coalesced(all) && forall k :: 0 <= k < |all| ==> all[k].size >= NODE_SIZE
    requires LargeChain(mem, head, all[..first], was) && LargeChain(mem, after, all[last..], 0)
    requires first > 0 ==> all[first - 1].End() <= lo
    requires last < |all| ==> hi <= all[last].start
    requires first > 0 && last < |all| ==> all[first - 1].End() <= all[last].start
    requires forall a {:trigger Load(mem', a)} :: Load(mem', a) != Load(mem, a) ==>
      lo <= a < hi || (first > 0 && a == Slot(all[..first]) + 8)
    requires if first == 0 then head' == entry else head' == head && Load(mem', Slot(all[..first]) + 8) == entry
    requires LargeChain(mem', entry, mid, after)
    ensures LargeChain(mem', head', all[..first] + mid + all[last..], 0)
  {
    var a, b := all[..first], all[last..];
    forall k | 0 <= k < |b|
      ensures Load(mem', b[k].start) == Load(mem, b[k].start) && Load(mem', b[k].start + 8) == Load(mem, b[k].start + 8)
    {
      assert b[k] == all[last + k];
    }
    LargeChainFrame(mem, mem', after, b, 0);
    if first > 0 {
      forall k | 0 <= k < |a| ensures Load(mem', a[k].start) == Load(mem, a[k].start) {
        assert a[k] == all[k] && all[k].End() <= all[first - 1].End();
        assert all[first - 1].End() <= lo;
      }
      LargeChainRedirect(mem, mem', head, a, was, entry);
    }
    LargeChainConcat(mem', head', a, entry, mid, after);
    LargeChainConcat(mem', head', a + mid, after, b, 0);
  }

  lemma OneNode(mem: Memory, r: Region, after: int)
    requires r.start != 0 && Load(mem, r.start) == r.size && Load(mem, r.start + 8) == after
    ensures LargeChain(mem, r.start, [r], after)
  {
    assert [r][1..] == [];
  }

  // ---- The allocator's fields ----

  datatype Bucket = Bucket(blockSize: nat, freeList: nat, totalBlocks: nat, freeBlocks: nat)

  ghost predicate BucketsRepresent(mem: Memory, buckets: seq<Bucket>, stacks: seq<seq<nat>>) {
    && |buckets| == |stacks| == BUCKET_COUNT
    && forall i :: 0 <= i < BUCKET_COUNT ==>
      && buckets[i].blockSize == BUCKET_SIZES[i]
      && buckets[i].totalBlocks == BLOCKS_PER_BUCKET
      && buckets[i].freeBlocks == |stacks[i]|
      && FreeChain(mem, buckets[i].freeList, stacks[i])
  }

  /** The memory and the list heads stand for the abstract heap `h`. */
  ghost predicate Represents(mem: Memory, buckets: seq<Bucket>, head: nat, h: Heap) {
    BucketsRepresent(mem, buckets, h.stacks) && LargeChain(mem, head, h.large, 0)
  }

  /** Words changed only where every byte belongs to a live block. */
  ghost predicate ClientWrote(h: Heap, mem: Memory, mem': Memory) {
    forall a :: Load(mem', a) != Load(mem, a) ==> forall x :: a <= x < a + 8 ==> x in h.owner && h.owner[x].InLive?
  }

  lemma HeaderOwners(h: Heap)
    requires Inv(h)
    ensures forall i, a :: 0 <= i < BUCKET_COUNT && a in h.stacks[i] ==> a in h.owner && h.owner[a] == InBucket(i, a)
    ensures forall k :: 0 <= k < |h.large| ==>
      var a := h.large[k].start; a in h.owner && h.owner[a] == InLarge && a + 8 in h.owner && h.owner[a + 8] == InLarge
  {
    forall i, a | 0 <= i < BUCKET_COUNT && a in h.stacks[i] ensures a in h.owner && h.owner[a] == InBucket(i, a) {
      assert Owned(h.owner, a, BUCKET_SIZES[i], InBucket(i, a));
    }
    forall k | 0 <= k < |h.large|
      ensures var a := h.large[k].start;
        a in h.owner && h.owner[a] == InLarge && a + 8 in h.owner && h.owner[a + 8] == InLarge
    {
      assert Sound(h.large[k]);
      assert Covers(h.large, h.large[k].start) && Covers(h.large, h.large[k].start + 8);
    }
  }

  ghost predicate SameNodes(mem: Memory, mem': Memory, stacks: seq<seq<nat>>)
    requires |stacks| == BUCKET_COUNT
  {
    forall i, a :: 0 <= i < BUCKET_COUNT && a in stacks[i] ==> Load(mem', a) == Load(mem, a)
  }

  lemma BucketsFrame(mem: Memory, mem': Memory, buckets: seq<Bucket>, stacks: seq<seq<nat>>)
    requires BucketsRepresent(mem, buckets, stacks) && SameNodes(mem, mem', stacks)
    ensures BucketsRepresent(mem', buckets, stacks)
  {
    forall i | 0 <= i < BUCKET_COUNT ensures FreeChain(mem', buckets[i].freeList, stacks[i]) {
      FreeChainFrame(mem, mem', buckets[i].freeList, stacks[i]);
    }
  }

  /** Words changed only where no byte belongs to a list node leave both kinds of list intact. */
  lemma NodesUntouched(mem: Memory, mem': Memory, h: Heap)
    requires Inv(h)
    requires forall a {:trigger Load(mem', a)} :: Load(mem', a) != Load(mem, a) && a in h.owner ==>
      !h.owner[a].InBucket?
    ensures SameNodes(mem, mem', h.stacks)
  {
    HeaderOwners(h);
  }

  lemma ClientKeepsNodes(mem: Memory, mem': Memory, h: Heap)
    requires Inv(h) && ClientWrote(h, mem, mem')
    ensures SameNodes(mem, mem', h.stacks) && SameHeaders(mem, mem', h.large)
  {
    HeaderOwners(h);
  }

  /** Whatever clients write in their own blocks, the free lists stay intact. */
  lemma ClientWritesAreHarmless(mem: Memory, mem': Memory, buckets: seq<Bucket>, head: nat, h: Heap)
    requires Inv(h) && Represents(mem, buckets, head, h) && ClientWrote(h, mem, mem')
    ensures Represents(mem', buckets, head, h)
  {
    ClientKeepsNodes(mem, mem', h);
    BucketsFrame(mem, mem', buckets, h.stacks);
    LargeChainFrame(mem, mem', head, h.large, 0);
  }

  class BucketAllocator {
    var mem: Memory
    const buckets: array<Bucket>
    var largeHead: nat
    var used: nat
    var heapStart: nat
    var heapEnd: nat
    ghost var heap: Heap

    ghost predicate Valid()
      reads this, buckets
    {
      && buckets.Length == BUCKET_COUNT
      && heapStart == heap.lo && heapEnd == heap.hi && used == heap.used
      && StandsFor(mem, buckets[..], largeHead, heap)
    }

    /** `new`, over a memory with anything in it. */
    constructor (memory: Memory)
      ensures mem == memory && buckets.Length == BUCKET_COUNT && fresh(buckets)
      ensures largeHead == 0 && used == 0 && forall i :: 0 <= i < BUCKET_COUNT ==> buckets[i] == Bucket(0, 0, 0, 0)
    {
      mem := memory;
      buckets := new Bucket[BUCKET_COUNT](_ => Bucket(0, 0, 0, 0));
      largeHead, used, heapStart, heapEnd := 0, 0, 0, 0;
      heap := Heap(0, 0, [], [], 0, map[], map[]);
    }

    /** `init`. */
    method Init(lo: nat, size: nat)
      requires InitArgs(lo, size) && buckets.Length == BUCKET_COUNT && largeHead == 0 && used == 0
      modifies this, buckets
      ensures Valid() && heap == Carved(lo, size)
    {
      hide Inv, Carved, Represents, InitialBucket;
      heapStart, heapEnd := lo, lo + size;
      var current, remaining := InitBuckets(lo, size);
      ghost var before := mem;
      if remaining > NODE_SIZE {
        mem := mem[current := remaining];
        mem := mem[current + 8 := 0];
        largeHead := current;
      }
      heap := Carved(lo, size);
      CarvedInv(lo, size);
      CarvedFields(lo, size);
      InitialStands(before, mem, buckets[..], largeHead, lo, size);
    }

    /** The loop of `init`. No bucket is skipped: `InitArgs` leaves room for all of them. */
    method InitBuckets(lo: nat, size: nat) returns (current: nat, remaining: nat)
      requires InitArgs(lo, size) && buckets.Length == BUCKET_COUNT
      modifies this`mem, buckets
      ensures current == lo + BUCKETS_END && remaining == size - BUCKETS_END
      ensures forall j :: 0 <= j < BUCKET_COUNT ==> InitialBucket(mem, buckets[j], lo, j)
    {
      current, remaining := lo, size;
      for i := 0 to BUCKET_COUNT
        invariant current == lo + OFFSETS[i] && remaining == size - OFFSETS[i]
        invariant forall j :: 0 <= j < i ==> InitialBucket(mem, buckets[j], lo, j)
      {
        OffsetsFollow(i);
        var bucketSize := BUCKET_SIZES[i] * BLOCKS_PER_BUCKET;
        if remaining < bucketSize {
          assert false;
          break;
        }
        ghost var before, was := mem, buckets[..];
        buckets[i] := buckets[i].(blockSize := BUCKET_SIZES[i]);
        InitBucket(i, current, bucketSize);
        forall j | 0 <= j < i ensures InitialBucket(mem, buckets[j], lo, j) {
          EarlierBucket(before, mem, was[j], lo, j, i, current);
        }
        assert CarvedStack(lo, i) == Blocks(current, BUCKET_SIZES[i], BLOCKS_PER_BUCKET);
        current := current + bucketSize;
        remaining := remaining - bucketSize;
      }
    }

    /** `Bucket::init`: thread the free list through the bucket's memory. */
    method InitBucket(i: nat, start: nat, size: nat)
      requires i < buckets.Length && start > 0 && start + size < WORD_LIMIT
      requires buckets[i].blockSize >= 8 && size == buckets[i].blockSize * BLOCKS_PER_BUCKET
      modifies this`mem, buckets
      ensures FreeChain(mem, buckets[i].freeList, Blocks(start, buckets[i].blockSize, BLOCKS_PER_BUCKET))
      ensures buckets[i].blockSize == old(buckets[i].blockSize)
      ensures buckets[i].totalBlocks == buckets[i].freeBlocks == BLOCKS_PER_BUCKET
      ensures forall j :: 0 <= j < buckets.Length && j != i ==> buckets[j] == old(buckets[j])
      ensures forall a :: a < start ==> Load(mem, a) == Load(old(mem), a)
    {
      ModPlus(0, BLOCKS_PER_BUCKET, buckets[i].blockSize);
      var blockCount := size / buckets[i].blockSize;
      buckets[i] := buckets[i].(totalBlocks := blockCount, freeBlocks := blockCount);
      LinkBlocks(start, buckets[i].blockSize, blockCount);
      buckets[i] := buckets[i].(freeList := start);
    }

    /** The loop of `Bucket::init`. */
    method LinkBlocks(start: nat, blockSize: nat, blockCount: nat)
      requires start > 0 && blockSize > 0 && blockCount > 0 && start + blockSize * blockCount < WORD_LIMIT
      modifies this`mem
      ensures FreeChain(mem, start, Blocks(start, blockSize, blockCount))
      ensures forall a :: a < start ==> Load(mem, a) == Load(old(mem), a)
    {
      hide BlockAt;
      var current := start;
      BlockOrder(start, blockSize, 0, blockCount);
      for k := 0 to blockCount
        invariant current == BlockAt(start, blockSize, k)
        invariant forall j :: 0 <= j < k ==>
          Load(mem, BlockAt(start, blockSize, j)) == Link(start, blockSize, blockCount, j)
        invariant forall a :: a < start ==> Load(mem, a) == Load(old(mem), a)
      {
        BlockOrder(start, blockSize, k, blockCount);
        forall j | 0 <= j < k ensures BlockAt(start, blockSize, j) != current {
          BlockOrder(start, blockSize, j, k);
        }
        mem := mem[current := if k < blockCount - 1 then current + blockSize else 0];
        current := current + blockSize;
      }
      LinkedBlocks(mem, start, blockSize, blockCount, 0);
    }

    /** `Bucket::alloc`. */
    method TakeBlock(i: nat, ghost stack: seq<nat>) returns (ptr: Option<nat>)
      requires i < buckets.Length && FreeChain(mem, buckets[i].freeList, stack) && buckets[i].freeBlocks == |stack|
      modifies buckets
      ensures if stack == [] then ptr == None && buckets[..] == old(buckets[..])
        else ptr == Some(stack[0]) && FreeChain(mem, buckets[i].freeList, stack[1..])
      ensures forall j :: 0 <= j < buckets.Length && j != i ==> buckets[j] == old(buckets[j])
      ensures buckets[i].blockSize == old(buckets[i].blockSize) && buckets[i].totalBlocks == old(buckets[i].totalBlocks)
      ensures stack != [] ==> buckets[i].freeBlocks == |stack| - 1
    {
      var node := buckets[i].freeList;
      if node == 0 {
        return None;
      }
      buckets[i] := buckets[i].(freeList := Load(mem, node));
      buckets[i] := buckets[i].(freeBlocks := buckets[i].freeBlocks - 1);
      return Some(node);
    }

    /** `Bucket::dealloc`. */
    method PutBlock(i: nat, ptr: Word, ghost stack: seq<nat>)
      requires i < buckets.Length && FreeChain(mem, buckets[i].freeList, stack) && buckets[i].freeBlocks == |stack|
      requires buckets[i].freeList < WORD_LIMIT && ptr != 0 && ptr !in stack
      modifies this`mem, buckets
      ensures mem == old(mem)[ptr := old(buckets[i].freeList)]
      ensures FreeChain(mem, buckets[i].freeList, [ptr] + stack) && buckets[i].freeBlocks == |stack| + 1
      ensures buckets[i].blockSize == old(buckets[i].blockSize) && buckets[i].totalBlocks == old(buckets[i].totalBlocks)
      ensures forall j :: 0 <= j < buckets.Length && j != i ==> buckets[j] == old(buckets[j])
    {
      ghost var before := mem;
      mem := mem[ptr := buckets[i].freeList];
      FreeChainFrame(before, mem, buckets[i].freeList, stack);
      buckets[i] := buckets[i].(freeList := ptr);
      buckets[i] := buckets[i].(freeBlocks := buckets[i].freeBlocks + 1);
      assert ([ptr] + stack)[1..] == stack;
    }

    /** Store `to` where the cursor points: in the region `prev`, or in the list head when `prev` is 0. */
    method SetNext(prev: nat, to: Word)
      modifies this`mem, this`largeHead
      ensures if prev == 0 then largeHead == to && mem == old(mem)
        else largeHead == old(largeHead) && mem == old(mem)[prev + 8 := to]
    {
      if prev == 0 {
        largeHead := to;
      } else {
        mem := mem[prev + 8 := to];
      }
    }

    /** `alloc_large`: cut the block out of the first region that fits. The new header must not lie on the
        region's own, as it does for a block of 8 bytes at the region's start. */
    method AllocLarge(size: nat, align: nat) returns (ptr: Option<nat>, ghost left: seq<Region>)
      requires IsPow2(align) && 8 <= align < WORD_LIMIT / 2 && size > 0
      requires LargeChain(mem, largeHead, heap.large, 0) && ListOk(heap.large, heap.hi)
      requires FitHasRoom(heap.large, size, align)
      modifies this`mem, this`largeHead, this`used
      ensures LargeChain(mem, largeHead, left, 0) && WroteOnly(old(mem), mem, heap.large)
      ensures used == old(used) + if ptr.None? then 0 else size
      ensures ptr == FitPtr(heap.large, size, align) && left == FitLeft(heap.large, size, align)
    {
      hide AlignUp, FirstFit, FitPtr, FitLeft, FitHasRoom, Room, Remainder, LargeChain;
      var prev, cur, start := FindFit(size, align);
      FitFacts(heap.large, size, align, heap.hi);
      if cur == 0 {
        return None, heap.large;
      }
      ghost var k := FirstFit(heap.large, size, align).value;
      used := used + size;
      left := CutRegion(prev, cur, start, start + size, k);
      return Some(start), left;
    }

    /** The loop of `alloc_large`: walk the list with a cursor up to the first region that fits;
        `cur` is 0 when there is none. */
    method FindFit(size: nat, align: nat) returns (prev: nat, cur: nat, start: nat)
      requires IsPow2(align) && 8 <= align < WORD_LIMIT / 2 && size > 0
      requires LargeChain(mem, largeHead, heap.large, 0) && ListOk(heap.large, heap.hi)
      ensures match FirstFit(heap.large, size, align)
        case None => cur == 0
        case Some(k) => CursorAt(mem, largeHead, heap.large, k, prev, cur) && start == AlignUp(cur, align)
    {
      ghost var all, k := heap.large, 0;
      prev, cur, start := 0, largeHead, 0;
      FoundFirst(all, size, align);
      assert all[..0] == [] && all[0..] == all;
      while cur != 0
        invariant Walked(mem, largeHead, all, k, prev, cur)
        invariant Found(all, k, size, align) == Found(all, 0, size, align)
        decreases |all| - k
      {
        EnterRegion(mem, largeHead, all, k, prev, cur);
        start := AlignUpWord(cur, align);
        FitStep(all, k, size, align, heap.hi);
        if start + size >= WORD_LIMIT {
          cur := 0;
          return;
        }
        if start + size <= cur + Load(mem, cur) {
          return;
        }
        prev := cur;
        cur := Load(mem, cur + 8);
        k := k + 1;
      }
      NothingFound(all, k, size, align);
    }

    /** The part of `alloc_large` that runs once a region fits. */
    method CutRegion(prev: nat, cur: nat, start: nat, end: nat, ghost k: nat) returns (ghost left: seq<Region>)
      requires CursorAt(mem, largeHead, heap.large, k, prev, cur) && heap.large[k].End() < WORD_LIMIT
      requires Room(heap.large[k], start, end)
      modifies this`mem, this`largeHead
      ensures left == heap.large[..k] + Remainder(heap.large[k], start, end) + heap.large[k + 1..]
      ensures LargeChain(mem, largeHead, left, 0) && WroteOnly(old(mem), mem, heap.large)
    {
      hide LargeChain, WroteOnly;
      left := heap.large[..k] + Remainder(heap.large[k], start, end) + heap.large[k + 1..];
      var excess := cur + Load(mem, cur) - end;
      if excess >= NODE_SIZE {
        mem := mem[end := excess];
        if start == cur {
          ReplaceByTail(prev, cur, end, excess, k, old(mem));
        } else {
          mem := mem[cur := start - cur];
          InsertTail(prev, cur, start, end, excess, k, old(mem));
        }
      } else {
        DropRegion(prev, cur, k);
      }
    }

    /** The left-over after the block takes the region's place in the list. */
    method ReplaceByTail(prev: nat, cur: nat, end: nat, excess: nat, ghost k: nat, ghost before: Memory)
      requires CursorAt(before, largeHead, heap.large, k, prev, cur) && heap.large[k].End() < WORD_LIMIT
      requires cur + NODE_SIZE <= end && excess >= NODE_SIZE && end + excess == heap.large[k].End()
      requires mem == before[end := excess]
      modifies this`mem, this`largeHead
      ensures LargeChain(mem, largeHead, heap.large[..k] + [Region(end, excess)] + heap.large[k + 1..], 0)
      ensures WroteOnly(before, mem, heap.large)
    {
      hide LargeChain, WroteOnly;
      ghost var head, after := largeHead, Load(before, cur + 8);
      mem := mem[end + 8 := Load(mem, cur + 8)];
      mem := mem[cur + 8 := 0];
      SetNext(prev, end);
      OneNode(mem, Region(end, excess), after);
      SpliceOne(before, mem, head, largeHead, heap.large, k, prev, cur, [Region(end, excess)], end);
    }

    /** The region shrinks to what lies before the block, and the left-over after it follows. */
    method InsertTail(prev: nat, cur: nat, start: nat, end: nat, excess: nat, ghost k: nat, ghost before: Memory)
      requires CursorAt(before, largeHead, heap.large, k, prev, cur) && heap.large[k].End() < WORD_LIMIT
      requires cur + NODE_SIZE <= start <= end && excess >= NODE_SIZE
      requires end + excess == heap.large[k].End()
      requires mem == before[end := excess][cur := start - cur]
      modifies this`mem
      ensures LargeChain(mem, largeHead,
        heap.large[..k] + [Region(cur, start - cur), Region(end, excess)] + heap.large[k + 1..], 0)
      ensures WroteOnly(before, mem, heap.large)
    {
      mem := mem[end + 8 := Load(mem, cur + 8)];
      mem := mem[cur + 8 := 0];
      mem := mem[cur + 8 := end];
      TailInserted(before, mem, largeHead, heap.large, k, prev, cur, start, end, excess);
    }

    /** Nothing is left of the region. */
    method DropRegion(prev: nat, cur: nat, ghost k: nat)
      requires CursorAt(mem, largeHead, heap.large, k, prev, cur)
      modifies this`mem, this`largeHead
      ensures LargeChain(mem, largeHead, heap.large[..k] + [] + heap.large[k + 1..], 0)
      ensures WroteOnly(old(mem), mem, heap.large)
    {
      ghost var head := largeHead;
      var next := Load(mem, cur + 8);
      mem := mem[cur + 8 := 0];
      SetNext(prev, next);
      SpliceOne(old(mem), mem, head, largeHead, heap.large, k, prev, cur, [], next);
    }

    /** `dealloc_large`: find the freed block's place in address order and merge it with its neighbours. */
    method DeallocLarge(ptr: Word, size: nat) returns (ghost left: seq<Region>)
      requires LargeChain(mem, largeHead, heap.large, 0) && ListOk(heap.large, heap.hi)
      requires heapStart == heap.lo > 0 && heapEnd == heap.hi && size >= NODE_SIZE && Vacant(heap.large, ptr, size)
      modifies this`mem, this`largeHead, this`used
      ensures LargeChain(mem, largeHead, left, 0) && WroteOnlyAt(old(mem), mem, heap.large, ptr, size)
      ensures if ptr < heapStart || ptr + size > heapEnd then left == heap.large && used == old(used)
        else left == Insert(heap.large, ptr, size) && used == SaturatingSub(old(used), size)
    {
      if ptr < heapStart || ptr + size >= WORD_LIMIT || ptr + size > heapEnd {
        return heap.large;
      }
      used := SaturatingSub(used, size);
      left := Relink(ptr, size);
    }

    /** `dealloc_large` for a block inside the heap: write its size and put it in the list. */
    method Relink(ptr: Word, size: nat) returns (ghost left: seq<Region>)
      requires LargeChain(mem, largeHead, heap.large, 0) && ListOk(heap.large, heap.hi)
      requires 0 < ptr && ptr + size <= heap.hi && size >= NODE_SIZE && Vacant(heap.large, ptr, size)
      modifies this`mem, this`largeHead
      ensures LargeChain(mem, largeHead, left, 0) && WroteOnlyAt(old(mem), mem, heap.large, ptr, size)
      ensures left == Insert(heap.large, ptr, size)
    {
      ghost var n, all, before := Position(heap.large, ptr), HeaderWritten(heap.large, ptr, size), mem;
      HeaderKeepsChain(mem, largeHead, heap.large, ptr, size, heap.hi);
      mem := mem[ptr := size];
      left := Place(all, ptr, size, n);
      PlacedIsInsert(before, mem, heap.large, ptr, size);
    }

    /** `dealloc_large` once the block's size is written: find its place, and merge unless it is listed already. */
    method Place(ghost all: seq<Region>, addr: Word, size: nat, ghost n: nat) returns (ghost left: seq<Region>)
      requires PlaceArgs(mem, largeHead, all, addr, size, n, heap.hi)
      modifies this`mem, this`largeHead
      ensures left == Placed(all, n, addr, size)
      ensures LargeChain(mem, largeHead, left, 0)
      ensures if Listed(all, n, addr) then mem == old(mem) else WroteOnlyAt(old(mem), mem, all, addr, size)
    {
      var prev, curr := FindSpot(all, addr, n);
      if curr != 0 && addr == curr {
        return all;
      }
      left := Join(all, prev, curr, addr, size, n);
    }

    /** The loop of `dealloc_large`: the last region below `addr` and the first one not below it. */
    method FindSpot(ghost all: seq<Region>, addr: nat, ghost n: nat) returns (prev: nat, curr: nat)
      requires n == Position(all, addr)
      requires LargeChain(mem, largeHead, all, 0) && forall j :: 0 <= j < |all| ==> all[j].start > 0
      ensures Walked(mem, largeHead, all, n, prev, curr) && (curr != 0 <==> n < |all|)
      ensures n < |all| ==> curr == all[n].start
    {
      prev, curr := 0, largeHead;
      ghost var k := 0;
      assert all[..0] == [] && all[0..] == all;
      while curr != 0 && curr < addr
        invariant Walked(mem, largeHead, all, k, prev, curr) && k <= n
        decreases |all| - k
      {
        assert all[k..][0] == all[k] && all[k..][1..] == all[k + 1..];
        ExtendChain(mem, largeHead, all, k);
        prev := curr;
        curr := Load(mem, curr + 8);
        k := k + 1;
      }
      if k < |all| {
        assert all[k..][0] == all[k];
      }
    }

    /** The merge cases of `dealloc_large`. */
    method Join(ghost all: seq<Region>, prev: nat, curr: nat, addr: Word, size: nat, ghost n: nat)
      returns (ghost left: seq<Region>)
      requires ListOk(all, heap.hi) && n <= |all| && Apart(all, n, addr, addr + size) && size >= NODE_SIZE && 0 < addr
      requires addr + size <= heap.hi
      requires Walked(mem, largeHead, all, n, prev, curr) && (curr != 0 <==> n < |all|) && Load(mem, addr) == size
      modifies this`mem, this`largeHead
      ensures left == all[..First(all, n, addr)] + [Joined(all, n, addr, size)] + all[Last(all, n, addr + size)..]
      ensures LargeChain(mem, largeHead, left, 0) && WroteOnlyAt(old(mem), mem, all, addr, size)
    {
      left := all[..First(all, n, addr)] + [Joined(all, n, addr, size)] + all[Last(all, n, addr + size)..];
      Neighbours(mem, largeHead, all, n, prev, curr);
      if prev != 0 && prev + Load(mem, prev) == addr {
        JoinBefore(all, prev, curr, addr, size, n);
      } else if curr != 0 && addr + size == curr {
        JoinAfter(all, prev, curr, addr, size, n);
      } else {
        LinkIn(all, prev, curr, addr, size, n);
      }
    }

    /** Merge with the region before, and then perhaps with the one after. */
    method JoinBefore(ghost all: seq<Region>, prev: nat, curr: nat, addr: Word, size: nat, ghost n: nat)
      requires JoinArgs(mem, largeHead, all, prev, curr, addr, size, n, heap.hi) && JoinsPrev(all, n, addr)
      modifies this`mem
      ensures LargeChain(mem, largeHead,
        all[..n - 1] + [Joined(all, n, addr, size)] + all[Last(all, n, addr + size)..], 0)
      ensures WroteOnlyAt(old(mem), mem, all, addr, size)
    {
      hide LargeChain, WroteOnlyAt;
      ghost var before, joined := mem, Joined(all, n, addr, size);
      mem := mem[prev := Load(mem, prev) + size];
      if curr != 0 && prev + Load(mem, prev) == curr {
        mem := mem[prev := Load(mem, prev) + Load(mem, curr)];
        var next := Load(mem, curr + 8);
        mem := mem[curr + 8 := 0];
        mem := mem[prev + 8 := next];
      }
      OneNode(mem, joined, if JoinsNext(all, n, addr + size) then Load(before, curr + 8) else curr);
      JoinSplice(before, mem, largeHead, largeHead, all, prev, curr, addr, size, n, heap.hi);
    }

    /** Merge with the region after only. */
    method JoinAfter(ghost all: seq<Region>, prev: nat, curr: nat, addr: Word, size: nat, ghost n: nat)
      requires JoinArgs(mem, largeHead, all, prev, curr, addr, size, n, heap.hi) && !JoinsPrev(all, n, addr)
      requires JoinsNext(all, n, addr + size)
      modifies this`mem, this`largeHead
      ensures LargeChain(mem, largeHead, all[..n] + [Joined(all, n, addr, size)] + all[n + 1..], 0)
      ensures WroteOnlyAt(old(mem), mem, all, addr, size)
    {
      hide LargeChain, WroteOnlyAt;
      ghost var before, head := mem, largeHead;
      var next := Load(mem, curr + 8);
      mem := mem[curr + 8 := 0];
      mem := mem[addr := size + Load(mem, curr)];
      mem := mem[addr + 8 := next];
      SetNext(prev, addr);
      OneNode(mem, Joined(all, n, addr, size), next);
      JoinSplice(before, mem, head, largeHead, all, prev, curr, addr, size, n, heap.hi);
    }

    /** No neighbour to merge with. */
    method LinkIn(ghost all: seq<Region>, prev: nat, curr: nat, addr: Word, size: nat, ghost n: nat)
      requires JoinArgs(mem, largeHead, all, prev, curr, addr, size, n, heap.hi) && !JoinsPrev(all, n, addr)
      requires !JoinsNext(all, n, addr + size)
      modifies this`mem, this`largeHead
      ensures LargeChain(mem, largeHead, all[..n] + [Joined(all, n, addr, size)] + all[n..], 0)
      ensures WroteOnlyAt(old(mem), mem, all, addr, size)
    {
      hide LargeChain, WroteOnlyAt;
      ghost var before, head := mem, largeHead;
      mem := mem[addr + 8 := curr];
      SetNext(prev, addr);
      OneNode(mem, Joined(all, n, addr, size), curr);
      JoinSplice(before, mem, head, largeHead, all, prev, curr, addr, size, n, heap.hi);
    }

    /** `bucket_index`. */
    method FindBucket(size: nat) returns (idx: Option<nat>)
      ensures idx == BucketIndex(size)
    {
      for i := 0 to BUCKET_COUNT
        invariant BucketIndex(size) == BucketIndexFrom(size, i)
      {
        if size <= BUCKET_SIZES[i] {
          return Some(i);
        }
      }
      return None;
    }

    /** `alloc`. */
    method Alloc(size: nat, align: nat) returns (ptr: Option<nat>)
      requires Valid() && Safe(heap, size, align) && align < WORD_LIMIT / 2
      modifies this`mem, this`largeHead, this`used, this`heap, buckets
      ensures Valid()
      ensures heap == HeapModel.Alloc(old(heap), size, align).0 && ptr == HeapModel.Alloc(old(heap), size, align).1
    {
      var idx := FindBucket(Max(size, 8));
      if idx.Some? && buckets[idx.value].blockSize >= Max(align, 8) {
        ptr := AllocSmall(idx.value, size, align);
        if ptr.Some? {
          return;
        }
      }
      ptr := FallBack(size, align);
    }

    /** `alloc` when a bucket's blocks are large enough. */
    method AllocSmall(i: nat, size: nat, align: nat) returns (ptr: Option<nat>)
      requires Valid() && Safe(heap, size, align)
      requires BucketIndex(Max(size, 8)) == Some(i) && BUCKET_SIZES[i] >= Max(align, 8)
      modifies this`used, this`heap, buckets
      ensures Valid()
      ensures if ServingBucket(old(heap), size, align).None? then ptr == None && heap == old(heap)
        else
          && ptr.Some? && heap == HeapModel.Alloc(old(heap), size, align).0
          && ptr == HeapModel.Alloc(old(heap), size, align).1
    {
      hide Inv, HeapModel.Alloc, LargeChain;
      ghost var was, h := buckets[..], heap;
      ptr := TakeBlock(i, heap.stacks[i]);
      if ptr == None {
        return;
      }
      used := used + buckets[i].blockSize;
      heap := HeapModel.Alloc(heap, size, align).0;
      TakenStands(mem, was, buckets[..], largeHead, h, size, align, i);
    }

    /** `alloc` when no bucket serves. */
    method FallBack(size: nat, align: nat) returns (ptr: Option<nat>)
      requires Valid() && Safe(heap, size, align) && align < WORD_LIMIT / 2 && ServingBucket(heap, size, align).None?
      modifies this`mem, this`largeHead, this`used, this`heap
      ensures Valid()
      ensures heap == HeapModel.Alloc(old(heap), size, align).0 && ptr == HeapModel.Alloc(old(heap), size, align).1
    {
      hide Inv, HeapModel.Alloc, FitLeft, FitPtr;
      ghost var left, before, h := [], mem, heap;
      LargeArgs(heap, size, align);
      ptr, left := AllocLarge(Max(size, 8), Max(align, 8));
      CarvedStands(before, mem, buckets[..], largeHead, h, size, align, left);
      heap := HeapModel.Alloc(heap, size, align).0;
    }

    /** `dealloc` of a live block, with the size it was requested with. */
    method Dealloc(ptr: nat, size: nat)
      requires Valid() && ptr in heap.live && size == heap.live[ptr]
      modifies this`mem, this`largeHead, this`used, this`heap, buckets
      ensures Valid() && heap == Free(old(heap), ptr)
    {
      var idx := FindBucket(Max(size, 8));
      if idx.Some? {
        DeallocSmall(idx.value, ptr);
      } else {
        DeallocBig(ptr, size);
      }
    }

    /** `dealloc` when the size stands for a bucket. */
    method DeallocSmall(i: nat, ptr: nat)
      requires Valid() && ptr in heap.live && BucketIndex(Max(heap.live[ptr], 8)) == Some(i)
      modifies this`mem, this`used, this`heap, buckets
      ensures Valid() && heap == Free(old(heap), ptr)
    {
      hide Inv, Free, Insert;
      ghost var h, before, was := heap, mem, buckets[..];
      LiveIsVacant(heap, ptr);
      HeadersInside(heap);
      used := SaturatingSub(used, buckets[i].blockSize);
      PutBlock(i, ptr, heap.stacks[i]);
      PutStands(before, mem, was, buckets[..], largeHead, h, ptr, i);
      heap := Free(heap, ptr);
    }

    /** `dealloc` otherwise. */
    method DeallocBig(ptr: nat, size: nat)
      requires Valid() && ptr in heap.live && size == heap.live[ptr] > 2048
      modifies this`mem, this`largeHead, this`used, this`heap
      ensures Valid() && heap == Free(old(heap), ptr)
    {
      hide Inv, Free, Insert;
      ghost var h, before := heap, mem;
      LiveIsVacant(heap, ptr);
      HeadersInside(heap);
      ghost var left := DeallocLarge(ptr, size);
      assert left == Insert(h.large, ptr, size) && used == SaturatingSub(h.used, size);
      InsertedStands(before, mem, buckets[..], largeHead, h, ptr, left);
      heap := Free(heap, ptr);
    }
  }

  function BlockAt(start: nat, blockSize: nat, k: nat): nat {
    start + k * blockSize
  }

  lemma BlockOrder(start: nat, blockSize: nat, j: nat, k: nat)
    requires j < k
    ensures start <= BlockAt(start, blockSize, j) && BlockAt(start, blockSize, 0) == start
    ensures BlockAt(start, blockSize, j) + blockSize == BlockAt(start, blockSize, j + 1) <= BlockAt(start, blockSize, k)
    ensures BlockAt(start, blockSize, k) == start + blockSize * k
  {
    MulMono(blockSize, j + 1, k);
  }

  function Blocks(start: nat, blockSize: nat, count: nat): seq<nat> {
    seq(count, k requires 0 <= k < count => BlockAt(start, blockSize, k))
  }

  /** What `Bucket::init` stores in block `j`. */
  function Link(start: nat, blockSize: nat, count: nat, j: nat): nat {
    if j < count - 1 then BlockAt(start, blockSize, j + 1) else 0
  }

  lemma {:induction false} LinkedBlocks(mem: Memory, start: nat, blockSize: nat, count: nat, j: nat)
    requires start > 0 && j < count
    requires forall k :: 0 <= k < count ==> Load(mem, BlockAt(start, blockSize, k)) == Link(start, blockSize, count, k)
    ensures FreeChain(mem, BlockAt(start, blockSize, j), Blocks(start, blockSize, count)[j..])
    decreases count - j
  {
    var rest := Blocks(start, blockSize, count)[j..];
    assert rest[1..] == Blocks(start, blockSize, count)[j + 1..];
    assert rest[0] == BlockAt(start, blockSize, j);
    if j + 1 < count {
      LinkedBlocks(mem, start, blockSize, count, j + 1);
    } else {
      assert rest[1..] == [] && Load(mem, BlockAt(start, blockSize, j)) == 0;
    }
  }

  lemma CarvedFields(lo: nat, size: nat)
    requires size >= BUCKETS_END
    ensures Carved(lo, size).lo == lo && Carved(lo, size).hi == lo + size && Carved(lo, size).used == 0
  {
  }

  ghost predicate InitialBucket(mem: Memory, b: Bucket, lo: nat, j: nat)
    requires j < BUCKET_COUNT
  {
    b.blockSize == BUCKET_SIZES[j] && b.totalBlocks == b.freeBlocks == BLOCKS_PER_BUCKET
      && FreeChain(mem, b.freeList, CarvedStack(lo, j))
  }

  /** Writes above a bucket's blocks leave its list intact. */
  lemma EarlierBucket(mem: Memory, mem': Memory, b: Bucket, lo: nat, j: nat, i: nat, current: nat)
    requires j < i <= BUCKET_COUNT && current == lo + OFFSETS[i] && InitialBucket(mem, b, lo, j)
    requires forall a :: a < current ==> Load(mem', a) == Load(mem, a)
    ensures InitialBucket(mem', b, lo, j)
  {
    hide FreeChain, CarvedStack, Load;
    forall a | a in CarvedStack(lo, j) ensures Load(mem', a) == Load(mem, a) {
      BlocksBelow(lo, j, i, a);
    }
    FreeChainFrame(mem, mem', b.freeList, CarvedStack(lo, j));
  }

  lemma BlocksBelow(lo: nat, j: nat, i: nat, a: nat)
    requires j < i <= BUCKET_COUNT && a in CarvedStack(lo, j)
    ensures a < lo + OFFSETS[i]
  {
    hide IsPow2;
    var k :| 0 <= k < BLOCKS_PER_BUCKET && CarvedStack(lo, j)[k] == a;
    MulMono(BUCKET_SIZES[j], k + 1, BLOCKS_PER_BUCKET);
    OffsetsFollow(j);
  }

  /** The buckets, and what is left above them, stand for the heap that `init` carves. */
  lemma InitialStands(before: Memory, mem: Memory, buckets: seq<Bucket>, head: nat, lo: nat, size: nat)
    requires InitArgs(lo, size) && |buckets| == BUCKET_COUNT
    requires forall j :: 0 <= j < BUCKET_COUNT ==> InitialBucket(before, buckets[j], lo, j)
    requires var current, remaining := lo + BUCKETS_END, size - BUCKETS_END;
      if remaining > NODE_SIZE then mem == before[current := remaining][current + 8 := 0] && head == current
      else mem == before && head == 0
    ensures Represents(mem, buckets, head, Carved(lo, size))
  {
    forall j | 0 <= j < BUCKET_COUNT ensures InitialBucket(mem, buckets[j], lo, j) {
      EarlierBucket(before, mem, buckets[j], lo, j, BUCKET_COUNT, lo + BUCKETS_END);
    }
    if size - BUCKETS_END > NODE_SIZE {
      OneNode(mem, Region(lo + BUCKETS_END, size - BUCKETS_END), 0);
    }
  }

  /** What `Valid` asks of the fields. */
  ghost predicate StandsFor(mem: Memory, buckets: seq<Bucket>, head: nat, h: Heap) {
    Inv(h) && Represents(mem, buckets, head, h)
  }

  ghost predicate OnlyBucket(was: seq<Bucket>, now: seq<Bucket>, i: nat, stack: seq<nat>, mem: Memory) {
    && |was| == |now| == BUCKET_COUNT && i < BUCKET_COUNT
    && (forall j :: 0 <= j < BUCKET_COUNT && j != i ==> now[j] == was[j])
    && now[i].blockSize == was[i].blockSize && now[i].totalBlocks == was[i].totalBlocks && now[i].freeBlocks == |stack|
    && FreeChain(mem, now[i].freeList, stack)
  }

  lemma TakenStands(mem: Memory, was: seq<Bucket>, now: seq<Bucket>, head: nat, h: Heap, size: nat, align: nat, i: nat)
    requires StandsFor(mem, was, head, h) && Safe(h, size, align) && ServingBucket(h, size, align) == Some(i)
    requires OnlyBucket(was, now, i, h.stacks[i][1..], mem)
    ensures var (h', ptr) := HeapModel.Alloc(h, size, align);
      && StandsFor(mem, now, head, h') && ptr == Some(h.stacks[i][0])
      && h'.lo == h.lo && h'.hi == h.hi && h'.used == h.used + BUCKET_SIZES[i]
  {
    AllocKeeps(h, size, align);
    OneBucketChanged(mem, mem, was, now, h.stacks, i, h.stacks[i][1..]);
  }

  /** What `alloc_large` leaves of the list, and what it hands out. */
  ghost function FitLeft(large: seq<Region>, size: nat, align: nat): seq<Region>
    requires align > 0
  {
    var k := FirstFit(large, size, align);
    if k.None? then large else Carve(large, k.value, size, align)
  }

  ghost function FitPtr(large: seq<Region>, size: nat, align: nat): Option<nat>
    requires align > 0
  {
    var k := FirstFit(large, size, align);
    if k.None? then None else Some(AlignUp(large[k.value].start, align))
  }

  lemma FitFacts(large: seq<Region>, size: nat, align: nat, hi: nat)
    requires align > 0 && ListOk(large, hi) && FitHasRoom(large, size, align)
    ensures match FirstFit(large, size, align)
      case None => FitPtr(large, size, align) == None && FitLeft(large, size, align) == large
      case Some(k) =>
        var r := large[k]; var start := AlignUp(r.start, align);
        && r.End() < WORD_LIMIT && Room(r, start, start + size) && FitPtr(large, size, align) == Some(start)
        && FitLeft(large, size, align) == large[..k] + Remainder(r, start, start + size) + large[k + 1..]
  {
    hide AlignUp, Remainder, Carve, Room, Coalesced, Sound, FirstFit, Fits;
    var k := FirstFit(large, size, align);
    if k.Some? {
      CarveIs(large, k.value, size, align);
    }
  }

  lemma CarveIs(large: seq<Region>, k: nat, size: nat, align: nat)
    requires align > 0 && k < |large| && Fits(large[k], size, align)
    ensures var start := AlignUp(large[k].start, align);
      && large[k].start <= start <= start + size <= large[k].End()
      && Carve(large, k, size, align) == large[..k] + Remainder(large[k], start, start + size) + large[k + 1..]
  {
    hide AlignUp, Remainder;
    AlignUpIsLeast(large[k].start, align);
  }

  lemma LargeArgs(h: Heap, size: nat, align: nat)
    requires Inv(h) && Safe(h, size, align) && ServingBucket(h, size, align).None?
    ensures IsPow2(Max(align, 8)) && ListOk(h.large, h.hi) && FitHasRoom(h.large, Max(size, 8), Max(align, 8))
  {
    hide AlignUp, LiveOk, BucketsOk, FirstFit, Room;
    assert IsPow2(8);
    HeadersInside(h);
    var k := FirstFit(h.large, Max(size, 8), Max(align, 8));
    if k.Some? {
      RoomInside(h.large[k.value], Max(size, 8), Max(align, 8));
    }
  }

  lemma CarvedStands(before: Memory, mem: Memory, buckets: seq<Bucket>, head: nat, h: Heap, size: nat, align: nat,
      left: seq<Region>)
    requires Inv(h) && Safe(h, size, align) && ServingBucket(h, size, align).None?
    requires BucketsRepresent(before, buckets, h.stacks) && WroteOnly(before, mem, h.large)
    requires left == FitLeft(h.large, Max(size, 8), Max(align, 8)) && LargeChain(mem, head, left, 0)
    ensures var (h', ptr) := HeapModel.Alloc(h, size, align);
      && StandsFor(mem, buckets, head, h') && ptr == FitPtr(h.large, Max(size, 8), Max(align, 8))
      && h'.lo == h.lo && h'.hi == h.hi && h'.used == h.used + if ptr.None? then 0 else Max(size, 8)
  {
    hide LiveOk, LargeOk, AlignUp, Paint, FirstFit, Carve, FreeChain, LargeChain, IsPow2;
    AllocKeeps(h, size, align);
    LargeWritesMissNodes(before, mem, h, 0, 0);
    BucketsFrame(before, mem, buckets, h.stacks);
  }

  lemma PutStands(before: Memory, mem: Memory, was: seq<Bucket>, now: seq<Bucket>, head: nat, h: Heap, p: nat, i: nat)
    requires StandsFor(before, was, head, h) && p in h.live && BucketIndex(Max(h.live[p], 8)) == Some(i)
    requires OnlyBucket(was, now, i, [p] + h.stacks[i], mem)
    requires forall a {:trigger Load(mem, a)} :: a != p ==> Load(mem, a) == Load(before, a)
    ensures StandsFor(mem, now, head, Free(h, p))
    ensures Free(h, p).lo == h.lo && Free(h, p).hi == h.hi && Free(h, p).used == SaturatingSub(h.used, BUCKET_SIZES[i])
  {
    FreeKeeps(h, p);
    LiveIsVacant(h, p);
    ClientWritesAreHarmless(before, mem, was, head, h);
    OneBucketChanged(mem, mem, was, now, h.stacks, i, [p] + h.stacks[i]);
  }

  lemma InsertedStands(before: Memory, mem: Memory, buckets: seq<Bucket>, head: nat, h: Heap, p: nat, left: seq<Region>)
    requires Inv(h) && p in h.live && h.live[p] > 2048
    requires BucketsRepresent(before, buckets, h.stacks) && WroteOnlyAt(before, mem, h.large, p, h.live[p])
    requires left == Insert(h.large, p, h.live[p]) && LargeChain(mem, head, left, 0)
    ensures StandsFor(mem, buckets, head, Free(h, p))
    ensures Free(h, p).lo == h.lo && Free(h, p).hi == h.hi && Free(h, p).used == SaturatingSub(h.used, h.live[p])
  {
    FreeKeeps(h, p);
    LiveIsVacant(h, p);
    LargeWritesMissNodes(before, mem, h, p, h.live[p]);
    BucketsFrame(before, mem, buckets, h.stacks);
  }

  /** Every list head and every link is a heap address, or 0. */
  lemma HeadersInside(h: Heap)
    requires Inv(h)
    ensures ListOk(h.large, h.hi) && 0 < h.lo && h.hi < WORD_LIMIT / 2 && |h.stacks| == BUCKET_COUNT
    ensures forall i :: 0 <= i < BUCKET_COUNT && h.stacks[i] != [] ==> h.stacks[i][0] < h.hi
  {
    HeaderOwners(h);
    forall i | 0 <= i < BUCKET_COUNT && h.stacks[i] != [] ensures h.stacks[i][0] < h.hi {
      assert h.stacks[i][0] in h.stacks[i];
    }
  }

  /** A live block is nowhere in the free lists. */
  lemma LiveIsVacant(h: Heap, p: nat)
    requires Inv(h) && p in h.live
    ensures h.lo <= p && p + Span(h.live[p]) <= h.hi
      && forall x :: p <= x < p + Span(h.live[p]) ==> x in h.owner && h.owner[x] == InLive(p)
    ensures forall i :: 0 <= i < BUCKET_COUNT ==> p !in h.stacks[i]
    ensures h.live[p] > 2048 ==> Vacant(h.large, p, h.live[p])
  {
    var n := Span(h.live[p]);
    assert Owned(h.owner, p, n, InLive(p));
    assert p in h.owner && p + n - 1 in h.owner;
    HeaderOwners(h);
    if h.live[p] > 2048 {
      Between(h.large, p, n);
    }
  }

  lemma OneBucketChanged(mem: Memory, mem': Memory, was: seq<Bucket>, now: seq<Bucket>, stacks: seq<seq<nat>>, i: nat,
      stack: seq<nat>)
    requires BucketsRepresent(mem, was, stacks) && i < BUCKET_COUNT == |now|
    requires forall j :: 0 <= j < BUCKET_COUNT && j != i ==>
      now[j] == was[j] && FreeChain(mem', was[j].freeList, stacks[j])
    requires now[i].blockSize == was[i].blockSize && now[i].totalBlocks == was[i].totalBlocks
    requires now[i].freeBlocks == |stack| && FreeChain(mem', now[i].freeList, stack)
    ensures BucketsRepresent(mem', now, stacks[i := stack])
  {
  }

  /** Writes inside listed regions, or inside a live block, miss every bucket node. */
  lemma LargeWritesMissNodes(mem: Memory, mem': Memory, h: Heap, addr: nat, size: nat)
    requires Inv(h) && WroteOnlyAt(mem, mem', h.large, addr, size)
    requires forall x :: addr <= x < addr + size ==> x in h.owner && h.owner[x].InLive?
    ensures SameNodes(mem, mem', h.stacks)
  {
    NodesUntouched(mem, mem', h);
  }

  /** The freed interval touches no listed region's inside, or is the start of one (a double free). */
  ghost predicate Vacant(large: seq<Region>, addr: nat, size: nat) {
    var n := Position(large, addr);
    Apart(large, n, addr, addr + size)
      || (n < |large| && large[n].start == addr && (n > 0 ==> large[n - 1].End() <= addr))
  }

  ghost predicate WroteOnlyAt(mem: Memory, mem': Memory, large: seq<Region>, addr: int, size: int) {
    forall a {:trigger Load(mem', a)} :: Load(mem', a) != Load(mem, a) ==> Covers(large, a) || addr <= a < addr + size
  }

  /** The list once the freed block's size is written: different only on a double free. */
  ghost function HeaderWritten(large: seq<Region>, addr: nat, size: nat): seq<Region> {
    var n := Position(large, addr);
    if n < |large| && large[n].start == addr then large[n := Region(addr, size)] else large
  }

  ghost predicate Listed(all: seq<Region>, n: nat, addr: nat)
    requires n <= |all|
  {
    n < |all| && all[n].start == addr
  }

  /** `Insert` at a known position. */
  ghost function Placed(all: seq<Region>, n: nat, addr: nat, size: nat): seq<Region>
    requires n <= |all|
  {
    if Listed(all, n, addr) then all
    else all[..First(all, n, addr)] + [Joined(all, n, addr, size)] + all[Last(all, n, addr + size)..]
  }

  ghost predicate PlaceArgs(mem: Memory, head: int, all: seq<Region>, addr: nat, size: nat, n: nat, hi: nat) {
    && n == Position(all, addr) && LargeChain(mem, head, all, 0) && Load(mem, addr) == size
    && (forall j :: 0 <= j < |all| ==> all[j].start > 0)
    && (Listed(all, n, addr) ||
        (ListOk(all, hi) && Apart(all, n, addr, addr + size) && size >= NODE_SIZE && 0 < addr && addr + size <= hi))
  }

  /** Writing the size and then placing the block is `Insert`. */
  lemma PlacedIsInsert(before: Memory, mem: Memory, large: seq<Region>, addr: Word, size: Word)
    requires size > 0
    requires var n, all := Position(large, addr), HeaderWritten(large, addr, size);
      if Listed(all, n, addr) then mem == before[addr := size]
        else WroteOnlyAt(before[addr := size], mem, all, addr, size)
    ensures var n, all := Position(large, addr), HeaderWritten(large, addr, size);
      Placed(all, n, addr, size) == Insert(large, addr, size)
    ensures WroteOnlyAt(before, mem, large, addr, size)
  {
    var written := before[addr := size];
    forall a {:trigger Load(mem, a)} | Load(mem, a) != Load(before, a)
      ensures Covers(large, a) || addr <= a < addr + size
    {
      assert Load(written, a) != Load(before, a) || Load(mem, a) != Load(written, a);
    }
  }

  /** The four merge cases share these conditions. */
  ghost predicate JoinArgs(mem: Memory, head: int, all: seq<Region>, prev: int, curr: int, addr: int, size: int,
      n: nat, hi: nat)
  {
    && ListOk(all, hi) && n <= |all| && 0 < addr && size >= NODE_SIZE && addr + size <= hi
    && Apart(all, n, addr, addr + size)
    && Walked(mem, head, all, n, prev, curr) && (curr != 0 <==> n < |all|) && (prev != 0 <==> n > 0)
    && Load(mem, addr) == size
    && (n < |all| ==> CursorAt(mem, head, all, n, prev, curr))
    && (n > 0 ==> CursorAt(mem, head, all, n - 1, Slot(all[..n - 1]), prev) && Load(mem, prev + 8) == curr)
    && (n == 0 ==> head == curr)
  }

  lemma Neighbours(mem: Memory, head: int, all: seq<Region>, n: nat, prev: int, curr: int)
    requires Walked(mem, head, all, n, prev, curr) && (curr != 0 <==> n < |all|)
    requires Coalesced(all) && forall j :: 0 <= j < |all| ==> Sound(all[j]) && all[j].start > 0
    ensures n < |all| ==> CursorAt(mem, head, all, n, prev, curr)
    ensures n > 0 ==>
      prev > 0 && CursorAt(mem, head, all, n - 1, Slot(all[..n - 1]), prev) && Load(mem, prev + 8) == curr
    ensures n == 0 ==> prev == 0 && head == curr
  {
    if n < |all| {
      EnterRegion(mem, head, all, n, prev, curr);
    }
    if n > 0 {
      LastPointer(mem, head, all[..n], curr);
      assert all[..n] == all[..n - 1] + [all[n - 1]];
      var mid := LargeChainSplit(mem, head, all[..n - 1], [all[n - 1]], curr);
    }
  }

  /** `mem` differs from `before` inside the merged region, and in the pointer that leads there when
      nothing before it is merged. */
  ghost predicate JoinWrites(before: Memory, mem: Memory, head: int, head': int, all: seq<Region>, prev: int,
      curr: int, addr: nat, size: nat, n: nat)
    requires n <= |all|
  {
    var joined := Joined(all, n, addr, size);
    && (forall a {:trigger Load(mem, a)} :: Load(mem, a) != Load(before, a) ==>
         joined.start <= a < joined.End() || (!JoinsPrev(all, n, addr) && n > 0 && a == prev + 8))
    && (if JoinsPrev(all, n, addr) then head' == head
        else if n == 0 then head' == addr else head' == head && Load(mem, prev + 8) == addr)
    && LargeChain(mem, joined.start, [joined], if JoinsNext(all, n, addr + size) then Load(before, curr + 8) else curr)
  }

  /** `Splice` for a freed interval. */
  lemma JoinSplice(before: Memory, mem: Memory, head: int, head': int, all: seq<Region>, prev: int, curr: int,
      addr: nat, size: nat, n: nat, hi: nat)
    requires JoinArgs(before, head, all, prev, curr, addr, size, n, hi)
    requires JoinWrites(before, mem, head, head', all, prev, curr, addr, size, n)
    ensures LargeChain(mem, head',
      all[..First(all, n, addr)] + [Joined(all, n, addr, size)] + all[Last(all, n, addr + size)..], 0)
    ensures WroteOnlyAt(before, mem, all, addr, size)
  {
    if JoinsPrev(all, n, addr) {
      SpliceFromPrev(before, mem, head, all, prev, curr, addr, size, n, hi);
    } else {
      SpliceFromBlock(before, mem, head, head', all, prev, curr, addr, size, n, hi);
    }
    JoinedBytes(before, mem, all, prev, addr, size, n);
  }

  lemma SpliceFromPrev(before: Memory, mem: Memory, head: int, all: seq<Region>, prev: int, curr: int, addr: nat,
      size: nat, n: nat, hi: nat)
    requires JoinArgs(before, head, all, prev, curr, addr, size, n, hi) && JoinsPrev(all, n, addr)
    requires JoinWrites(before, mem, head, head, all, prev, curr, addr, size, n)
    ensures LargeChain(mem, head, all[..n - 1] + [Joined(all, n, addr, size)] + all[Last(all, n, addr + size)..], 0)
  {
    var joined := Joined(all, n, addr, size);
    var after := if JoinsNext(all, n, addr + size) then Load(before, curr + 8) else curr;
    EntryPointer(before, head, all, n - 1, Slot(all[..n - 1]), prev);
    SlotElsewhere(all, n - 1);
    Splice(before, mem, head, head, all, n - 1, Last(all, n, addr + size), joined.start, joined.End(), [joined], prev,
      prev, after);
  }

  lemma SpliceFromBlock(before: Memory, mem: Memory, head: int, head': int, all: seq<Region>, prev: int, curr: int,
      addr: nat, size: nat, n: nat, hi: nat)
    requires JoinArgs(before, head, all, prev, curr, addr, size, n, hi) && !JoinsPrev(all, n, addr)
    requires JoinWrites(before, mem, head, head', all, prev, curr, addr, size, n)
    ensures LargeChain(mem, head', all[..n] + [Joined(all, n, addr, size)] + all[Last(all, n, addr + size)..], 0)
  {
    var joined := Joined(all, n, addr, size);
    var after := if JoinsNext(all, n, addr + size) then Load(before, curr + 8) else curr;
    Splice(before, mem, head, head', all, n, Last(all, n, addr + size), joined.start, joined.End(), [joined], curr,
      addr, after);
  }

  lemma JoinedBytes(before: Memory, mem: Memory, all: seq<Region>, prev: int, addr: nat, size: nat, n: nat)
    requires n <= |all| && prev == Slot(all[..n]) && forall k :: 0 <= k < |all| ==> all[k].size >= NODE_SIZE
    requires var joined := Joined(all, n, addr, size);
      forall a {:trigger Load(mem, a)} :: Load(mem, a) != Load(before, a) ==>
        joined.start <= a < joined.End() || (!JoinsPrev(all, n, addr) && n > 0 && a == prev + 8)
    ensures WroteOnlyAt(before, mem, all, addr, size)
  {
    forall a {:trigger Load(mem, a)} | Load(mem, a) != Load(before, a)
      ensures Covers(all, a) || addr <= a < addr + size
    {
      assert n > 0 && all[n - 1].start <= a < all[n - 1].End() ==> Covers(all, a);
      assert n < |all| && all[n].start <= a < all[n].End() ==> Covers(all, a);
    }
  }

  lemma {:induction false} PositionByStarts(a: seq<Region>, b: seq<Region>, addr: nat)
    requires |a| == |b| && forall k :: 0 <= k < |a| ==> a[k].start == b[k].start
    ensures Position(a, addr) == Position(b, addr)
  {
    if a != [] {
      PositionByStarts(a[1..], b[1..], addr);
    }
  }

  /** Writing the freed block's size keeps the list a list. */
  lemma HeaderKeepsChain(mem: Memory, head: int, large: seq<Region>, addr: nat, size: Word, hi: nat)
    requires LargeChain(mem, head, large, 0) && ListOk(large, hi) && size >= NODE_SIZE && Vacant(large, addr, size)
    ensures LargeChain(mem[addr := size], head, HeaderWritten(large, addr, size), 0)
    ensures Position(HeaderWritten(large, addr, size), addr) == Position(large, addr)
    ensures forall k :: 0 <= k < |HeaderWritten(large, addr, size)| ==> HeaderWritten(large, addr, size)[k].start > 0
  {
    var n, mem' := Position(large, addr), mem[addr := size];
    PositionByStarts(HeaderWritten(large, addr, size), large, addr);
    if n < |large| && large[n].start == addr {
      RewriteSize(mem, mem', head, large, n, size);
    } else {
      forall k | 0 <= k < |large|
        ensures Load(mem', large[k].start) == Load(mem, large[k].start)
        ensures Load(mem', large[k].start + 8) == Load(mem, large[k].start + 8)
      {
        BesideHeader(large, n, addr, size, k);
      }
      LargeChainFrame(mem, mem', head, large, 0);
    }
  }

  lemma BesideHeader(large: seq<Region>, n: nat, addr: nat, size: nat, k: nat)
    requires Coalesced(large) && n <= |large| && Apart(large, n, addr, addr + size) && size >= NODE_SIZE && k < |large|
    requires forall j :: 0 <= j < |large| ==> large[j].size >= NODE_SIZE
    ensures addr != large[k].start && addr != large[k].start + 8
  {
    if k < n {
      assert k < n - 1 ==> large[k].End() < large[n - 1].start;
    } else {
      assert k > n ==> large[n].End() < large[k].start;
    }
  }

  /** Rewriting a listed region's size. */
  lemma {:induction false} RewriteSize(mem: Memory, mem': Memory, head: int, large: seq<Region>, n: nat, size: Word)
    requires LargeChain(mem, head, large, 0) && n < |large| && mem' == mem[large[n].start := size]
    requires Coalesced(large) && forall j :: 0 <= j < |large| ==> large[j].size >= NODE_SIZE
    ensures LargeChain(mem', head, large[n := Region(large[n].start, size)], 0)
    decreases n
  {
    var rest := large[1..];
    assert forall j, k :: 0 <= j < k < |rest| ==> rest[j] == large[j + 1] && rest[k] == large[k + 1];
    if n == 0 {
      forall k | 0 <= k < |rest|
        ensures Load(mem', rest[k].start) == Load(mem, rest[k].start)
        ensures Load(mem', rest[k].start + 8) == Load(mem, rest[k].start + 8)
      {
        assert rest[k] == large[k + 1];
      }
      LargeChainFrame(mem, mem', Load(mem, head + 8), rest, 0);
      assert large[n := Region(large[n].start, size)][1..] == rest;
    } else {
      RewriteSize(mem, mem', Load(mem, head + 8), rest, n - 1, size);
      assert large[n := Region(large[n].start, size)][1..] == rest[n - 1 := Region(large[n].start, size)];
    }
  }

  lemma TailInserted(before: Memory, mem: Memory, head: int, all: seq<Region>, k: nat, prev: int, cur: nat, start: nat,
      end: nat, excess: nat)
    requires CursorAt(before, head, all, k, prev, cur) && all[k].End() < WORD_LIMIT
    requires cur + NODE_SIZE <= start <= end && excess >= NODE_SIZE && end + excess == all[k].End()
    requires mem ==
      before[end := excess][cur := start - cur][end + 8 := Load(before, cur + 8)][cur + 8 := 0][cur + 8 := end]
    ensures LargeChain(mem, head, all[..k] + [Region(cur, start - cur), Region(end, excess)] + all[k + 1..], 0)
    ensures WroteOnly(before, mem, all)
  {
    var after := Load(before, cur + 8);
    var front, tail := Region(cur, start - cur), Region(end, excess);
    OneNode(mem, tail, after);
    OneNode(mem, front, end);
    LargeChainConcat(mem, cur, [front], end, [tail], after);
    assert [front] + [tail] == [front, tail];
    EntryPointer(before, head, all, k, prev, cur);
    SlotElsewhere(all, k);
    SpliceOne(before, mem, head, head, all, k, prev, cur, [front, tail], cur);
  }

  /** The slot that leads to region `k` is not inside it. */
  lemma SlotElsewhere(all: seq<Region>, k: nat)
    requires k < |all| && Coalesced(all) && forall j :: 0 <= j < |all| ==> all[j].size >= NODE_SIZE
    ensures k > 0 ==> Slot(all[..k]) + NODE_SIZE <= all[k].start
  {
  }

  /** Only words inside the listed regions changed. */
  ghost predicate WroteOnly(mem: Memory, mem': Memory, large: seq<Region>) {
    forall a {:trigger Load(mem', a)} :: Load(mem', a) != Load(mem, a) ==> Covers(large, a)
  }

  /** The first fit at or after region `k`. */
  ghost function Found(all: seq<Region>, k: nat, size: nat, align: nat): Option<nat>
    requires k <= |all| && align > 0
  {
    var fit := FirstFit(all[k..], size, align);
    if fit.None? then None else Some(fit.value + k)
  }

  lemma FoundFirst(all: seq<Region>, size: nat, align: nat)
    requires align > 0
    ensures Found(all, 0, size, align) == FirstFit(all, size, align)
  {
    assert all[0..] == all;
  }

  lemma NothingFound(all: seq<Region>, k: nat, size: nat, align: nat)
    requires align > 0 && k <= |all| && all[k..] == []
    ensures Found(all, k, size, align) == None
  {
  }

  /** The cursor has passed `k` regions. */
  ghost predicate Walked(mem: Memory, head: int, all: seq<Region>, k: nat, prev: int, cur: int) {
    && k <= |all| && prev == Slot(all[..k])
    && LargeChain(mem, head, all[..k], cur) && LargeChain(mem, cur, all[k..], 0)
  }

  /** The cursor is at region `k`, and the list is in order. */
  ghost predicate CursorAt(mem: Memory, head: int, all: seq<Region>, k: nat, prev: int, cur: int) {
    && k < |all| && prev == Slot(all[..k]) && cur == all[k].start != 0
    && Coalesced(all) && (forall j :: 0 <= j < |all| ==> all[j].size >= NODE_SIZE && all[j].start > 0)
    && LargeChain(mem, head, all[..k], cur)
    && Load(mem, cur) == all[k].size
    && LargeChain(mem, Load(mem, cur + 8), all[k + 1..], 0)
  }

  /** The three ways on at region `k`: stop on overflow, stop at a fit, or go on. */
  lemma FitStep(all: seq<Region>, k: nat, size: nat, align: nat, hi: nat)
    requires k < |all| && ListOk(all, hi) && IsPow2(align) && 8 <= align < WORD_LIMIT / 2
    ensures var start := AlignUp(all[k].start, align); var found := Found(all, k, size, align);
      && AlignUpWord(all[k].start, align) == start
      && (if start + size >= WORD_LIMIT then found == None
          else if start + size <= all[k].End() then found == Some(k)
          else found == Found(all, k + 1, size, align))
  {
    assert all[k..][0] == all[k] && all[k..][1..] == all[k + 1..];
    AlignUpInRange(all[k].start, align);
  }

  /** There is room in a list of sound regions, except for a block of less than 16 bytes at the start of a
      region of which something is left. */
  lemma RoomInside(r: Region, size: nat, align: nat)
    requires Sound(r) && IsPow2(align) && 8 <= align && Fits(r, size, align)
    ensures var start := AlignUp(r.start, align);
      Room(r, start, start + size) <==> size >= NODE_SIZE || start != r.start || r.End() - (start + size) < NODE_SIZE
  {
    hide AlignUp, IsPow2;
    AlignUpIsLeast(r.start, align);
    AlignedSound(r, align);
    MultiplesOf16(AlignUp(r.start, align), r.start);
  }

  /** A coalesced list of sound regions below `hi`. */
  ghost predicate ListOk(large: seq<Region>, hi: nat) {
    && hi < WORD_LIMIT / 2 && Coalesced(large)
    && forall k :: 0 <= k < |large| ==> Sound(large[k]) && 0 < large[k].start && large[k].End() <= hi
  }

  lemma EnterRegion(mem: Memory, head: int, all: seq<Region>, k: nat, prev: int, cur: int)
    requires Walked(mem, head, all, k, prev, cur) && cur != 0
    requires Coalesced(all) && forall j :: 0 <= j < |all| ==> Sound(all[j]) && all[j].start > 0
    ensures CursorAt(mem, head, all, k, prev, cur)
    ensures Walked(mem, head, all, k + 1, cur, Load(mem, cur + 8))
    ensures all[k..][0] == all[k] && all[k..][1..] == all[k + 1..]
  {
    assert all[k..][0] == all[k] && all[k..][1..] == all[k + 1..];
    ExtendChain(mem, head, all, k);
  }

  /** What the cursor's slot holds while the cursor is at region `k`. */
  lemma EntryPointer(mem: Memory, head: int, all: seq<Region>, k: nat, prev: int, cur: int)
    requires CursorAt(mem, head, all, k, prev, cur)
    ensures if k == 0 then head == cur else prev > 0 && Load(mem, prev + 8) == cur
  {
    if k > 0 {
      LastPointer(mem, head, all[..k], cur);
    }
  }

  lemma {:induction false} LastPointer(mem: Memory, head: int, large: seq<Region>, to: int)
    requires LargeChain(mem, head, large, to) && large != []
    ensures Load(mem, Slot(large) + 8) == to
    decreases |large|
  {
    if |large| > 1 {
      LastPointer(mem, Load(mem, head + 8), large[1..], to);
    }
  }

  /** `Splice` for a single region. */
  lemma SpliceOne(mem: Memory, mem': Memory, head: int, head': int, all: seq<Region>, k: nat, prev: int, cur: int,
      mid: seq<Region>, entry: int)
    requires CursorAt(mem, head, all, k, prev, cur)
    requires forall a {:trigger Load(mem', a)} :: Load(mem', a) != Load(mem, a) ==>
      all[k].start <= a < all[k].End() || (k > 0 && a == prev + 8)
    requires if k == 0 then head' == entry else head' == head && Load(mem', prev + 8) == entry
    requires LargeChain(mem', entry, mid, Load(mem, cur + 8))
    ensures LargeChain(mem', head', all[..k] + mid + all[k + 1..], 0)
    ensures WroteOnly(mem, mem', all)
  {
    Splice(mem, mem', head, head', all, k, k + 1, all[k].start, all[k].End(), mid, cur, entry, Load(mem, cur + 8));
    forall a | Load(mem', a) != Load(mem, a) ensures Covers(all, a) {
      if k > 0 && a == prev + 8 {
        assert all[k - 1].start <= a < all[k - 1].End();
      }
    }
  }

  /** The stores of `alloc_large` for a block at the start of a region, up to the pointer to the region. */
  function CutAtStart(mem: Memory, cur: int, end: int, excess: Word): Memory {
    var sized := mem[end := excess];
    sized[end + 8 := Load(sized, cur + 8)][cur + 8 := 0]
  }

  /** They leave the list they should exactly when the block is at least as long as a header. After a shorter
      one the new header has size 0, and its own old size for a pointer. */
  lemma CutAtStartExactly(before: Memory, mem: Memory, head: int, head': int, all: seq<Region>, k: nat, prev: int,
      cur: int, end: int, excess: Word)
    requires CursorAt(before, head, all, k, prev, cur) && all[k].End() < WORD_LIMIT
    requires cur < end && (end - cur) % 8 == 0 && excess >= NODE_SIZE && end + excess == all[k].End()
    requires if k == 0 then head' == end && mem == CutAtStart(before, cur, end, excess)
      else head' == head && mem == CutAtStart(before, cur, end, excess)[prev + 8 := end]
    ensures LargeChain(mem, head', all[..k] + [Region(end, excess)] + all[k + 1..], 0) <==> end >= cur + NODE_SIZE
    ensures end < cur + NODE_SIZE ==> Load(mem, end) == 0 && Load(mem, end + 8) == excess
  {
    hide CutAtStart, LargeChain, WroteOnly;
    if end >= cur + NODE_SIZE {
      LongCut(before, mem, head, head', all, k, prev, cur, end, excess);
    } else {
      ShortCut(before, mem, head, head', all, k, prev, cur, end, excess);
    }
  }

  lemma LongCut(before: Memory, mem: Memory, head: int, head': int, all: seq<Region>, k: nat, prev: int,
      cur: int, end: int, excess: Word)
    requires CursorAt(before, head, all, k, prev, cur) && all[k].End() < WORD_LIMIT
    requires cur + NODE_SIZE <= end && excess >= NODE_SIZE && end + excess == all[k].End()
    requires if k == 0 then head' == end && mem == CutAtStart(before, cur, end, excess)
      else head' == head && mem == CutAtStart(before, cur, end, excess)[prev + 8 := end]
    ensures LargeChain(mem, head', all[..k] + [Region(end, excess)] + all[k + 1..], 0)
  {
    hide LargeChain, WroteOnly;
    SlotElsewhere(all, k);
    OneNode(mem, Region(end, excess), Load(before, cur + 8));
    SpliceOne(before, mem, head, head', all, k, prev, cur, [Region(end, excess)], end);
  }

  lemma ShortCut(before: Memory, mem: Memory, head: int, head': int, all: seq<Region>, k: nat, prev: int,
      cur: int, end: int, excess: Word)
    requires CursorAt(before, head, all, k, prev, cur) && all[k].End() < WORD_LIMIT
    requires end == cur + 8 && excess >= NODE_SIZE && end + excess == all[k].End()
    requires if k == 0 then head' == end && mem == CutAtStart(before, cur, end, excess)
      else head' == head && mem == CutAtStart(before, cur, end, excess)[prev + 8 := end]
    ensures Load(mem, end) == 0 && Load(mem, end + 8) == excess
    ensures !LargeChain(mem, head', all[..k] + [Region(end, excess)] + all[k + 1..], 0)
  {
    SlotElsewhere(all, k);
    var rest := [Region(end, excess)] + all[k + 1..];
    assert all[..k] + [Region(end, excess)] + all[k + 1..] == all[..k] + rest;
    if LargeChain(mem, head', all[..k] + rest, 0) {
      var mid := LargeChainSplit(mem, head', all[..k], rest, 0);
    }
  }

  lemma ExtendChain(mem: Memory, head: int, all: seq<Region>, k: nat)
    requires k < |all| && LargeChain(mem, head, all[..k], all[k].start) && LargeChain(mem, all[k].start, all[k..], 0)
    ensures LargeChain(mem, head, all[..k + 1], Load(mem, all[k].start + 8))
    ensures LargeChain(mem, Load(mem, all[k].start + 8), all[k + 1..], 0)
    ensures Slot(all[..k + 1]) == all[k].start
  {
    var next := Load(mem, all[k].start + 8);
    assert all[k..][1..] == all[k + 1..];
    assert [all[k]][1..] == [];
    assert LargeChain(mem, all[k].start, [all[k]], next);
    LargeChainConcat(mem, head, all[..k], all[k].start, [all[k]], next);
    assert all[..k] + [all[k]] == all[..k + 1];
  }
}
